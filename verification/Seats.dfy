/** The build seat's scoreboard, derived from the ledger on every call. */
module Seats {
  import opened Ledger
  import Sorting

  datatype Seat = Seat(agent: string, published: nat, refused: nat)
  {
    /** A seat is listed only with at least one outcome; without one its rate is zero. */
    function SuccessRate(): real {
      if published + refused == 0 then 0.0 else published as real / (published + refused) as real
    }
  }

  /** The tenant's attempts by one model that ended in one status. */
  function Outcomes(attempts: seq<Attempt>, tenant: string, agent: string, status: string): nat {
    if attempts == [] then 0 else
    var a := attempts[|attempts| - 1];
    Outcomes(attempts[..|attempts| - 1], tenant, agent, status)
    + (if a.tenant == tenant && a.model == agent && a.status == status then 1 else 0)
  }

  function SeatOf(attempts: seq<Attempt>, tenant: string, agent: string): Seat {
    Seat(agent, Outcomes(attempts, tenant, agent, PUBLISHED), Outcomes(attempts, tenant, agent, REFUSED))
  }

  /** Best rate first, then most published. */
  predicate Better(a: Seat, b: Seat) {
    a.SuccessRate() > b.SuccessRate() || (a.SuccessRate() == b.SuccessRate() && a.published >= b.published)
  }

  lemma {:induction false} BetterIsTotalPreorder()
    ensures Sorting.TotalPreorder(Better)
  {
  }

  ghost predicate Listed(board: seq<Seat>, agent: string) {
    exists i :: 0 <= i < |board| && board[i].agent == agent
  }

  predicate Played(attempts: seq<Attempt>, tenant: string, agent: string) {
    Outcomes(attempts, tenant, agent, PUBLISHED) + Outcomes(attempts, tenant, agent, REFUSED) > 0
  }

  ghost predicate Exact(board: seq<Seat>, attempts: seq<Attempt>, tenant: string) {
    && (forall agent :: Listed(board, agent) <==> Played(attempts, tenant, agent))
    && (forall seat <- board :: seat == SeatOf(attempts, tenant, seat.agent))
    && (forall i, j :: 0 <= i < j < |board| ==> board[i].agent != board[j].agent)
  }

  /** Where a model sits on the board, or the board's length. */
  function Find(board: seq<Seat>, agent: string): (k: nat)
    ensures k <= |board| && (k < |board| ==> board[k].agent == agent)
    ensures forall i :: 0 <= i < k ==> board[i].agent != agent
  {
    if board == [] || board[0].agent == agent then 0 else
    var k := Find(board[1..], agent);
    assert forall i :: 0 < i <= k ==> i < k + 1 && (i - 1 < k ==> board[1..][i - 1] == board[i]);
    k + 1
  }

  function ScoredSeat(seat: Seat, a: Attempt): Seat {
    if a.status == PUBLISHED then seat.(published := seat.published + 1) else seat.(refused := seat.refused + 1)
  }

  /** One more outcome for a model, a new seat if it has none yet. */
  function Scored(board: seq<Seat>, a: Attempt): seq<Seat> {
    var k := Find(board, a.model);
    if k < |board| then board[k := ScoredSeat(board[k], a)] else board + [ScoredSeat(Seat(a.model, 0, 0), a)]
  }

  predicate Scores(a: Attempt, tenant: string, agent: string) {
    a.tenant == tenant && a.model == agent && Decisive(a)
  }

  lemma {:induction false} OneMoreOutcome(attempts: seq<Attempt>, a: Attempt, tenant: string, agent: string)
    ensures var was := SeatOf(attempts, tenant, agent);
      SeatOf(attempts + [a], tenant, agent) == if Scores(a, tenant, agent) then ScoredSeat(was, a) else was
    ensures Played(attempts + [a], tenant, agent) <==> Played(attempts, tenant, agent) || Scores(a, tenant, agent)
  {
    assert (attempts + [a])[..|attempts|] == attempts;
  }

  lemma {:induction false} UnplayedSeat(attempts: seq<Attempt>, tenant: string, agent: string)
    ensures !Played(attempts, tenant, agent) ==> SeatOf(attempts, tenant, agent) == Seat(agent, 0, 0)
  {
    hide Outcomes;
  }

  lemma {:induction false} IrrelevantAttempt(board: seq<Seat>, attempts: seq<Attempt>, a: Attempt, tenant: string)
    requires Exact(board, attempts, tenant) && !(a.tenant == tenant && Decisive(a))
    ensures Exact(board, attempts + [a], tenant)
  {
    forall agent
      ensures SeatOf(attempts + [a], tenant, agent) == SeatOf(attempts, tenant, agent)
      ensures Played(attempts + [a], tenant, agent) == Played(attempts, tenant, agent)
    {
      OneMoreOutcome(attempts, a, tenant, agent);
    }
    hide SeatOf, Played, Listed;
  }

  lemma {:induction false} ScoredBoard(board: seq<Seat>, a: Attempt)
    ensures var k, board' := Find(board, a.model), Scored(board, a);
      && k < |board'| && |board| <= |board'| && board'[k].agent == a.model
      && (forall i :: 0 <= i < |board'| && i != k ==> i < |board| && board'[i] == board[i])
      && board'[k] == ScoredSeat(if k < |board| then board[k] else Seat(a.model, 0, 0), a)
    ensures forall agent :: Listed(Scored(board, a), agent) <==> Listed(board, agent) || agent == a.model
  {
    var k, board' := Find(board, a.model), Scored(board, a);
    hide Find;
    assert board'[k].agent == a.model;
    forall agent | Listed(board, agent) ensures Listed(board', agent) {
      var i :| 0 <= i < |board| && board[i].agent == agent;
      assert board'[i].agent == agent;
    }
  }

  lemma {:induction false} ScoringIsExact(board: seq<Seat>, attempts: seq<Attempt>, a: Attempt, tenant: string)
    requires Exact(board, attempts, tenant) && a.tenant == tenant && Decisive(a)
    ensures Exact(Scored(board, a), attempts + [a], tenant)
  {
    var k, board' := Find(board, a.model), Scored(board, a);
    ScoredBoard(board, a);
    UnplayedSeat(attempts, tenant, a.model);
    assert k < |board| ==> board[k] in board;
    assert k == |board| ==> !Listed(board, a.model);
    hide Scored, Find, ScoredSeat, SeatOf, Played;
    forall agent ensures Listed(board', agent) <==> Played(attempts + [a], tenant, agent) {
      OneMoreOutcome(attempts, a, tenant, agent);
    }
    forall i | 0 <= i < |board'| ensures board'[i] == SeatOf(attempts + [a], tenant, board'[i].agent) {
      OneMoreOutcome(attempts, a, tenant, board'[i].agent);
      assert i != k ==> board[i] in board && board[i].agent != a.model;
    }
    forall i, j | 0 <= i < j < |board'| ensures board'[i].agent != board'[j].agent {
      assert i != k ==> board[i].agent != a.model;
    }
    hide Listed;
  }

  /** Every model with a published or refused attempt is listed once, with exactly its totals, the
      best first. */
  method SeatPerformance(attempts: seq<Attempt>, tenant: string) returns (board: seq<Seat>)
    ensures Exact(board, attempts, tenant)
    ensures Sorting.Sorted(board, Better)
  {
    var rows: seq<Seat> := [];
    for n := 0 to |attempts|
      invariant Exact(rows, attempts[..n], tenant)
    {
      assert attempts[..n] + [attempts[n]] == attempts[..n + 1];
      hide Exact, Scored;
      if attempts[n].tenant == tenant && Decisive(attempts[n]) {
        ScoringIsExact(rows, attempts[..n], attempts[n], tenant);
        rows := Scored(rows, attempts[n]);
      } else {
        IrrelevantAttempt(rows, attempts[..n], attempts[n], tenant);
      }
    }
    assert attempts[..|attempts|] == attempts;
    board := Sorting.Sort(rows, Better);
    BetterIsTotalPreorder();
    Sorting.SortIsSorted(rows, Better);
    Shuffled(rows, board, attempts, tenant);
  }

  lemma {:induction false} Shuffled(rows: seq<Seat>, board: seq<Seat>, attempts: seq<Attempt>, tenant: string)
    requires multiset(rows) == multiset(board) && Exact(rows, attempts, tenant)
    ensures Exact(board, attempts, tenant)
  {
    Sorting.SameElements(rows, board);
    Sorting.UnrepeatedSurvives(rows, board);
    forall agent ensures Listed(board, agent) <==> Listed(rows, agent) {
      SeatInBoth(rows, board, agent);
      SeatInBoth(board, rows, agent);
    }
    forall i, j | 0 <= i < j < |board| ensures board[i].agent != board[j].agent {
      assert board[i] in rows && board[j] in rows;
    }
  }

  lemma {:induction false} SeatInBoth(a: seq<Seat>, b: seq<Seat>, agent: string)
    requires forall s <- a :: s in b
    ensures Listed(a, agent) ==> Listed(b, agent)
  {
    if Listed(a, agent) {
      var i :| 0 <= i < |a| && a[i].agent == agent;
      assert a[i] in b;
    }
  }

  // ---- The board, in whole numbers ----

  /** The tenant's attempts by one model that ended in one status. */
  function EndedAt(attempts: seq<Attempt>, tenant: string, agent: string, status: string): set<int> {
    set i | 0 <= i < |attempts| && attempts[i].tenant == tenant && attempts[i].model == agent
            && attempts[i].status == status
  }

  lemma {:induction false} OneMoreEnded(init: seq<Attempt>, a: Attempt, tenant: string, agent: string, status: string)
    ensures var n, one := |init|, a.tenant == tenant && a.model == agent && a.status == status;
      && EndedAt(init + [a], tenant, agent, status) == EndedAt(init, tenant, agent, status) + (if one then {n} else {})
      && n !in EndedAt(init, tenant, agent, status)
      && Outcomes(init + [a], tenant, agent, status)
           == Outcomes(init, tenant, agent, status) + (if one then 1 else 0)
  {
    assert (init + [a])[..|init|] == init;
  }

  lemma {:induction false} OutcomesCount(attempts: seq<Attempt>, tenant: string, agent: string, status: string)
    ensures Outcomes(attempts, tenant, agent, status) == |EndedAt(attempts, tenant, agent, status)|
  {
    if attempts == [] {
      assert EndedAt(attempts, tenant, agent, status) == {};
    } else {
      var init, a := attempts[..|attempts| - 1], attempts[|attempts| - 1];
      assert attempts == init + [a];
      hide *;
      OutcomesCount(init, tenant, agent, status);
      OneMoreEnded(init, a, tenant, agent, status);
    }
  }

  lemma {:induction false} FractionOrder(p: real, q: real, r: real, s: real)
    requires q > 0.0 && s > 0.0
    ensures p / q > r / s <==> p * s > r * q
    ensures p / q == r / s <==> p * s == r * q
  {
    var u, v, w := p / q, r / s, q * s;
    assert p == u * q && r == v * s;
    assert p * s == u * w && r * q == v * w && w > 0.0;
    if u > v {
      assert (u - v) * w > 0.0;
    } else if u < v {
      assert (v - u) * w > 0.0;
    }
  }

  /** One seat is at least as good as another if it published more of each of its outcomes, compared by
      cross-multiplying; and of equals the one that published more. */
  lemma {:induction false} BetterExactly(a: Seat, b: Seat)
    requires a.published + a.refused > 0 && b.published + b.refused > 0
    ensures var x, y := a.published * (b.published + b.refused), b.published * (a.published + a.refused);
      Better(a, b) <==> x > y || (x == y && a.published >= b.published)
  {
    var p, q, r, s := a.published, a.published + a.refused, b.published, b.published + b.refused;
    FractionOrder(p as real, q as real, r as real, s as real);
    WholeProducts(p, s);
    WholeProducts(r, q);
    RatesAre(a, b);
    hide *;
  }

  lemma {:induction false} WholeProducts(a: nat, b: nat)
    ensures (a * b) as real == a as real * b as real
  {
  }

  lemma {:induction false} RatesAre(a: Seat, b: Seat)
    requires a.published + a.refused > 0 && b.published + b.refused > 0
    ensures var x, y := a.published as real / (a.published + a.refused) as real,
                        b.published as real / (b.published + b.refused) as real;
      Better(a, b) <==> x > y || (x == y && a.published >= b.published)
  {
  }
}
