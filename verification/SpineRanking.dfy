/** Exactly what recall returns: without a query by recency, with one the same window ranked by
    similarity. */
module SpineRanking {
  import opened Spine
  import opened Sorting

  // ---- Without a query ----

  function Above(ids: seq<int>, id: int): set<int> {
    set other | other in ids && other > id
  }

  lemma {:induction false} AboveIsPosition(ids: seq<int>, p: nat)
    requires Descending(ids) && p < |ids|
    ensures |Above(ids, ids[p])| == p
  {
    TailIsSmaller(ids);
    hide Descending;
    if p == 0 {
      assert Above(ids, ids[0]) == {};
    } else {
      var rest := ids[1..];
      AboveIsPosition(rest, p - 1);
      assert rest[p - 1] in rest && ids == [ids[0]] + rest;
      AboveFirst(ids, ids[p]);
      assert ids[0] !in rest;
    }
  }

  lemma {:induction false} AboveFirst(ids: seq<int>, id: int)
    requires ids != [] && ids[0] > id
    ensures Above(ids, id) == {ids[0]} + Above(ids[1..], id)
  {
    assert ids == [ids[0]] + ids[1..];
  }

  lemma {:induction false} TakenByRank(ids: seq<int>, limit: int, id: int)
    requires Descending(ids)
    ensures id in Take(ids, limit) <==> id in ids && |Above(ids, id)| < limit
  {
    assert Take(ids, limit) <= ids;
    if id in ids {
      var p :| 0 <= p < |ids| && ids[p] == id;
      AboveIsPosition(ids, p);
      assert p < limit ==> Take(ids, limit)[p] == id;
      if id in Take(ids, limit) {
        var q :| 0 <= q < |Take(ids, limit)| && Take(ids, limit)[q] == id;
        assert ids[q] == id;
      }
    }
    hide Above;
  }

  /** The newer standing rows of the asked kinds. */
  function Newer(log: Log, scope: Scope, now: int, kinds: seq<string>, id: int): set<int> {
    set other | id < other <= |log| && StandingId(log, other, scope, now) && OfKind(log, other, kinds)
  }

  lemma {:induction false} InWindowExactly(log: Log, scope: Scope, now: int, id: int)
    ensures id in Window(log, scope, now)
      <==> StandingId(log, id, scope, now) && |Newer(log, scope, now, [], id)| < WINDOW
  {
    TakenByRank(StandingIds(log, scope, now), WINDOW, id);
    assert Above(StandingIds(log, scope, now), id) == Newer(log, scope, now, [], id);
    hide Above, Newer, StandingId;
  }

  /** Without a query recall lists, newest first, exactly the standing rows of the asked kinds that have
      fewer than 200 newer standing rows of any kind beside them, and fewer than the limit of the asked
      kinds. */
  lemma {:induction false} RecalledExactly(log: Log, scope: Scope, now: int, kinds: seq<string>, limit: int, id: int)
    ensures Descending(Recalled(log, scope, now, kinds, limit))
    ensures id in Recalled(log, scope, now, kinds, limit)
      <==> StandingId(log, id, scope, now) && OfKind(log, id, kinds)
           && |Newer(log, scope, now, [], id)| < WINDOW && |Newer(log, scope, now, kinds, id)| < limit
  {
    var window := Window(log, scope, now);
    var kept := KeepKinds(log, window, kinds);
    InWindowExactly(log, scope, now, id);
    TakenByRank(kept, limit, id);
    if id in kept {
      forall other | other > id ensures other in Above(kept, id) <==> other in Newer(log, scope, now, kinds, id) {
        if other in Newer(log, scope, now, kinds, id) {
          WindowKeepsNewer(log, scope, now, id, other);
        }
      }
      assert Above(kept, id) == Newer(log, scope, now, kinds, id);
    }
    assert Recalled(log, scope, now, kinds, limit) == Take(kept, limit);
    hide Recalled, Window, Above, Newer, StandingId;
  }

  // ---- With a query ----

  /** How rows score for the query. */
  function ScoreOf(log: Log, query: string, similarity: (string, string) -> real): int -> real {
    id => if 1 <= id <= |log| then similarity(query, log[id - 1].statement) else 0.0
  }

  /** What recall returns: the window, filtered by kind, ranked if there is a query, cut to the limit. */
  function RecalledFor(log: Log, scope: Scope, query: string, similarity: (string, string) -> real, now: int,
                       kinds: seq<string>, limit: int): seq<int>
  {
    if query == "" then Recalled(log, scope, now, kinds, limit)
    else Take(Sort(OfWindow(log, scope, now, kinds), AtLeast(ScoreOf(log, query, similarity))), limit)
  }

  /** The window's rows of the asked kinds, newest first. */
  function OfWindow(log: Log, scope: Scope, now: int, kinds: seq<string>): (ids: seq<int>)
    ensures Descending(ids)
  {
    KeepKinds(log, Window(log, scope, now), kinds)
  }

  function AtLeast(score: int -> real): (int, int) -> bool {
    (a, b) => score(a) >= score(b)
  }

  /** A higher score, or the same score and a newer row. */
  predicate Outranks(score: int -> real, a: int, b: int) {
    score(a) > score(b) || (score(a) == score(b) && a > b)
  }

  predicate InRank(score: int -> real, ids: seq<int>) {
    forall i, j :: 0 <= i < j < |ids| ==> Outranks(score, ids[i], ids[j])
  }

  lemma {:induction false} InsertKeepsRank(score: int -> real, id: int, ids: seq<int>)
    requires InRank(score, ids) && forall other <- ids :: id > other
    ensures InRank(score, Insert(id, ids, AtLeast(score)))
  {
    assert forall k :: 0 <= k < |ids| ==> ids[k] in ids;
    if ids != [] && score(id) < score(ids[0]) {
      var rest := Insert(id, ids[1..], AtLeast(score));
      InsertKeepsRank(score, id, ids[1..]);
      forall k | 0 <= k < |rest| ensures Outranks(score, ids[0], rest[k]) {
        assert rest[k] in multiset(rest);
        assert rest[k] == id || rest[k] in ids[1..];
      }
    }
  }

  /** Sorting newest-first rows stably by score ranks them. */
  lemma {:induction false} SortRanks(score: int -> real, ids: seq<int>)
    requires Descending(ids)
    ensures InRank(score, Sort(ids, AtLeast(score)))
  {
    if ids != [] {
      var rest := Sort(ids[1..], AtLeast(score));
      SortRanks(score, ids[1..]);
      SameElements(ids[1..], rest);
      InsertKeepsRank(score, ids[0], rest);
    }
  }

  /** The first rows of a ranking outrank the rest. */
  lemma {:induction false} FirstOutrankTheRest(score: int -> real, ranked: seq<int>, limit: int)
    requires InRank(score, ranked)
    ensures var ids := Take(ranked, limit);
      InRank(score, ids) && forall id <- ids, other <- ranked :: other in ids || Outranks(score, id, other)
  {
    hide Outranks;
    var ids := Take(ranked, limit);
    forall id, other | id in ids && other in ranked ensures other in ids || Outranks(score, id, other) {
      var i :| 0 <= i < |ids| && ids[i] == id;
      var j :| 0 <= j < |ranked| && ranked[j] == other;
      assert ranked[i] == id && (j < |ids| ==> ids[j] == other);
    }
  }

  /** With a query recall lists rows of the window and the kinds, as many as without, by score and newer
      first among equals; and each of them outranks every such row left out. */
  lemma {:induction false} RankedRecall(log: Log, scope: Scope, query: string, similarity: (string, string) -> real,
                                        now: int, kinds: seq<string>, limit: int)
    requires query != ""
    ensures var ids := RecalledFor(log, scope, query, similarity, now, kinds, limit);
      var score := ScoreOf(log, query, similarity);
      && InRank(score, ids) && |ids| == |Recalled(log, scope, now, kinds, limit)|
      && (forall id <- ids :: id in OfWindow(log, scope, now, kinds))
      && (forall id <- ids, other <- OfWindow(log, scope, now, kinds) :: other in ids || Outranks(score, id, other))
  {
    var all, score := OfWindow(log, scope, now, kinds), ScoreOf(log, query, similarity);
    var ranked := Sort(all, AtLeast(score));
    assert RecalledFor(log, scope, query, similarity, now, kinds, limit) == Take(ranked, limit);
    assert |Take(ranked, limit)| == |Take(all, limit)|;
    assert Recalled(log, scope, now, kinds, limit) == Take(all, limit);
    assert forall id <- Take(ranked, limit) :: id in ranked;
    hide *;
    SortRanks(score, all);
    SameElements(all, ranked);
    FirstOutrankTheRest(score, ranked, limit);
  }

  /** Said of the statements themselves: whatever a query lists reads at least as much like it as whatever
      it leaves out of the window and the kinds. */
  lemma {:induction false} ListedReadsCloser(log: Log, scope: Scope, query: string,
      similarity: (string, string) -> real, now: int, kinds: seq<string>, limit: int, id: int, other: int)
    requires query != "" && id in RecalledFor(log, scope, query, similarity, now, kinds, limit)
    requires other in OfWindow(log, scope, now, kinds)
    requires other !in RecalledFor(log, scope, query, similarity, now, kinds, limit)
    ensures 1 <= id <= |log| && 1 <= other <= |log|
    ensures similarity(query, log[id - 1].statement) >= similarity(query, log[other - 1].statement)
  {
    hide *;
    RankedRecall(log, scope, query, similarity, now, kinds, limit);
    InTheLog(log, scope, now, kinds, id);
    InTheLog(log, scope, now, kinds, other);
    OutrankedScores(log, query, similarity, id, other);
  }

  lemma {:induction false} OutrankedScores(log: Log, query: string, similarity: (string, string) -> real, id: int,
                                           other: int)
    requires 1 <= id <= |log| && 1 <= other <= |log| && Outranks(ScoreOf(log, query, similarity), id, other)
    ensures similarity(query, log[id - 1].statement) >= similarity(query, log[other - 1].statement)
  {
  }

  lemma {:induction false} InTheLog(log: Log, scope: Scope, now: int, kinds: seq<string>, id: int)
    requires id in OfWindow(log, scope, now, kinds)
    ensures 1 <= id <= |log| && StandingId(log, id, scope, now) && OfKind(log, id, kinds)
  {
    hide Window;
  }
}
