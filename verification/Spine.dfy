/** The atomic memory spine: one append-only log of rows with write-once supersession, and the
    one reader over it. A row's id is its position in the log, counted from 1. */
module Spine {
  import opened Occurrences
  import Text

  const WINDOW := 200
  const VERIFICATION_STATES := ["proposed", "observed", "reproduced", "verified", "rejected"]
  const EVIDENCE_STATES := ["observed", "reproduced", "verified"]

  /** What a record asserts, by its kind. */
  datatype Value =
    | Nothing
    | Episode(kind: string, objective: string, outcome: string, unresolved: seq<string>, decisions: seq<string>)
    | Summary(latestObjective: string, latestOutcome: string, open: seq<string>, decided: seq<string>,
              episodeCount: nat, newestEpisode: int)
    | Failure(mechanism: string, failureMode: string, applicability: seq<(string, string)>,
              reproductions: nat, reopenConditions: seq<string>)
    | Proposal(agent: string, position: string)
    | Decision(resolvedBy: string, winner: int, winnerAgent: string)
    | Skill(steps: seq<string>, support: nat, contexts: set<string>)
    | Verdict(verdict: string, verifier: string, producer: string, concern: string)
    | Baton(objective: string, fromAgent: string, stateRefs: seq<string>, completedRefs: seq<string>,
            evidence: seq<string>, unresolved: seq<string>, acceptance: seq<string>)

  /** A record offered for admission. */
  datatype Record = Record(memoryType: string, statement: string, scopeIds: seq<string>, state: string,
                           provenance: seq<string>, value: Value, seat: string, validUntil: Option<int>)

  /** Scopes are compared as sorted lists, that is, as multisets of their ids. */
  type Scope = multiset<string>

  datatype Row = Row(memoryType: string, statement: string, scope: Scope, state: string,
                     provenance: seq<string>, value: Value, seat: string, validUntil: Option<int>,
                     supersededBy: Option<int>)

  type Log = seq<Row>

  datatype Refusal = UnknownState | EvidenceWithoutProvenance | NoStatement | NoScope

  datatype Result<+T> = Admitted(value: T) | Refused(reason: Refusal)

  /** The admission law, in the order it is applied. */
  function Objection(r: Record): Option<Refusal> {
    if r.state !in VERIFICATION_STATES then Some(UnknownState)
    else if r.state in EVIDENCE_STATES && r.provenance == [] then Some(EvidenceWithoutProvenance)
    else if Text.Strip(r.statement) == "" then Some(NoStatement)
    else if r.scopeIds == [] then Some(NoScope)
    else None
  }

  function NewRow(r: Record): Row {
    Row(r.memoryType, Text.Strip(r.statement), multiset(r.scopeIds), r.state, r.provenance, r.value,
        r.seat, r.validUntil, None)
  }

  /** Correction is write-once: a stamped row keeps its first stamp. */
  function StampRow(row: Row, stamp: int): Row {
    if row.supersededBy.None? then row.(supersededBy := Some(stamp)) else row
  }

  function Stamped(log: Log, ids: set<int>, stamp: int): (r: Log)
    ensures |r| == |log|
    ensures forall i :: 0 <= i < |log| ==> r[i] == if i + 1 in ids then StampRow(log[i], stamp) else log[i]
  {
    seq(|log|, i requires 0 <= i < |log| => if i + 1 in ids then StampRow(log[i], stamp) else log[i])
  }

  function Elements(s: seq<int>): set<int> {
    set x | x in s
  }

  /** The log after an admission: the row at the end, the corrected rows stamped with its id. */
  function AdmitTo(log: Log, r: Record, supersedes: set<int>): (log': Log)
    ensures |log'| == |log| + 1
  {
    Stamped(log + [NewRow(r)], supersedes, |log| + 1)
  }

  predicate Covered(log: Log, id: int, scope: Scope, memoryType: string, stamp: int) {
    && 1 <= id <= |log| && id != stamp
    && log[id - 1].memoryType == memoryType && log[id - 1].scope == scope && log[id - 1].supersededBy.None?
  }

  function CoveredIds(log: Log, scope: Scope, memoryType: string, stamp: int): set<int> {
    set id | 1 <= id <= |log| && Covered(log, id, scope, memoryType, stamp)
  }

  /** The log after closing the book on every open record of one type in one exact scope. */
  function CloseScope(log: Log, scope: Scope, memoryType: string, stamp: int): (log': Log)
    ensures |log'| == |log|
  {
    Stamped(log, CoveredIds(log, scope, memoryType, stamp), stamp)
  }

  // ---- The one reader ----

  predicate Standing(row: Row, scope: Scope, now: int) {
    && row.scope == scope && row.supersededBy.None? && row.state != "rejected"
    && (row.validUntil.None? || row.validUntil.value > now)
  }

  function ValueOf(log: Log, id: int): Value {
    if 1 <= id <= |log| then log[id - 1].value else Nothing
  }

  predicate StandingId(log: Log, id: int, scope: Scope, now: int) {
    1 <= id <= |log| && Standing(log[id - 1], scope, now)
  }

  ghost predicate Descending(ids: seq<int>) {
    forall i, j :: 0 <= i < j < |ids| ==> ids[i] > ids[j]
  }

  lemma {:induction false} DescendingFirst(id: int, rest: seq<int>)
    requires Descending(rest) && forall r <- rest :: r < id
    ensures Descending([id] + rest)
  {
    assert forall k :: 0 <= k < |rest| ==> rest[k] in rest;
  }

  lemma {:induction false} TailIsSmaller(ids: seq<int>)
    requires Descending(ids) && ids != []
    ensures Descending(ids[1..]) && forall x :: x in ids[1..] <==> x in ids && x != ids[0]
    ensures forall x <- ids :: x <= ids[0]
  {
    assert ids == [ids[0]] + ids[1..];
  }

  /** The standing rows of a scope, newest first. */
  function StandingIds(log: Log, scope: Scope, now: int): (ids: seq<int>)
    ensures forall id :: id in ids <==> StandingId(log, id, scope, now)
    ensures Descending(ids)
  {
    if log == [] then [] else
    var older := StandingIds(log[..|log| - 1], scope, now);
    DescendingFirst(|log|, older);
    if Standing(log[|log| - 1], scope, now) then [|log|] + older else older
  }

  function Take<T>(s: seq<T>, n: int): seq<T> {
    if n <= 0 then [] else if |s| <= n then s else s[..n]
  }

  predicate OfKind(log: Log, id: int, kinds: seq<string>) {
    kinds == [] || (1 <= id <= |log| && log[id - 1].memoryType in kinds)
  }

  function KeepKinds(log: Log, ids: seq<int>, kinds: seq<string>): (r: seq<int>)
    ensures forall id :: id in r <==> id in ids && OfKind(log, id, kinds)
    requires Descending(ids)
    ensures Descending(r)
  {
    if ids == [] then [] else
    assert ids == [ids[0]] + ids[1..];
    var rest := KeepKinds(log, ids[1..], kinds);
    DescendingFirst(ids[0], rest);
    if OfKind(log, ids[0], kinds) then [ids[0]] + rest else rest
  }

  /** The newest standing rows that the query reads before any filtering by kind. */
  function Window(log: Log, scope: Scope, now: int): (ids: seq<int>)
    ensures Descending(ids) && forall id <- ids :: StandingId(log, id, scope, now)
  {
    Take(StandingIds(log, scope, now), WINDOW)
  }

  /** What recall returns without a ranking query: the window, filtered by kind, cut to the limit. */
  function Recalled(log: Log, scope: Scope, now: int, kinds: seq<string>, limit: int): (ids: seq<int>)
    ensures forall k :: 0 <= k < |ids| ==> StandingId(log, ids[k], scope, now) && OfKind(log, ids[k], kinds)
    ensures forall id <- ids :: StandingId(log, id, scope, now) && OfKind(log, id, kinds)
  {
    var kept := KeepKinds(log, Window(log, scope, now), kinds);
    assert forall k :: 0 <= k < |kept| ==> kept[k] in kept;
    Take(KeepKinds(log, Window(log, scope, now), kinds), limit)
  }

  lemma {:induction false} WindowKeepsNewer(log: Log, scope: Scope, now: int, inside: int, id: int)
    requires inside in Window(log, scope, now) && StandingId(log, id, scope, now) && id >= inside
    ensures id in Window(log, scope, now)
  {
    var ids, window := StandingIds(log, scope, now), Window(log, scope, now);
    var i :| 0 <= i < |window| && window[i] == inside;
    var j :| 0 <= j < |ids| && ids[j] == id;
    assert ids[i] == inside;
    assert window[j] == id;
  }

  ghost predicate NewestOfKind(log: Log, id: int, scope: Scope, now: int, kind: string) {
    && id in Window(log, scope, now) && log[id - 1].memoryType == kind
    && forall other :: StandingId(log, other, scope, now) && log[other - 1].memoryType == kind ==> other <= id
  }

  /** The newest recalled row of one kind is the newest standing row of that kind anywhere in the
      scope; when none is recalled, none is in the window. */
  lemma {:induction false} RecallNewest(log: Log, scope: Scope, now: int, kind: string, limit: int)
    requires limit >= 1
    ensures var found := Recalled(log, scope, now, [kind], limit);
      if found == [] then forall id <- Window(log, scope, now) :: log[id - 1].memoryType != kind
      else NewestOfKind(log, found[0], scope, now, kind)
  {
    hide Standing, StandingIds, Window;
    var window := Window(log, scope, now);
    var kept := KeepKinds(log, window, [kind]);
    if kept == [] {
      forall id | id in window ensures log[id - 1].memoryType != kind {
        assert id !in kept;
      }
    } else {
      assert kept[0] in kept;
      forall other | StandingId(log, other, scope, now) && log[other - 1].memoryType == kind
        ensures other <= kept[0]
      {
        if kept[0] < other {
          WindowKeepsNewer(log, scope, now, kept[0], other);
        }
      }
    }
  }

  // ---- The table ----

  class MemorySpine {
    var rows: Log

    constructor ()
      ensures rows == []
    {
      rows := [];
    }

    method Admit(r: Record, supersedes: seq<int>) returns (outcome: Result<int>)
      modifies this
      ensures outcome == match Objection(r)
        case Some(reason) => Refused(reason)
        case None => Admitted(|old(rows)| + 1)
      ensures rows == if outcome.Admitted? then AdmitTo(old(rows), r, Elements(supersedes)) else old(rows)
    {
      var objection := Objection(r);
      if objection.Some? {
        return Refused(objection.value);
      }
      var added := rows + [NewRow(r)];
      var rowId := |added|;
      rows := added;
      for n := 0 to |supersedes|
        invariant rows == Stamped(added, Elements(supersedes[..n]), rowId)
      {
        assert Elements(supersedes[..n + 1]) == Elements(supersedes[..n]) + {supersedes[n]};
        var id := supersedes[n];
        if 1 <= id <= |rows| {
          rows := rows[id - 1 := StampRow(rows[id - 1], rowId)];
        }
      }
      assert supersedes[..|supersedes|] == supersedes;
      return Admitted(rowId);
    }

    method SupersedeScope(scopeIds: seq<string>, memoryType: string, stamp: int) returns (covered: nat)
      modifies this
      ensures rows == CloseScope(old(rows), multiset(scopeIds), memoryType, stamp)
      ensures covered == |CoveredIds(old(rows), multiset(scopeIds), memoryType, stamp)|
    {
      var before, scope := rows, multiset(scopeIds);
      covered := 0;
      NothingCovered(before, scope, memoryType, stamp);
      hide Stamped, CoveredUpTo, Covered, StampRow;
      for n := 0 to |before|
        invariant rows == Stamped(before, CoveredUpTo(before, n, scope, memoryType, stamp), stamp)
        invariant covered == |CoveredUpTo(before, n, scope, memoryType, stamp)|
      {
        CoverRow(before, n, scope, memoryType, stamp);
        if Covered(before, n + 1, scope, memoryType, stamp) {
          rows := rows[n := StampRow(rows[n], stamp)];
          covered := covered + 1;
        }
      }
      AllCovered(before, scope, memoryType, stamp);
    }

    function Recall(scopeIds: seq<string>, now: int, kinds: seq<string>, limit: int): seq<int>
      reads this
    {
      Recalled(rows, multiset(scopeIds), now, kinds, limit)
    }
  }

  lemma {:induction false} NothingCovered(log: Log, scope: Scope, memoryType: string, stamp: int)
    ensures CoveredUpTo(log, 0, scope, memoryType, stamp) == {} && Stamped(log, {}, stamp) == log
  {
  }

  lemma {:induction false} AllCovered(log: Log, scope: Scope, memoryType: string, stamp: int)
    ensures CoveredUpTo(log, |log|, scope, memoryType, stamp) == CoveredIds(log, scope, memoryType, stamp)
  {
    hide Covered;
  }

  /** One row more of the update, as the loop makes it. */
  lemma {:induction false} CoverRow(log: Log, n: nat, scope: Scope, memoryType: string, stamp: int)
    requires n < |log|
    ensures var ids := CoveredUpTo(log, n, scope, memoryType, stamp);
      var more := CoveredUpTo(log, n + 1, scope, memoryType, stamp);
      var before := Stamped(log, ids, stamp);
      if Covered(log, n + 1, scope, memoryType, stamp)
      then |more| == |ids| + 1 && Stamped(log, more, stamp) == before[n := StampRow(before[n], stamp)]
      else more == ids
  {
    var ids := CoveredUpTo(log, n, scope, memoryType, stamp);
    CoveredStep(log, n, scope, memoryType, stamp);
    hide Covered, CoveredUpTo;
    StampOneMore(log, ids, n + 1, stamp);
  }

  lemma {:induction false} CoveredStep(log: Log, n: nat, scope: Scope, memoryType: string, stamp: int)
    ensures CoveredUpTo(log, n + 1, scope, memoryType, stamp) == CoveredUpTo(log, n, scope, memoryType, stamp)
      + (if Covered(log, n + 1, scope, memoryType, stamp) then {n + 1} else {})
    ensures n + 1 !in CoveredUpTo(log, n, scope, memoryType, stamp)
  {
    hide Covered;
  }

  lemma {:induction false} StampOneMore(log: Log, ids: set<int>, id: int, stamp: int)
    requires 1 <= id <= |log|
    ensures var before := Stamped(log, ids, stamp);
      Stamped(log, ids + {id}, stamp) == before[id - 1 := StampRow(before[id - 1], stamp)]
  {
  }

  function CoveredUpTo(log: Log, n: nat, scope: Scope, memoryType: string, stamp: int): set<int> {
    set id | 1 <= id <= n && Covered(log, id, scope, memoryType, stamp)
  }
}
