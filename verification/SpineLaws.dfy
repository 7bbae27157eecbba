/** The structural laws of the spine, over every run of its writers. */
module SpineLaws {
  import opened Occurrences
  import opened Spine
  import Text
  import TextLaws

  /** History is never erased: rows stay where they are, and the only change a row ever sees is
      its one correction stamp. */
  ghost predicate Extends(log: Log, log': Log) {
    && |log| <= |log'|
    && forall i :: 0 <= i < |log| ==>
         log'[i] == log[i]
         || (log[i].supersededBy.None? && log'[i].supersededBy.Some?
             && log'[i] == log[i].(supersededBy := log'[i].supersededBy))
  }

  /** Every correction points at a newer row. */
  ghost predicate PointsForward(log: Log) {
    forall i :: 0 <= i < |log| && log[i].supersededBy.Some? ==> i + 1 < log[i].supersededBy.value <= |log|
  }

  lemma {:induction false} ExtendsTransitive(a: Log, b: Log, c: Log)
    requires Extends(a, b) && Extends(b, c)
    ensures Extends(a, c)
  {
  }

  lemma {:induction false} AdmitExtends(log: Log, r: Record, supersedes: set<int>)
    ensures Extends(log, AdmitTo(log, r, supersedes))
  {
  }

  /** An admission keeps corrections pointing forward exactly when the new row is not asked to
      supersede itself. */
  lemma {:induction false} AdmitPointsForward(log: Log, r: Record, supersedes: set<int>)
    requires PointsForward(log)
    ensures PointsForward(AdmitTo(log, r, supersedes)) <==> |log| + 1 !in supersedes
  {
    var log' := AdmitTo(log, r, supersedes);
    if |log| + 1 in supersedes {
      assert log'[|log|].supersededBy == Some(|log| + 1);
    }
  }

  lemma {:induction false} CloseExtends(log: Log, scope: Scope, memoryType: string, stamp: int)
    ensures Extends(log, CloseScope(log, scope, memoryType, stamp))
  {
  }

  /** Closing a scope keeps corrections pointing forward exactly when it is closed by a row of the
      log newer than everything it covers. */
  lemma {:induction false} ClosePointsForward(log: Log, scope: Scope, memoryType: string, stamp: int)
    requires PointsForward(log)
    ensures PointsForward(CloseScope(log, scope, memoryType, stamp))
      <==> forall id <- CoveredIds(log, scope, memoryType, stamp) :: id < stamp <= |log|
  {
    var log' := CloseScope(log, scope, memoryType, stamp);
    if id :| id in CoveredIds(log, scope, memoryType, stamp) && !(id < stamp <= |log|) {
      assert log'[id - 1].supersededBy == Some(stamp);
    } else {
      forall i | 0 <= i < |log'| && log'[i].supersededBy.Some?
        ensures i + 1 < log'[i].supersededBy.value <= |log'|
      {
        if i + 1 in CoveredIds(log, scope, memoryType, stamp) {
          assert log'[i].supersededBy == Some(stamp);
        } else {
          assert log'[i] == log[i];
        }
      }
    }
  }

  /** Following corrections from any row ends, at a row that stands corrected by nothing. */
  function CurrentVersion(log: Log, id: int): (end: int)
    requires PointsForward(log) && 1 <= id <= |log|
    ensures id <= end <= |log| && log[end - 1].supersededBy.None?
    decreases |log| - id
  {
    if log[id - 1].supersededBy.None? then id
    else CurrentVersion(log, log[id - 1].supersededBy.value)
  }

  /** A corrected row is never recalled again, from any later log, under any query. */
  lemma {:induction false} SupersededStaysOut(log: Log, later: Log, id: int, scope: Scope, now: int,
                                              kinds: seq<string>, limit: int)
    requires Extends(log, later) && 1 <= id <= |log| && log[id - 1].supersededBy.Some?
    ensures id !in Recalled(later, scope, now, kinds, limit)
    ensures later[id - 1].supersededBy == log[id - 1].supersededBy
  {
  }

  // ---- Whole runs ----

  /** What a writer may do to the log. Corrections name rows already in it; a scope is closed by
      the row just admitted. */
  datatype Write =
    | Admission(record: Record, supersedes: set<int>)
    | Closing(scope: Scope, memoryType: string)

  predicate Allowed(log: Log, w: Write) {
    match w
    case Admission(r, supersedes) => Objection(r).None? && forall id <- supersedes :: id <= |log|
    case Closing(_, _) => log != []
  }

  function Apply(log: Log, w: Write): Log {
    match w
    case Admission(r, supersedes) => AdmitTo(log, r, supersedes)
    case Closing(scope, memoryType) => CloseScope(log, scope, memoryType, |log|)
  }

  ghost predicate Reachable(from: Log, writes: seq<Write>, to: Log)
    decreases |writes|
  {
    if writes == [] then from == to
    else Allowed(from, writes[0]) && Reachable(Apply(from, writes[0]), writes[1..], to)
  }

  lemma {:induction false} WriteKeepsLaws(log: Log, w: Write)
    requires PointsForward(log) && Allowed(log, w)
    ensures Extends(log, Apply(log, w)) && PointsForward(Apply(log, w))
  {
    match w
    case Admission(r, supersedes) =>
      AdmitExtends(log, r, supersedes);
      AdmitPointsForward(log, r, supersedes);
    case Closing(scope, memoryType) =>
      CloseExtends(log, scope, memoryType, |log|);
      forall id | id in CoveredIds(log, scope, memoryType, |log|) ensures id < |log| {
        assert Covered(log, id, scope, memoryType, |log|);
      }
      ClosePointsForward(log, scope, memoryType, |log|);
  }

  /** Over any run of the writers the past is only ever stamped, every correction leads forward,
      and so following corrections from any row of any earlier log ends in a standing version. */
  lemma {:induction false} RunKeepsLaws(from: Log, writes: seq<Write>, to: Log)
    requires PointsForward(from) && Reachable(from, writes, to)
    ensures Extends(from, to) && PointsForward(to)
    decreases |writes|
  {
    if writes != [] {
      var next := Apply(from, writes[0]);
      WriteKeepsLaws(from, writes[0]);
      RunKeepsLaws(next, writes[1..], to);
      ExtendsTransitive(from, next, to);
    }
  }

  // ---- Open rows of one kind in one scope ----

  predicate Open(row: Row, scope: Scope, memoryType: string) {
    row.scope == scope && row.memoryType == memoryType && row.supersededBy.None?
  }

  predicate NoneOpen(log: Log, scope: Scope, memoryType: string) {
    forall i :: 0 <= i < |log| ==> !Open(log[i], scope, memoryType)
  }

  /** Closing by the newest row, itself of another kind, leaves nothing open, and touches no row
      of another kind or scope. */
  lemma {:induction false} ClosingClosesAll(log: Log, scope: Scope, memoryType: string)
    requires log != [] && log[|log| - 1].memoryType != memoryType
    ensures var log' := CloseScope(log, scope, memoryType, |log|);
      && NoneOpen(log', scope, memoryType)
      && forall i :: 0 <= i < |log| && !Open(log[i], scope, memoryType) ==> log'[i] == log[i]
  {
    var log' := CloseScope(log, scope, memoryType, |log|);
    forall i | 0 <= i < |log| ensures !Open(log'[i], scope, memoryType) {
      if Open(log[i], scope, memoryType) {
        assert Covered(log, i + 1, scope, memoryType, |log|);
      }
    }
  }

  /** With nothing of a kind open in a scope, nothing of that kind is ever recalled from it. */
  lemma {:induction false} NoneOpenNoneRecalled(log: Log, scope: Scope, now: int, kind: string, limit: int)
    ensures Recalled(log, scope, now, [kind], limit) == [] || !NoneOpen(log, scope, kind)
  {
    hide Window;
    var found := Recalled(log, scope, now, [kind], limit);
    if found != [] {
      assert Open(log[found[0] - 1], scope, kind);
    }
  }

  // ---- What is admitted, and what stands ----

  /** A record is admitted exactly if its state is one of the five, an evidence state names where it was
      seen, its statement has something to read, and it is scoped; the objections come in that order. */
  lemma {:induction false} AdmittedExactly(r: Record)
    ensures var known := r.state in {"proposed", "observed", "reproduced", "verified", "rejected"};
      var earned := r.state in {"proposed", "rejected"} || r.provenance != [];
      var says := exists c <- r.statement :: !Text.IsSpace(c);
      && (Objection(r).None? <==> known && earned && says && r.scopeIds != [])
      && (Objection(r) == Some(UnknownState) <==> !known)
      && (Objection(r) == Some(EvidenceWithoutProvenance) <==> known && !earned)
      && (Objection(r) == Some(NoStatement) <==> known && earned && !says)
  {
    TextLaws.StripsToNothing(r.statement);
    hide Text.Strip;
  }

  /** A record just admitted stands in its own scope, whatever the order of its ids, and in no other; unless
      it is a rejection, for ever or until it expires. */
  lemma {:induction false} AdmittedStands(log: Log, r: Record, supersedes: set<int>, scopeIds: seq<string>, now: int)
    requires |log| + 1 !in supersedes
    ensures StandingId(AdmitTo(log, r, supersedes), |log| + 1, multiset(scopeIds), now)
      <==> multiset(scopeIds) == multiset(r.scopeIds) && r.state != "rejected"
           && (r.validUntil.Some? ==> now < r.validUntil.value)
    ensures var row := AdmitTo(log, r, supersedes)[|log|];
      && row.memoryType == r.memoryType && row.statement == Text.Strip(r.statement) && row.value == r.value
      && row.provenance == r.provenance && row.seat == r.seat && row.state == r.state
  {
    hide Text.Strip;
  }

  /** And it never stands once corrected. */
  lemma {:induction false} CorrectedNeverStands(log: Log, id: int, scope: Scope, now: int)
    requires 1 <= id <= |log| && log[id - 1].supersededBy.Some?
    ensures !StandingId(log, id, scope, now)
  {
  }
}
