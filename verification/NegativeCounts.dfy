/** One recording's effect on a goal's standing failures, and the runs a goal's scope can see. */
module NegativeCounts {
  import opened Spine
  import opened SpineLaws
  import opened Episodes
  import opened Negative
  import opened Ledger
  import Text

  predicate OpenFailure(log: Log, id: int, scope: Scope) {
    1 <= id <= |log| && Open(log[id - 1], scope, FAILURE)
  }

  predicate Reported(log: Log, id: int, scope: Scope, mechanism: string) {
    OpenFailure(log, id, scope) && SameMechanism(log[id - 1].value, mechanism)
  }

  /** The standing failures of one mechanism in one scope. */
  function Reports(log: Log, scope: Scope, mechanism: string): set<int> {
    set id | 1 <= id <= |log| && Reported(log, id, scope, mechanism)
  }

  /** `n` recordings are on the books: none standing for none, else one row whose count is n. */
  ghost predicate Tallies(log: Log, scope: Scope, mechanism: string, n: nat) {
    if n == 0 then Reports(log, scope, mechanism) == {}
    else exists id :: Reports(log, scope, mechanism) == {id} && Reproductions(log[id - 1].value) == n
  }

  /** Failures are written only by their own module: observed, never expiring. */
  ghost predicate OwnFailures(log: Log) {
    forall i :: 0 <= i < |log| && log[i].memoryType == FAILURE ==>
      log[i].state == "observed" && log[i].validUntil.None? && log[i].value.Failure?
  }

  /** The standing failures of a scope, newest first. */
  function Failures(log: Log, scope: Scope): (ids: seq<int>)
    ensures forall id :: id in ids <==> OpenFailure(log, id, scope)
    ensures Descending(ids)
  {
    if log == [] then [] else
    var older := Failures(log[..|log| - 1], scope);
    DescendingFirst(|log|, older);
    if Open(log[|log| - 1], scope, FAILURE) then [|log|] + older else older
  }

  /** The window of standing rows holds the newest `limit` failures: none of them has 200 newer rows
      standing beside it. */
  predicate InView(log: Log, scope: Scope, now: int, limit: int) {
    forall id <- Take(Failures(log, scope), limit) :: id in Window(log, scope, now)
  }

  /** The recall holds every standing failure of the scope. */
  predicate Room(log: Log, scope: Scope, now: int) {
    |Failures(log, scope)| <= RECALLED_FAILURES && InView(log, scope, now, RECALLED_FAILURES)
  }

  /** Of two descending lists the first holds members of the second, and with any of them every greater
      one. */
  ghost predicate Tops(front: seq<int>, whole: seq<int>) {
    && Descending(front) && Descending(whole) && (forall x <- front :: x in whole)
    && (forall x <- front, y <- whole :: y > x ==> y in front)
  }

  lemma {:induction false} TailTops(front: seq<int>, whole: seq<int>)
    requires Tops(front, whole) && front != []
    ensures whole != [] && whole[0] == front[0] && Tops(front[1..], whole[1..])
  {
    assert front[0] in front && whole[0] in whole;
    TailIsSmaller(front);
    TailIsSmaller(whole);
    hide Descending;
  }

  /** Such a list is the front of the other. */
  lemma {:induction false} FrontOfDescending(front: seq<int>, whole: seq<int>)
    requires Tops(front, whole)
    ensures front <= whole
  {
    if front != [] {
      TailTops(front, whole);
      hide Tops;
      FrontOfDescending(front[1..], whole[1..]);
      assert front == [front[0]] + front[1..] && whole == [whole[0]] + whole[1..];
    }
  }

  lemma {:induction false} SameDescending(a: seq<int>, b: seq<int>)
    requires Descending(a) && Descending(b) && forall x :: x in a <==> x in b
    ensures a == b
  {
    FrontOfDescending(a, b);
    FrontOfDescending(b, a);
  }

  /** With the newest failures in view, recall lists exactly them. */
  lemma {:induction false} RecallIsFailures(log: Log, scope: Scope, now: int, limit: int)
    requires OwnFailures(log) && InView(log, scope, now, limit)
    ensures Recalled(log, scope, now, [FAILURE], limit) == Take(Failures(log, scope), limit)
  {
    var window, ids := Window(log, scope, now), Failures(log, scope);
    var kept := KeepKinds(log, window, [FAILURE]);
    KeptIsFront(log, scope, now);
    assert Recalled(log, scope, now, [FAILURE], limit) == Take(kept, limit);
    assert forall id <- Take(ids, limit) :: id in kept by {
      forall id | id in Take(ids, limit) ensures id in kept {
        assert id in ids && OpenFailure(log, id, scope);
      }
    }
    hide *;
    FrontHoldsTheFirst(kept, ids, limit);
  }

  lemma {:induction false} KeptIsFront(log: Log, scope: Scope, now: int)
    requires OwnFailures(log)
    ensures KeepKinds(log, Window(log, scope, now), [FAILURE]) <= Failures(log, scope)
  {
    var window, ids := Window(log, scope, now), Failures(log, scope);
    var kept := KeepKinds(log, window, [FAILURE]);
    forall x, y | x in kept && y in ids && y > x ensures y in kept {
      assert StandingId(log, y, scope, now);
      WindowKeepsNewer(log, scope, now, x, y);
    }
    hide Window, OwnFailures;
    FrontOfDescending(kept, ids);
  }

  lemma {:induction false} FrontHoldsTheFirst(front: seq<int>, whole: seq<int>, limit: int)
    requires front <= whole && Descending(whole) && forall x <- Take(whole, limit) :: x in front
    ensures Take(front, limit) == Take(whole, limit)
  {
    var first := Take(whole, limit);
    if first != [] {
      var last := |first| - 1;
      assert first[last] in first;
      var i :| 0 <= i < |front| && front[i] == first[last];
      assert whole[i] == first[last] == whole[last];
    }
  }

  lemma {:induction false} RoomRecallsAll(log: Log, scope: Scope, now: int)
    requires OwnFailures(log) && Room(log, scope, now)
    ensures forall id :: OpenFailure(log, id, scope) <==> id in Recalled(log, scope, now, [FAILURE], RECALLED_FAILURES)
  {
    RecallIsFailures(log, scope, now, RECALLED_FAILURES);
    hide Recalled, InView, OwnFailures, OpenFailure;
  }

  lemma {:induction false} PriorIsReports(log: Log, tenant: string, subject: string, mechanism: string, now: int)
    requires OwnFailures(log) && Room(log, ScopeOf(tenant, subject), now)
    ensures Elements(Prior(log, tenant, subject, mechanism, now)) == Reports(log, ScopeOf(tenant, subject), mechanism)
  {
    RoomRecallsAll(log, ScopeOf(tenant, subject), now);
    hide Recalled, ScopeOf, Room, OwnFailures;
    forall id ensures id in Elements(Prior(log, tenant, subject, mechanism, now))
      <==> id in Reports(log, ScopeOf(tenant, subject), mechanism)
    {
    }
  }

  lemma {:induction false} NoElements(ids: seq<int>)
    ensures Elements(ids) == {} <==> ids == []
  {
    if ids != [] {
      assert ids[0] in Elements(ids);
    }
  }

  lemma {:induction false} CountFromTally(log: Log, ids: seq<int>, scope: Scope, mechanism: string, n: nat)
    requires Tallies(log, scope, mechanism, n) && Elements(ids) == Reports(log, scope, mechanism)
    ensures MostReproduced(log, ids) == n
  {
    if n == 0 {
      NoElements(ids);
    } else {
      var id :| Reports(log, scope, mechanism) == {id} && Reproductions(log[id - 1].value) == n;
      assert id in Elements(ids);
      assert Reported(log, id, scope, mechanism);
      forall other | other in ids ensures other == id {
        assert other in Elements(ids);
      }
    }
  }

  /** The log after a recording, row by row: the prior records stamped, then the two new rows. */
  ghost predicate IsRecording(log: Log, log': Log, prior: set<int>, scope: Scope, mechanism: string) {
    && |log'| == |log| + 2
    && (forall i :: 0 <= i < |log| ==> log'[i] == if i + 1 in prior then StampRow(log[i], |log| + 1) else log[i])
    && Open(log'[|log|], scope, FAILURE) && SameMechanism(log'[|log|].value, mechanism)
    && log'[|log| + 1].scope != scope
  }

  lemma {:induction false} OwnReports(log: Log, log': Log, scope: Scope, mechanism: string)
    requires IsRecording(log, log', Reports(log, scope, mechanism), scope, mechanism)
    ensures Reports(log', scope, mechanism) == {|log| + 1}
  {
    forall id | 1 <= id <= |log'| ensures Reported(log', id, scope, mechanism) <==> id == |log| + 1 {
      if id <= |log| {
        assert Reported(log, id, scope, mechanism) <==> id in Reports(log, scope, mechanism);
      }
    }
  }

  lemma {:induction false} OtherReports(log: Log, log': Log, scope: Scope, own: string, mechanism: string)
    requires own != mechanism && IsRecording(log, log', Reports(log, scope, own), scope, own)
    ensures Reports(log', scope, mechanism) == Reports(log, scope, mechanism)
    ensures forall id <- Reports(log, scope, mechanism) :: log'[id - 1] == log[id - 1]
  {
    forall id | 1 <= id <= |log'| ensures Reported(log', id, scope, mechanism) <==> id in Reports(log, scope, mechanism)
    {
      if id <= |log| {
        assert Reported(log, id, scope, own) <==> id in Reports(log, scope, own);
      }
    }
  }

  lemma {:induction false} RecordingIsRecording(log: Log, tenant: string, subject: string, f: Report, now: int)
    requires OwnFailures(log) && Room(log, ScopeOf(tenant, subject), now)
    requires TwinScope(tenant, MechanismOf(f.problem)) != ScopeOf(tenant, subject)
    ensures IsRecording(log, FailureRecorded(log, tenant, subject, f, now),
      Reports(log, ScopeOf(tenant, subject), MechanismOf(f.problem)), ScopeOf(tenant, subject), MechanismOf(f.problem))
  {
    PriorIsReports(log, tenant, subject, MechanismOf(f.problem), now);
    RecordedRows(log, tenant, subject, f, now);
    RecordedPast(log, tenant, subject, f, now);
    hide FailureRecorded, ReportValue, MechanismOf, ScopeOf, Prior, Reports;
  }

  lemma {:induction false} RecordingKeepsOwnFailures(log: Log, tenant: string, subject: string, f: Report, now: int)
    requires OwnFailures(log)
    ensures OwnFailures(FailureRecorded(log, tenant, subject, f, now))
  {
    RecordedRows(log, tenant, subject, f, now);
    RecordedPast(log, tenant, subject, f, now);
    hide FailureRecorded, MechanismOf, ScopeOf, Prior, ReportValue;
  }

  /** A goal's scope is its failures' twin scope only for a subject that spells out a mechanism. */
  lemma {:induction false} TwinScopeApart(tenant: string, subject: string, mechanism: string)
    ensures TwinScope(tenant, mechanism) == ScopeOf(tenant, subject) <==> subject == "mechanism:" + mechanism
  {
    var key := "mechanism:" + mechanism;
    assert multiset([tenant, key]) - multiset{tenant} == multiset{key};
    assert multiset([tenant, subject]) - multiset{tenant} == multiset{subject};
    if TwinScope(tenant, mechanism) == ScopeOf(tenant, subject) {
      assert key in multiset{subject};
    }
  }

  /** Recording a failure raises its own mechanism's tally by one and leaves every other alone. */
  lemma {:induction false} RecordingTallies(log: Log, tenant: string, subject: string, f: Report, now: int,
                                            mechanism: string, n: nat)
    requires OwnFailures(log) && Room(log, ScopeOf(tenant, subject), now)
    requires Tallies(log, ScopeOf(tenant, subject), mechanism, n)
    requires subject != "mechanism:" + MechanismOf(f.problem)
    ensures Tallies(FailureRecorded(log, tenant, subject, f, now), ScopeOf(tenant, subject), mechanism,
      if mechanism == MechanismOf(f.problem) then n + 1 else n)
  {
    var scope, own := ScopeOf(tenant, subject), MechanismOf(f.problem);
    var log' := FailureRecorded(log, tenant, subject, f, now);
    TwinScopeApart(tenant, subject, own);
    RecordingIsRecording(log, tenant, subject, f, now);
    hide ScopeOf, MechanismOf, Reports, Room;
    if mechanism == own {
      OwnCount(log, tenant, subject, f, now, n);
      hide FailureRecorded;
      OwnReports(log, log', scope, own);
    } else {
      hide FailureRecorded;
      OtherReports(log, log', scope, own, mechanism);
    }
  }

  lemma {:induction false} OwnCount(log: Log, tenant: string, subject: string, f: Report, now: int, n: nat)
    requires OwnFailures(log) && Room(log, ScopeOf(tenant, subject), now)
    requires Tallies(log, ScopeOf(tenant, subject), MechanismOf(f.problem), n)
    ensures var log' := FailureRecorded(log, tenant, subject, f, now);
      |log'| == |log| + 2 && Reproductions(log'[|log|].value) == n + 1
  {
    var scope, own := ScopeOf(tenant, subject), MechanismOf(f.problem);
    PriorIsReports(log, tenant, subject, own, now);
    CountFromTally(log, Prior(log, tenant, subject, own, now), scope, own, n);
    RecordedRows(log, tenant, subject, f, now);
    hide FailureRecorded, ScopeOf, MechanismOf, Prior, Reports, Room;
  }

  /** What a recording does to the rows already there. */
  lemma {:induction false} RecordedPast(log: Log, tenant: string, subject: string, f: Report, now: int)
    ensures var log' := FailureRecorded(log, tenant, subject, f, now);
      var prior := Elements(Prior(log, tenant, subject, MechanismOf(f.problem), now));
      forall i :: 0 <= i < |log| ==> log'[i] == if i + 1 in prior then StampRow(log[i], |log| + 1) else log[i]
  {
    hide MechanismOf, Prior, ReportValue;
  }

  // ---- Whole runs ----

  /** What can happen to the log, seen from one goal's scope: its own failures, failures of other
      goals, its publication, and anything that leaves failures alone. */
  datatype Happening =
    | Failed(report: Report, now: int)
    | FailedElsewhere(tenant: string, subject: string, report: Report, now: int)
    | Published(attempt: Attempt, id: nat, provenance: seq<string>)
    | Otherwise(write: Write)

  function Then(log: Log, tenant: string, subject: string, h: Happening): Log {
    match h
    case Failed(f, now) => FailureRecorded(log, tenant, subject, f, now)
    case FailedElsewhere(t, s, f, now) => FailureRecorded(log, t, s, f, now)
    case Published(a, id, provenance) => Bridged(log, a, id, provenance)
    case Otherwise(w) => Apply(log, w)
  }

  predicate LeavesFailures(log: Log, w: Write, scope: Scope) {
    match w
    case Admission(r, supersedes) =>
      r.memoryType != FAILURE && forall id <- supersedes :: id <= |log| && !OpenFailure(log, id, scope)
    case Closing(closed, memoryType) => memoryType != FAILURE || closed != scope
  }

  predicate Fits(log: Log, tenant: string, subject: string, h: Happening) {
    var scope := ScopeOf(tenant, subject);
    match h
    case Failed(f, now) =>
      InView(log, scope, now, RECALLED_FAILURES) && subject != "mechanism:" + MechanismOf(f.problem)
    case FailedElsewhere(t, s, f, _) => ScopeOf(t, s) != scope && TwinScope(t, MechanismOf(f.problem)) != scope
    case Published(a, _, _) => a.status == PUBLISHED && ScopeOf(a.tenant, a.goalKey) == scope
    case Otherwise(w) => LeavesFailures(log, w, scope)
  }

  /** Recordings of a mechanism since the last publish. */
  function Recordings(hs: seq<Happening>, mechanism: string): nat {
    if hs == [] then 0 else
    var h, before := hs[|hs| - 1], Recordings(hs[..|hs| - 1], mechanism);
    match h
    case Failed(f, _) => if MechanismOf(f.problem) == mechanism then before + 1 else before
    case Published(_, _, _) => 0
    case _ => before
  }

  ghost predicate Runs(hs: seq<Happening>, tenant: string, subject: string, log: Log)
    decreases |hs|
  {
    if hs == [] then log == []
    else exists before :: LastStep(hs, tenant, subject, before, log) && Runs(hs[..|hs| - 1], tenant, subject, before)
  }

  predicate LastStep(hs: seq<Happening>, tenant: string, subject: string, before: Log, log: Log) {
    hs != [] && Fits(before, tenant, subject, hs[|hs| - 1]) && log == Then(before, tenant, subject, hs[|hs| - 1])
  }

  /** A step that neither adds, stamps nor reopens a failure of the scope keeps its tallies. */
  lemma {:induction false} UntouchedTallies(log: Log, log': Log, scope: Scope, mechanism: string, n: nat)
    requires Tallies(log, scope, mechanism, n) && |log| <= |log'|
    requires forall id :: OpenFailure(log', id, scope) <==> OpenFailure(log, id, scope)
    requires forall id :: OpenFailure(log, id, scope) ==> log'[id - 1] == log[id - 1]
    ensures Tallies(log', scope, mechanism, n)
  {
    forall id ensures Reported(log', id, scope, mechanism) <==> Reported(log, id, scope, mechanism) {
      assert OpenFailure(log', id, scope) <==> OpenFailure(log, id, scope);
    }
    assert Reports(log', scope, mechanism) == Reports(log, scope, mechanism);
    if n > 0 {
      var id :| Reports(log, scope, mechanism) == {id} && Reproductions(log[id - 1].value) == n;
      assert id in Reports(log, scope, mechanism);
    }
  }

  lemma {:induction false} ElsewhereIsUntouched(log: Log, tenant: string, subject: string, f: Report, now: int,
                                                scope: Scope)
    requires ScopeOf(tenant, subject) != scope && TwinScope(tenant, MechanismOf(f.problem)) != scope
    ensures var log' := FailureRecorded(log, tenant, subject, f, now);
      && |log'| == |log| + 2 && log'[|log|].scope != scope && log'[|log| + 1].scope != scope
      && forall i :: 0 <= i < |log| ==> log'[i].scope == log[i].scope && (log[i].scope == scope ==> log'[i] == log[i])
  {
    RecordedRows(log, tenant, subject, f, now);
    RecordedPast(log, tenant, subject, f, now);
    var prior := Prior(log, tenant, subject, MechanismOf(f.problem), now);
    assert forall id <- prior :: StandingId(log, id, ScopeOf(tenant, subject), now);
    hide FailureRecorded, Prior, MechanismOf, ScopeOf, ReportValue;
  }

  lemma {:induction false} PublishedTallies(log: Log, a: Attempt, id: nat, provenance: seq<string>, mechanism: string)
    requires a.status == PUBLISHED
    ensures Tallies(Bridged(log, a, id, provenance), ScopeOf(a.tenant, a.goalKey), mechanism, 0)
  {
    PublishClosesFailures(log, a, id, provenance);
    hide Bridged, ScopeOf;
    var log', scope := Bridged(log, a, id, provenance), ScopeOf(a.tenant, a.goalKey);
    forall id ensures !OpenFailure(log', id, scope) {
    }
  }

  lemma {:induction false} BridgeKeepsOwnFailures(log: Log, a: Attempt, id: nat, provenance: seq<string>)
    requires OwnFailures(log)
    ensures OwnFailures(Bridged(log, a, id, provenance))
  {
    hide ScopeOf, Text.Strip, CoveredIds;
  }

  lemma {:induction false} StepKeepsOwnFailures(log: Log, tenant: string, subject: string, h: Happening)
    requires OwnFailures(log) && Fits(log, tenant, subject, h)
    ensures OwnFailures(Then(log, tenant, subject, h))
  {
    hide ScopeOf, MechanismOf, InView, FailureRecorded;
    match h
    case Failed(f, now) => RecordingKeepsOwnFailures(log, tenant, subject, f, now);
    case FailedElsewhere(t, s, f, now) => RecordingKeepsOwnFailures(log, t, s, f, now);
    case Published(a, id, provenance) => BridgeKeepsOwnFailures(log, a, id, provenance);
    case Otherwise(_) =>
  }

  lemma {:induction false} StepTallies(log: Log, tenant: string, subject: string, hs: seq<Happening>, mechanism: string)
    requires hs != [] && OwnFailures(log) && Fits(log, tenant, subject, hs[|hs| - 1])
    requires Tallies(log, ScopeOf(tenant, subject), mechanism, Recordings(hs[..|hs| - 1], mechanism))
    requires hs[|hs| - 1].Failed? ==> |Failures(log, ScopeOf(tenant, subject))| <= RECALLED_FAILURES
    ensures Tallies(Then(log, tenant, subject, hs[|hs| - 1]), ScopeOf(tenant, subject), mechanism,
                    Recordings(hs, mechanism))
  {
    hide ScopeOf, MechanismOf, Tallies, OwnFailures, InView, FailureRecorded, CloseScope, AdmitTo;
    var n := Recordings(hs[..|hs| - 1], mechanism);
    match hs[|hs| - 1]
    case Failed(f, now) => RecordingTallies(log, tenant, subject, f, now, mechanism, n);
    case FailedElsewhere(t, s, f, now) =>
      ElsewhereIsUntouched(log, t, s, f, now, ScopeOf(tenant, subject));
      UntouchedTallies(log, FailureRecorded(log, t, s, f, now), ScopeOf(tenant, subject), mechanism, n);
    case Published(a, id, provenance) => PublishedTallies(log, a, id, provenance, mechanism);
    case Otherwise(w) => OtherwiseTallies(log, w, ScopeOf(tenant, subject), mechanism, n);
  }

  lemma {:induction false} OtherwiseTallies(log: Log, w: Write, scope: Scope, mechanism: string, n: nat)
    requires LeavesFailures(log, w, scope) && Tallies(log, scope, mechanism, n)
    ensures Tallies(Apply(log, w), scope, mechanism, n)
  {
    hide Tallies;
    UntouchedTallies(log, Apply(log, w), scope, mechanism, n);
  }

  /** Right after a publish is bridged to the spine nothing blocks its goal. */
  lemma {:induction false} PublishClearsTheCheck(log: Log, a: Attempt, id: nat, provenance: seq<string>,
                                                 context: Pairs, now: int)
    requires a.status == PUBLISHED
    ensures Checked(Bridged(log, a, id, provenance), a.tenant, a.goalKey, context, now) == CLEAR
  {
    var log', scope := Bridged(log, a, id, provenance), ScopeOf(a.tenant, a.goalKey);
    PublishClosesFailures(log, a, id, provenance);
    hide Bridged, Recalled, ScopeOf;
    NoneOpenNoneRecalled(log', scope, now, FAILURE, CHECKED_FAILURES);
  }
}
