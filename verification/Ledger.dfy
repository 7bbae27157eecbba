/** The build ledger: durable attempts, the lessons they teach, and the bridge to the spine. */
module Ledger {
  import opened Occurrences
  import opened Spine
  import opened SpineLaws
  import opened Episodes
  import opened Negative
  import Text

  const REFUSED := "refused"
  const PUBLISHED := "published"
  const DECLINED := "declined"
  const LESSON := "lesson"
  // In two pieces, because the verifier reads the first letter only off a short literal.
  const FAILED_WITH := "a previous attempt at this goal " + "failed birth verification with: "
  const LESSON_CLOSED := "lesson-closed"

  datatype Attempt = Attempt(tenant: string, goalKey: string, goal: string, status: string, script: string,
                             problem: string, nodeId: string, model: string)

  datatype Lesson = Lesson(tenant: string, goalKey: string, lesson: string, sourceAttempt: nat,
                           supersededBy: Option<nat>)

  predicate About(a: Attempt, tenant: string, goalKey: string) {
    a.tenant == tenant && a.goalKey == goalKey
  }

  predicate Teaches(a: Attempt) {
    a.status == REFUSED && a.problem != ""
  }

  predicate Decisive(a: Attempt) {
    a.status == REFUSED || a.status == PUBLISHED
  }

  function LessonText(problem: string): string {
    FAILED_WITH + Text.Cut(problem, 400)
  }

  // ---- The tables ----

  predicate OpenLesson(l: Lesson, tenant: string, goalKey: string) {
    l.tenant == tenant && l.goalKey == goalKey && l.supersededBy.None?
  }

  function Resolved(lessons: seq<Lesson>, tenant: string, goalKey: string, stamp: nat): (r: seq<Lesson>)
    ensures |r| == |lessons|
    ensures forall i :: 0 <= i < |r| ==>
      r[i] == if OpenLesson(lessons[i], tenant, goalKey) then lessons[i].(supersededBy := Some(stamp)) else lessons[i]
  {
    seq(|lessons|, i requires 0 <= i < |lessons| =>
      if OpenLesson(lessons[i], tenant, goalKey) then lessons[i].(supersededBy := Some(stamp)) else lessons[i])
  }

  /** A refusal with a problem admits a lesson; a publish supersedes the goal's open ones. */
  function LessonsAfter(lessons: seq<Lesson>, a: Attempt, id: nat): seq<Lesson> {
    if Teaches(a) then lessons + [Lesson(a.tenant, a.goalKey, LessonText(a.problem), id, None)]
    else if a.status == PUBLISHED then Resolved(lessons, a.tenant, a.goalKey, id)
    else lessons
  }

  /** The goal's open lessons, newest first. */
  function StandingLessons(lessons: seq<Lesson>, tenant: string, goalKey: string): seq<string> {
    if lessons == [] then [] else
    var last := lessons[|lessons| - 1];
    (if OpenLesson(last, tenant, goalKey) then [last.lesson] else [])
    + StandingLessons(lessons[..|lessons| - 1], tenant, goalKey)
  }

  /** `LIMIT n`: a negative limit is no limit. */
  function Limited<T>(s: seq<T>, limit: int): seq<T> {
    if limit < 0 || |s| <= limit then s else s[..limit]
  }

  function LessonsFor(lessons: seq<Lesson>, tenant: string, goalKey: string, limit: int): seq<string> {
    Limited(StandingLessons(lessons, tenant, goalKey), limit)
  }

  // ---- The same, read off the attempt history alone ----

  /** The warnings of the goal's refusals since its last publish, newest first. */
  function Warnings(attempts: seq<Attempt>, tenant: string, goalKey: string): seq<string> {
    if attempts == [] then [] else
    var last, earlier := attempts[|attempts| - 1], attempts[..|attempts| - 1];
    if !About(last, tenant, goalKey) then Warnings(earlier, tenant, goalKey)
    else if last.status == PUBLISHED then []
    else if Teaches(last) then [LessonText(last.problem)] + Warnings(earlier, tenant, goalKey)
    else Warnings(earlier, tenant, goalKey)
  }

  /** The lesson table is a faithful derived view of the history, for every goal of every tenant. */
  ghost predicate InSync(attempts: seq<Attempt>, lessons: seq<Lesson>) {
    forall tenant, goalKey :: StandingLessons(lessons, tenant, goalKey) == Warnings(attempts, tenant, goalKey)
  }

  lemma {:induction false} ResolvedLessons(lessons: seq<Lesson>, tenant: string, goalKey: string, stamp: nat,
                                           t: string, g: string)
    ensures StandingLessons(Resolved(lessons, tenant, goalKey, stamp), t, g)
      == if t == tenant && g == goalKey then [] else StandingLessons(lessons, t, g)
  {
    if lessons != [] {
      var init := lessons[..|lessons| - 1];
      ResolvedLessons(init, tenant, goalKey, stamp, t, g);
      assert Resolved(lessons, tenant, goalKey, stamp)[..|lessons| - 1] == Resolved(init, tenant, goalKey, stamp);
    }
  }

  /** Asked without a limit, the ledger's lessons for a goal are its warnings. */
  lemma {:induction false} LessonsAreWarnings(attempts: seq<Attempt>, lessons: seq<Lesson>, tenant: string,
                                              goalKey: string, limit: int)
    requires InSync(attempts, lessons)
    ensures LessonsFor(lessons, tenant, goalKey, limit) <= Warnings(attempts, tenant, goalKey)
    ensures limit < 0 ==> LessonsFor(lessons, tenant, goalKey, limit) == Warnings(attempts, tenant, goalKey)
    ensures limit >= 0 ==> |LessonsFor(lessons, tenant, goalKey, limit)| <= limit
  {
    assert StandingLessons(lessons, tenant, goalKey) == Warnings(attempts, tenant, goalKey);
  }

  /** Recording any attempt keeps every goal's lessons equal to its history's warnings. */
  lemma {:induction false} RecordingKeepsSync(attempts: seq<Attempt>, lessons: seq<Lesson>, a: Attempt)
    requires InSync(attempts, lessons)
    ensures InSync(attempts + [a], LessonsAfter(lessons, a, |attempts| + 1))
  {
    var all, id := attempts + [a], |attempts| + 1;
    var after := LessonsAfter(lessons, a, id);
    assert all[..|all| - 1] == attempts;
    forall tenant, goalKey
      ensures StandingLessons(after, tenant, goalKey) == Warnings(all, tenant, goalKey)
    {
      assert StandingLessons(lessons, tenant, goalKey) == Warnings(attempts, tenant, goalKey);
      if Teaches(a) {
        assert after[..|after| - 1] == lessons;
      } else if a.status == PUBLISHED {
        ResolvedLessons(lessons, a.tenant, a.goalKey, id, tenant, goalKey);
      }
    }
  }

  // ---- The last word per goal ----

  /** The goal's newest refusal or publish, as an attempt id; 0 for none. */
  function LastDecisive(attempts: seq<Attempt>, tenant: string, goalKey: string): (id: nat)
    ensures id <= |attempts|
    ensures id > 0 ==> About(attempts[id - 1], tenant, goalKey) && Decisive(attempts[id - 1])
    ensures forall i :: id <= i < |attempts| ==> !(About(attempts[i], tenant, goalKey) && Decisive(attempts[i]))
  {
    if attempts == [] then 0
    else if About(attempts[|attempts| - 1], tenant, goalKey) && Decisive(attempts[|attempts| - 1]) then |attempts|
    else LastDecisive(attempts[..|attempts| - 1], tenant, goalKey)
  }

  /** The most recent refused attempt, unless a later publish closed the book. */
  function LastFailure(attempts: seq<Attempt>, tenant: string, goalKey: string): Option<nat> {
    var id := LastDecisive(attempts, tenant, goalKey);
    if id == 0 || attempts[id - 1].status != REFUSED then None else Some(id)
  }

  predicate StillRefused(attempts: seq<Attempt>, tenant: string, id: int) {
    && 1 <= id <= |attempts| && attempts[id - 1].tenant == tenant && attempts[id - 1].status == REFUSED
    && LastDecisive(attempts, tenant, attempts[id - 1].goalKey) == id
  }

  /** The attempts of a tenant that are their goal's last word and refusals, newest first. */
  function RefusedUpTo(attempts: seq<Attempt>, tenant: string, n: nat): (ids: seq<nat>)
    requires n <= |attempts|
    ensures forall id :: id in ids <==> id <= n && StillRefused(attempts, tenant, id)
    ensures forall i, j :: 0 <= i < j < |ids| ==> ids[i] > ids[j]
  {
    if n == 0 then [] else
    var older := RefusedUpTo(attempts, tenant, n - 1);
    assert forall k :: 0 <= k < |older| ==> older[k] in older;
    if StillRefused(attempts, tenant, n) then [n] + older else older
  }

  function OpenRefusals(attempts: seq<Attempt>, tenant: string, limit: int): seq<nat> {
    Limited(RefusedUpTo(attempts, tenant, |attempts|), limit)
  }

  function GoalOf(attempts: seq<Attempt>, id: nat): string {
    if 1 <= id <= |attempts| then attempts[id - 1].goalKey else ""
  }

  /** The unlimited list of open refusals holds exactly the goals whose last failure still answers,
      each once, by that very attempt. */
  lemma {:induction false} OpenRefusalsAreLastFailures(attempts: seq<Attempt>, tenant: string)
    ensures var open := OpenRefusals(attempts, tenant, -1);
      && (forall id <- open :: LastFailure(attempts, tenant, GoalOf(attempts, id)) == Some(id))
      && (forall goalKey :: LastFailure(attempts, tenant, goalKey).Some? ==>
            LastFailure(attempts, tenant, goalKey).value in open)
      && (forall i, j :: 0 <= i < j < |open| ==> GoalOf(attempts, open[i]) != GoalOf(attempts, open[j]))
  {
    var open := OpenRefusals(attempts, tenant, -1);
    forall goalKey | LastFailure(attempts, tenant, goalKey).Some?
      ensures LastFailure(attempts, tenant, goalKey).value in open
    {
      assert StillRefused(attempts, tenant, LastDecisive(attempts, tenant, goalKey));
    }
    forall i, j | 0 <= i < j < |open|
      ensures GoalOf(attempts, open[i]) != GoalOf(attempts, open[j])
    {
      assert open[i] in open && open[j] in open;
      assert StillRefused(attempts, tenant, open[i]) && StillRefused(attempts, tenant, open[j]);
    }
  }

  /** A publish takes the goal off the list; a warning stands only while its goal is on it. */
  lemma {:induction false} WarningsNeedAnOpenRefusal(attempts: seq<Attempt>, tenant: string, goalKey: string)
    ensures Warnings(attempts, tenant, goalKey) != [] ==> LastFailure(attempts, tenant, goalKey).Some?
  {
    if attempts != [] {
      WarningsNeedAnOpenRefusal(attempts[..|attempts| - 1], tenant, goalKey);
    }
  }

  // ---- The same, attempt by attempt ----

  /** Attempt i warns of its goal: it was refused with a problem, and the goal was not published since. */
  predicate WarnsAt(attempts: seq<Attempt>, i: int, tenant: string, goalKey: string) {
    && 0 <= i < |attempts| && attempts[i].tenant == tenant && attempts[i].goalKey == goalKey
    && attempts[i].status == "refused" && attempts[i].problem != ""
    && forall j :: i < j < |attempts| && attempts[j].tenant == tenant && attempts[j].goalKey == goalKey ==>
         attempts[j].status != "published"
  }

  /** The first 400 characters of a problem. */
  predicate Quotes(problem: string, quoted: string) {
    quoted <= problem && |quoted| <= 400 && (|quoted| < 400 ==> quoted == problem)
  }

  /** A goal's warnings are those of exactly these attempts, newest first, each quoting its problem. */
  lemma {:induction false} WarningsExactly(attempts: seq<Attempt>, tenant: string, goalKey: string)
    returns (at: seq<int>)
    ensures Descending(at) && forall i :: i in at <==> WarnsAt(attempts, i, tenant, goalKey)
    ensures WarningsAt(attempts, at, Warnings(attempts, tenant, goalKey))
  {
    if attempts == [] {
      at := [];
    } else {
      var n, init := |attempts| - 1, attempts[..|attempts| - 1];
      var last := attempts[n];
      var older := WarningsExactly(init, tenant, goalKey);
      OneMoreWarns(init, last, tenant, goalKey);
      assert attempts == init + [last];
      if About(last, tenant, goalKey) && last.status == PUBLISHED {
        at := [];
      } else {
        StillWarn(init, last, older, Warnings(init, tenant, goalKey));
        if About(last, tenant, goalKey) && Teaches(last) {
          at := [n] + older;
          DescendingFirst(n, older);
          WarnsFirst(init, last, older, Warnings(init, tenant, goalKey));
        } else {
          at := older;
        }
      }
      hide WarnsAt, WarningsAt;
    }
  }

  ghost predicate WarningsAt(attempts: seq<Attempt>, at: seq<int>, warnings: seq<string>) {
    |at| == |warnings| && forall k :: 0 <= k < |at| ==> 0 <= at[k] < |attempts| && WarnsOf(attempts[at[k]], warnings[k])
  }

  /** The warning an attempt leaves. */
  predicate WarnsOf(a: Attempt, warning: string) {
    |FAILED_WITH| <= |warning| && warning[..|FAILED_WITH|] == FAILED_WITH && Quotes(a.problem, warning[|FAILED_WITH|..])
  }

  lemma {:induction false} OneMoreWarns(init: seq<Attempt>, last: Attempt, tenant: string, goalKey: string)
    ensures WarnsAt(init + [last], |init|, tenant, goalKey) <==> About(last, tenant, goalKey) && Teaches(last)
    ensures forall i :: i != |init| ==>
      (WarnsAt(init + [last], i, tenant, goalKey)
       <==> WarnsAt(init, i, tenant, goalKey) && !(About(last, tenant, goalKey) && last.status == PUBLISHED))
  {
    var all := init + [last];
    forall i | 0 <= i < |init|
      ensures WarnsAt(all, i, tenant, goalKey)
        <==> WarnsAt(init, i, tenant, goalKey) && !(About(last, tenant, goalKey) && last.status == PUBLISHED)
    {
      assert all[|init|] == last;
      if WarnsAt(all, i, tenant, goalKey) {
        assert forall j :: i < j < |init| ==> init[j] == all[j];
      }
    }
  }

  lemma {:induction false} StillWarn(init: seq<Attempt>, last: Attempt, at: seq<int>, warnings: seq<string>)
    requires WarningsAt(init, at, warnings)
    ensures WarningsAt(init + [last], at, warnings)
  {
    hide WarnsOf;
  }

  lemma {:induction false} WarnsFirst(init: seq<Attempt>, last: Attempt, at: seq<int>, warnings: seq<string>)
    requires WarningsAt(init, at, warnings)
    ensures WarningsAt(init + [last], [|init|] + at, [LessonText(last.problem)] + warnings)
  {
    var text := LessonText(last.problem);
    assert text[..|FAILED_WITH|] == FAILED_WITH && text[|FAILED_WITH|..] == Text.Cut(last.problem, 400);
    assert WarnsOf(last, text);
    hide WarnsOf, LessonText;
  }

  /** The last failure is the goal's refused attempt that no refusal or publish of the goal follows. */
  lemma {:induction false} LastFailureExactly(attempts: seq<Attempt>, tenant: string, goalKey: string, id: nat)
    ensures LastFailure(attempts, tenant, goalKey) == Some(id)
      <==> 1 <= id <= |attempts| && attempts[id - 1].tenant == tenant && attempts[id - 1].goalKey == goalKey
           && attempts[id - 1].status == "refused"
           && forall j :: id <= j < |attempts| && attempts[j].tenant == tenant && attempts[j].goalKey == goalKey ==>
                attempts[j].status != "refused" && attempts[j].status != "published"
  {
    var last := LastDecisive(attempts, tenant, goalKey);
    assert last > 0 && last < id <= |attempts| ==>
      !(About(attempts[id - 1], tenant, goalKey) && Decisive(attempts[id - 1]));
  }

  // ---- The bridge to the spine ----

  function LessonRecord(a: Attempt, id: nat, provenance: seq<string>): Record {
    Record(LESSON, LessonText(a.problem), [a.tenant, a.goalKey], "observed",
           provenance + ["build-attempt:" + Text.Decimal(id)], Nothing, "node.build", None)
  }

  function ClosingRecord(a: Attempt, id: nat, provenance: seq<string>): Record {
    Record(LESSON_CLOSED, "the goal published as node " + ((if a.nodeId == "" then "unknown" else a.nodeId)
             + " — its earlier warnings no longer apply"), [a.tenant, a.goalKey], "observed",
           provenance + ["build-attempt:" + Text.Decimal(id)], Nothing, "node.build", None)
  }

  lemma {:induction false} BridgeIsAdmissible(a: Attempt, id: nat, provenance: seq<string>)
    ensures Objection(LessonRecord(a, id, provenance)).None? && Objection(ClosingRecord(a, id, provenance)).None?
  {
    assert FAILED_WITH[0] == 'a';
    Text.StripKeepsFirst(LessonText(a.problem));
    Text.StripKeepsFirst(ClosingRecord(a, id, provenance).statement);
  }

  /** A lesson lands on the spine; a publish closes the goal's lessons and failures there too. */
  function Bridged(log: Log, a: Attempt, id: nat, provenance: seq<string>): Log {
    if Teaches(a) then AdmitTo(log, LessonRecord(a, id, provenance), {})
    else if a.status == PUBLISHED then GoalClosed(log, ClosingRecord(a, id, provenance), ScopeOf(a.tenant, a.goalKey))
    else log
  }

  /** A closing record, and every open lesson and failure of its scope closed by it. */
  function GoalClosed(log: Log, closing: Record, scope: Scope): Log {
    var admitted := AdmitTo(log, closing, {});
    CloseScope(CloseScope(admitted, scope, LESSON, |admitted|), scope, FAILURE, |admitted|)
  }

  /** The standing lessons of one scope on the spine, newest first. */
  function SpineLessons(log: Log, scope: Scope): seq<string> {
    if log == [] then [] else
    var last := log[|log| - 1];
    (if Open(last, scope, LESSON) then [last.statement] else []) + SpineLessons(log[..|log| - 1], scope)
  }

  function Stripped(lessons: seq<string>): (r: seq<string>)
    ensures |r| == |lessons| && forall i :: 0 <= i < |r| ==> r[i] == Text.Strip(lessons[i])
  {
    seq(|lessons|, i requires 0 <= i < |lessons| => Text.Strip(lessons[i]))
  }

  /** The spine's standing lessons match the goal's warnings one for one. */
  ghost predicate Mirrors(log: Log, attempts: seq<Attempt>, tenant: string, goalKey: string) {
    SpineLessons(log, ScopeOf(tenant, goalKey)) == Stripped(Warnings(attempts, tenant, goalKey))
  }

  lemma {:induction false} SpineLessonsAgree(log: Log, log': Log, scope: Scope)
    requires |log| == |log'|
    requires forall i :: 0 <= i < |log| ==> Open(log'[i], scope, LESSON) == Open(log[i], scope, LESSON)
    requires forall i :: 0 <= i < |log| ==> log'[i].statement == log[i].statement
    ensures SpineLessons(log', scope) == SpineLessons(log, scope)
  {
    if log != [] {
      SpineLessonsAgree(log[..|log| - 1], log'[..|log'| - 1], scope);
    }
  }

  lemma {:induction false} NoSpineLessons(log: Log, scope: Scope)
    requires NoneOpen(log, scope, LESSON)
    ensures SpineLessons(log, scope) == []
  {
    if log != [] {
      NoSpineLessons(log[..|log| - 1], scope);
    }
  }

  lemma {:induction false} AdmittedLesson(log: Log, r: Record, scope: Scope)
    ensures SpineLessons(AdmitTo(log, r, {}), scope)
      == (if multiset(r.scopeIds) == scope && r.memoryType == LESSON then [Text.Strip(r.statement)] else [])
         + SpineLessons(log, scope)
  {
    var log' := AdmitTo(log, r, {});
    assert log'[..|log|] == log;
  }

  /** Two goals share a scope only by swapping tenant and goal. */
  lemma {:induction false} SharedScope(tenant: string, goalKey: string, t: string, g: string)
    ensures ScopeOf(tenant, goalKey) == ScopeOf(t, g)
      <==> (tenant == t && goalKey == g) || (tenant == g && goalKey == t)
  {
    assert multiset([g, t]) == multiset([t, g]);
    if ScopeOf(tenant, goalKey) == ScopeOf(t, g) {
      assert tenant in multiset([t, g]) && goalKey in multiset([t, g]);
      assert t in multiset([tenant, goalKey]) && g in multiset([tenant, goalKey]);
      assert multiset([t, g])[t] == multiset([tenant, goalKey])[t];
    }
  }

  lemma {:induction false} PublishClosesSpineLessons(log: Log, a: Attempt, id: nat, provenance: seq<string>,
                                                     scope: Scope)
    requires a.status == PUBLISHED
    ensures SpineLessons(Bridged(log, a, id, provenance), scope)
      == if scope == ScopeOf(a.tenant, a.goalKey) then [] else SpineLessons(log, scope)
  {
    var own := ScopeOf(a.tenant, a.goalKey);
    var closing := AdmitTo(log, ClosingRecord(a, id, provenance), {});
    var lessonless := CloseScope(closing, own, LESSON, |closing|);
    assert Bridged(log, a, id, provenance) == CloseScope(lessonless, own, FAILURE, |lessonless|);
    assert multiset([a.tenant, a.goalKey]) == own;
    assert closing[|closing| - 1].memoryType == LESSON_CLOSED;
    hide AdmitTo, CloseScope, ScopeOf, Bridged;
    AdmittedLesson(log, ClosingRecord(a, id, provenance), scope);
    ClosingLessons(closing, own, scope);
    ClosingKeepsLessons(lessonless, own, FAILURE, |lessonless|, scope);
  }

  /** A publish leaves no failure open in its goal's scope. */
  lemma {:induction false} PublishClosesFailures(log: Log, a: Attempt, id: nat, provenance: seq<string>)
    requires a.status == PUBLISHED
    ensures NoneOpen(Bridged(log, a, id, provenance), ScopeOf(a.tenant, a.goalKey), FAILURE)
  {
    var own := ScopeOf(a.tenant, a.goalKey);
    var closing := AdmitTo(log, ClosingRecord(a, id, provenance), {});
    var lessonless := CloseScope(closing, own, LESSON, |closing|);
    assert Bridged(log, a, id, provenance) == CloseScope(lessonless, own, FAILURE, |lessonless|);
    assert closing[|closing| - 1].memoryType == LESSON_CLOSED == lessonless[|closing| - 1].memoryType;
    hide AdmitTo, CloseScope, ScopeOf, Bridged;
    ClosingClosesAll(lessonless, own, FAILURE);
  }

  /** Closing the lessons of a scope leaves none standing there and every other scope's as they were. */
  lemma {:induction false} ClosingLessons(log: Log, own: Scope, scope: Scope)
    requires log != [] && log[|log| - 1].memoryType != LESSON
    ensures SpineLessons(CloseScope(log, own, LESSON, |log|), scope)
      == if scope == own then [] else SpineLessons(log, scope)
  {
    var log' := CloseScope(log, own, LESSON, |log|);
    ClosingClosesAll(log, own, LESSON);
    if scope == own {
      NoSpineLessons(log', scope);
    } else {
      hide SpineLessons;
      SpineLessonsAgree(log, log', scope);
    }
  }

  /** Closing another kind touches no lesson. */
  lemma {:induction false} ClosingKeepsLessons(log: Log, own: Scope, kind: string, stamp: int, scope: Scope)
    requires kind != LESSON
    ensures SpineLessons(CloseScope(log, own, kind, stamp), scope) == SpineLessons(log, scope)
  {
    hide SpineLessons;
    SpineLessonsAgree(log, CloseScope(log, own, kind, stamp), scope);
  }

  /** Admitting another kind over rows of other kinds touches no lesson. */
  lemma {:induction false} AdmittingKeepsLessons(log: Log, r: Record, supersedes: set<int>, scope: Scope)
    requires r.memoryType != LESSON
    requires forall id <- supersedes :: 1 <= id <= |log| && log[id - 1].memoryType != LESSON
    ensures SpineLessons(AdmitTo(log, r, supersedes), scope) == SpineLessons(log, scope)
  {
    var log' := AdmitTo(log, r, supersedes);
    assert log'[|log|].memoryType != LESSON;
    SpineLessonsAgree(log, log'[..|log|], scope);
  }

  /** The attempt is another goal's, whose tenant and goal are this one's swapped, and touches lessons. */
  predicate Clashes(attempts: seq<Attempt>, a: Attempt, tenant: string, goalKey: string) {
    && tenant != goalKey && About(a, goalKey, tenant)
    && (Teaches(a) || (a.status == PUBLISHED && Warnings(attempts, tenant, goalKey) != []))
  }

  /** Recording keeps the spine's standing lessons a mirror of the goal's warnings, unless the attempt
      swaps tenant and goal; and then it breaks the mirror if and only if it teaches, or publishes
      while the goal has warnings. */
  lemma {:induction false} RecordingKeepsMirror(log: Log, attempts: seq<Attempt>, a: Attempt, id: nat,
                                                provenance: seq<string>, tenant: string, goalKey: string)
    requires Mirrors(log, attempts, tenant, goalKey)
    ensures Mirrors(Bridged(log, a, id, provenance), attempts + [a], tenant, goalKey)
      <==> !Clashes(attempts, a, tenant, goalKey)
  {
    if About(a, goalKey, tenant) && tenant != goalKey {
      SwappedRecording(log, attempts, a, id, provenance, tenant, goalKey);
    } else {
      UnswappedRecording(log, attempts, a, id, provenance, tenant, goalKey);
    }
  }

  lemma {:induction false} SwappedRecording(log: Log, attempts: seq<Attempt>, a: Attempt, id: nat,
                                            provenance: seq<string>, tenant: string, goalKey: string)
    requires Mirrors(log, attempts, tenant, goalKey) && About(a, goalKey, tenant) && tenant != goalKey
    ensures Mirrors(Bridged(log, a, id, provenance), attempts + [a], tenant, goalKey)
      <==> !Clashes(attempts, a, tenant, goalKey)
  {
    var all := attempts + [a];
    assert all[..|all| - 1] == attempts && Warnings(all, tenant, goalKey) == Warnings(attempts, tenant, goalKey);
    SharedScope(a.tenant, a.goalKey, tenant, goalKey);
    hide ScopeOf, SpineLessons, LessonText, Warnings;
    if Teaches(a) {
      TaughtLesson(log, a, id, provenance, ScopeOf(tenant, goalKey));
      hide Bridged;
    } else if a.status == PUBLISHED {
      PublishClosesSpineLessons(log, a, id, provenance, ScopeOf(tenant, goalKey));
      hide Bridged;
    }
  }

  lemma {:induction false} UnswappedRecording(log: Log, attempts: seq<Attempt>, a: Attempt, id: nat,
                                              provenance: seq<string>, tenant: string, goalKey: string)
    requires Mirrors(log, attempts, tenant, goalKey)
    requires About(a, goalKey, tenant) ==> tenant == goalKey
    ensures Mirrors(Bridged(log, a, id, provenance), attempts + [a], tenant, goalKey)
  {
    var all := attempts + [a];
    assert all[..|all| - 1] == attempts;
    SharedScope(a.tenant, a.goalKey, tenant, goalKey);
    hide ScopeOf, SpineLessons, LessonText;
    if Teaches(a) {
      TaughtLesson(log, a, id, provenance, ScopeOf(tenant, goalKey));
      hide Bridged;
      StrippedFirst(LessonText(a.problem), Warnings(attempts, tenant, goalKey));
      hide Stripped;
    } else if a.status == PUBLISHED {
      PublishClosesSpineLessons(log, a, id, provenance, ScopeOf(tenant, goalKey));
      hide Bridged;
    }
  }

  lemma {:induction false} StrippedFirst(lesson: string, rest: seq<string>)
    ensures Stripped([lesson] + rest) == [Text.Strip(lesson)] + Stripped(rest)
    ensures Stripped([]) == []
  {
  }

  lemma {:induction false} TaughtLesson(log: Log, a: Attempt, id: nat, provenance: seq<string>, scope: Scope)
    requires Teaches(a)
    ensures SpineLessons(Bridged(log, a, id, provenance), scope)
      == (if scope == ScopeOf(a.tenant, a.goalKey) then [Text.Strip(LessonText(a.problem))] else [])
         + SpineLessons(log, scope)
  {
    hide AdmitTo, Text.Strip, SpineLessons, LessonText;
    AdmittedLesson(log, LessonRecord(a, id, provenance), scope);
  }

  // ---- The ledger ----

  class BuildLedger {
    var attempts: seq<Attempt>
    var lessons: seq<Lesson>
    const spine: MemorySpine?

    ghost predicate Valid()
      reads this
    {
      InSync(attempts, lessons)
    }

    constructor (spine: MemorySpine?)
      ensures Valid() && attempts == [] && lessons == [] && this.spine == spine
    {
      attempts, lessons := [], [];
      this.spine := spine;
    }

    /** One attempt on the record, its lesson or resolution with it, then the same on the spine.
        An unknown status is refused and changes nothing. */
    method Record(a: Attempt, provenance: seq<string>) returns (id: Option<nat>)
      requires Valid()
      modifies this, spine
      ensures Valid()
      ensures id.Some? <==> a.status in [PUBLISHED, REFUSED, DECLINED]
      ensures id.Some? ==> id.value == |old(attempts)| + 1
      ensures attempts == if id.Some? then old(attempts) + [a] else old(attempts)
      ensures lessons == if id.Some? then LessonsAfter(old(lessons), a, id.value) else old(lessons)
      ensures a.status == "refused" && a.problem != "" ==>
        |lessons| == |old(lessons)| + 1 && lessons[..|old(lessons)|] == old(lessons)
      ensures a.status == "published" ==>
        (forall l <- lessons :: l.tenant == a.tenant && l.goalKey == a.goalKey ==> l.supersededBy.Some?)
      ensures !(a.status == "refused" && a.problem != "") && a.status != "published" ==> lessons == old(lessons)
      ensures spine != null ==>
        spine.rows == if id.Some? then Bridged(old(spine.rows), a, id.value, provenance) else old(spine.rows)
    {
      if a.status !in [PUBLISHED, REFUSED, DECLINED] {
        return None;
      }
      ghost var before, taught := attempts, lessons;
      attempts := attempts + [a];
      var attemptId := |attempts|;
      id := Some(attemptId);
      if a.status == REFUSED && a.problem != "" {
        lessons := lessons + [Lesson(a.tenant, a.goalKey, LessonText(a.problem), attemptId, None)];
      } else if a.status == PUBLISHED {
        lessons := Resolved(lessons, a.tenant, a.goalKey, attemptId);
      }
      assert lessons == LessonsAfter(taught, a, attemptId);
      RecordingKeepsSync(before, taught, a);
      if spine != null {
        Bridge(a, attemptId, provenance);
      }
    }

    method Bridge(a: Attempt, attemptId: nat, provenance: seq<string>)
      requires spine != null
      modifies spine
      ensures spine.rows == Bridged(old(spine.rows), a, attemptId, provenance)
    {
      BridgeIsAdmissible(a, attemptId, provenance);
      assert Elements([]) == {};
      hide Objection, AdmitTo, GoalClosed, LessonRecord, ClosingRecord;
      if a.status == REFUSED && a.problem != "" {
        var _ := spine.Admit(LessonRecord(a, attemptId, provenance), []);
      } else if a.status == PUBLISHED {
        CloseGoal(ClosingRecord(a, attemptId, provenance), [a.tenant, a.goalKey]);
      }
    }

    method CloseGoal(closing: Record, scopeIds: seq<string>)
      requires spine != null && Objection(closing).None?
      modifies spine
      ensures spine.rows == GoalClosed(old(spine.rows), closing, multiset(scopeIds))
    {
      assert Elements([]) == {};
      hide Objection, AdmitTo, CloseScope;
      var admitted := spine.Admit(closing, []);
      var _ := spine.SupersedeScope(scopeIds, LESSON, admitted.value);
      var _ := spine.SupersedeScope(scopeIds, FAILURE, admitted.value);
    }
  }
}
