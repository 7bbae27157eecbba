/** Negative knowledge: scoped failure records, their reproduction counts, and the check that
    blocks an identical retry. */
module Negative {
  import opened Occurrences
  import opened Spine
  import opened SpineLaws
  import opened Episodes
  import Text

  const FAILURE := "failure"
  const RECALLED_FAILURES := 10
  const CHECKED_FAILURES := 5

  type Pairs = seq<(string, string)>

  function Before(s: string, stop: char): string {
    if s == [] || s[0] == stop then [] else [s[0]] + Before(s[1..], stop)
  }

  /** A stable key from a failure's words: the classifier before the first colon of the first
      line, else that line. */
  function MechanismOf(problem: string): string {
    var head := Before(Text.Strip(problem), '\n');
    if ':' in head then Text.Cut(Text.Lower(Text.Strip(Before(head, ':'))), 80)
    else Text.Cut(Text.Lower(head), 80)
  }

  function TwinScope(tenant: string, mechanism: string): Scope {
    ScopeOf(tenant, "mechanism:" + mechanism)
  }

  predicate SameMechanism(v: Value, mechanism: string) {
    v.Failure? && v.mechanism == mechanism
  }

  function Matching(log: Log, ids: seq<int>, mechanism: string): (r: seq<int>)
    ensures forall id :: id in r <==> id in ids && SameMechanism(ValueOf(log, id), mechanism)
  {
    if ids == [] then []
    else
      assert ids == [ids[0]] + ids[1..];
      (if SameMechanism(ValueOf(log, ids[0]), mechanism) then [ids[0]] else []) + Matching(log, ids[1..], mechanism)
  }

  function Reproductions(v: Value): nat {
    if v.Failure? then v.reproductions else 1
  }

  function MostReproduced(log: Log, ids: seq<int>): (n: nat)
    ensures forall id <- ids :: Reproductions(ValueOf(log, id)) <= n
    ensures ids != [] ==> exists id <- ids :: Reproductions(ValueOf(log, id)) == n
    ensures ids == [] ==> n == 0
  {
    if ids == [] then 0
    else
      assert ids == [ids[0]] + ids[1..];
      var first, rest := Reproductions(ValueOf(log, ids[0])), MostReproduced(log, ids[1..]);
      if first >= rest then
        assert ids[0] in ids;
        first
      else
        assert forall id <- ids[1..] :: id in ids;
        rest
  }

  /** The recalled failures of the same mechanism, which a recurrence supersedes. */
  function Prior(log: Log, tenant: string, subject: string, mechanism: string, now: int): seq<int> {
    Matching(log, Recalled(log, ScopeOf(tenant, subject), now, [FAILURE], RECALLED_FAILURES), mechanism)
  }

  function FailureValue(problem: string, applicability: Pairs, reproductions: nat, reopen: seq<string>): Value {
    Failure(MechanismOf(problem), Text.Cut(problem, 400), applicability, reproductions, reopen)
  }

  function GoalRecord(tenant: string, subject: string, problem: string, sources: seq<string>, value: Value): Record
    requires value.Failure?
  {
    Record(FAILURE, "failed via " + (value.mechanism + " (x" + Text.Decimal(value.reproductions) + "): "
             + Text.Cut(problem, 200)), [tenant, subject], "observed",
           if sources == [] then ["subject:" + subject] else sources, value, "node.build", None)
  }

  function TwinRecord(tenant: string, subject: string, problem: string, sources: seq<string>, value: Value): Record
    requires value.Failure?
  {
    Record(FAILURE, "[" + (subject + "] failed via " + value.mechanism + ": " + Text.Cut(problem, 200)),
           [tenant, "mechanism:" + value.mechanism], "observed",
           if sources == [] then ["subject:" + subject] else sources, value, "node.build", None)
  }

  lemma {:induction false} FailureIsAdmissible(tenant: string, subject: string, problem: string,
                                               sources: seq<string>, value: Value)
    requires value.Failure?
    ensures Objection(GoalRecord(tenant, subject, problem, sources, value)).None?
    ensures Objection(TwinRecord(tenant, subject, problem, sources, value)).None?
  {
    Text.StripKeepsFirst(GoalRecord(tenant, subject, problem, sources, value).statement);
    Text.StripKeepsFirst(TwinRecord(tenant, subject, problem, sources, value).statement);
  }

  datatype Report = Report(problem: string, applicability: Pairs, sources: seq<string>, reopen: seq<string>)

  function ReportValue(log: Log, tenant: string, subject: string, f: Report, now: int): (v: Value)
    ensures v.Failure? && v.mechanism == MechanismOf(f.problem)
  {
    var prior := Prior(log, tenant, subject, MechanismOf(f.problem), now);
    FailureValue(f.problem, f.applicability, 1 + MostReproduced(log, prior), f.reopen)
  }

  /** The goal-scoped record, superseding its own past with the count raised. */
  function GoalRecorded(log: Log, tenant: string, subject: string, f: Report, now: int): Log {
    AdmitTo(log, GoalRecord(tenant, subject, f.problem, f.sources, ReportValue(log, tenant, subject, f, now)),
            Elements(Prior(log, tenant, subject, MechanismOf(f.problem), now)))
  }

  /** Then its mechanism-scoped twin, superseding nothing. */
  function FailureRecorded(log: Log, tenant: string, subject: string, f: Report, now: int): Log {
    AdmitTo(GoalRecorded(log, tenant, subject, f, now),
            TwinRecord(tenant, subject, f.problem, f.sources, ReportValue(log, tenant, subject, f, now)), {})
  }

  /** The recalled failures of one mechanism, and one more than the most any of them counts. */
  method PriorFailures(spine: MemorySpine, tenant: string, subject: string, mechanism: string, now: int)
    returns (prior: seq<int>, reproductions: nat)
    ensures prior == Prior(spine.rows, tenant, subject, mechanism, now)
    ensures reproductions == 1 + MostReproduced(spine.rows, prior)
  {
    var recalled := spine.Recall([tenant, subject], now, [FAILURE], RECALLED_FAILURES);
    hide Recalled, Matching;
    prior := Matching(spine.rows, recalled, mechanism);
    reproductions := 1 + MostReproduced(spine.rows, prior);
  }

  method RecordFailure(spine: MemorySpine, tenant: string, subject: string, f: Report, now: int) returns (row: int)
    modifies spine
    ensures spine.rows == FailureRecorded(old(spine.rows), tenant, subject, f, now)
    ensures row == |old(spine.rows)| + 1
  {
    hide *;
    var log := spine.rows;
    var mechanism := MechanismOf(f.problem);
    var prior, reproductions := PriorFailures(spine, tenant, subject, mechanism, now);
    var value := FailureValue(f.problem, f.applicability, reproductions, f.reopen);
    RecordingInSteps(log, tenant, subject, f, now);
    FailureIsAdmissible(tenant, subject, f.problem, f.sources, value);
    var admitted := spine.Admit(GoalRecord(tenant, subject, f.problem, f.sources, value), prior);
    row := admitted.value;
    var _ := spine.Admit(TwinRecord(tenant, subject, f.problem, f.sources, value), []);
  }

  /** The recording as the code goes about it. */
  lemma {:induction false} RecordingInSteps(log: Log, tenant: string, subject: string, f: Report, now: int)
    ensures var prior := Prior(log, tenant, subject, MechanismOf(f.problem), now);
      var value := FailureValue(f.problem, f.applicability, 1 + MostReproduced(log, prior), f.reopen);
      value.Failure? && Elements([]) == {}
      && FailureRecorded(log, tenant, subject, f, now)
        == AdmitTo(AdmitTo(log, GoalRecord(tenant, subject, f.problem, f.sources, value), Elements(prior)),
                   TwinRecord(tenant, subject, f.problem, f.sources, value), {})
  {
    hide AdmitTo, MechanismOf, Prior, GoalRecord, TwinRecord;
  }

  // ---- The pre-commitment verdict ----

  datatype Answer = Answer(blocked: bool, reason: string, difference: string)

  const CLEAR := Answer(false, "", "")

  function Lookup(pairs: Pairs, key: string): Option<string> {
    if pairs == [] then None else if pairs[0].0 == key then Some(pairs[0].1) else Lookup(pairs[1..], key)
  }

  function Words(context: Pairs): string {
    Text.Lower(Text.Join(seq(|context|, i requires 0 <= i < |context| => context[i].1), " "))
  }

  predicate Reopens(condition: string, context: Pairs) {
    condition != "" && Text.Contains(Words(context), Text.Lower(condition))
  }

  predicate Differs(known: (string, string), context: Pairs) {
    Lookup(context, known.0).Some? && Lookup(context, known.0).value != known.1
  }

  function Reopened(conditions: seq<string>, context: Pairs): (r: seq<string>)
    ensures forall c :: c in r <==> c in conditions && Reopens(c, context)
  {
    if conditions == [] then []
    else
      assert conditions == [conditions[0]] + conditions[1..];
      (if Reopens(conditions[0], context) then [conditions[0]] else []) + Reopened(conditions[1..], context)
  }

  function Differing(applicability: Pairs, context: Pairs): (r: seq<string>)
    ensures forall k :: k in r <==> exists known <- applicability :: known.0 == k && Differs(known, context)
  {
    if applicability == [] then []
    else
      assert applicability == [applicability[0]] + applicability[1..];
      (if Differs(applicability[0], context) then [applicability[0].0] else []) + Differing(applicability[1..], context)
  }

  function Changed(keys: seq<string>): seq<string> {
    seq(|keys|, i requires 0 <= i < |keys| => keys[i] + " changed")
  }

  /** How one reproduced failure answers a retry in the given context. */
  function Judged(v: Value, context: Pairs): Answer
    requires v.Failure?
  {
    var reopened := Reopened(v.reopenConditions, context);
    var differing := Differing(v.applicability, context);
    if reopened != [] then Answer(false, "", "reopen condition met: " + reopened[0])
    else if differing != [] then
      Answer(false, "", "materially different from the recorded failure: " + Text.Join(Changed(differing), ", "))
    else
      Answer(true, "this goal already failed the same way " + (Text.Decimal(v.reproductions) + " times — "
        + Text.Cut(v.failureMode, 160)
        + " — change something material (a different model, a revised goal) before retrying"), "")
  }

  /** The first reproduced failure among the recalled ones decides. */
  function FirstJudged(log: Log, ids: seq<int>, context: Pairs): Answer {
    if ids == [] then CLEAR
    else if Reproductions(ValueOf(log, ids[0])) < 2 || !ValueOf(log, ids[0]).Failure? then
      FirstJudged(log, ids[1..], context)
    else Judged(ValueOf(log, ids[0]), context)
  }

  function Checked(log: Log, tenant: string, subject: string, context: Pairs, now: int): Answer {
    FirstJudged(log, Recalled(log, ScopeOf(tenant, subject), now, [FAILURE], CHECKED_FAILURES), context)
  }

  method NegativeCheck(spine: MemorySpine, tenant: string, subject: string, context: Pairs, now: int)
    returns (verdict: Answer)
    ensures verdict == Checked(spine.rows, tenant, subject, context, now)
  {
    var ids := spine.Recall([tenant, subject], now, [FAILURE], CHECKED_FAILURES);
    var log := spine.rows;
    hide Judged, Recalled, FirstJudged;
    for n := 0 to |ids|
      invariant FirstJudged(log, ids, context) == FirstJudged(log, ids[n..], context)
    {
      JudgeNext(log, ids, n, context);
      var value := ValueOf(log, ids[n]);
      if value.Failure? && value.reproductions >= 2 {
        return Judged(value, context);
      }
    }
    NothingToJudge(log, context);
    return CLEAR;
  }

  lemma {:induction false} JudgeNext(log: Log, ids: seq<int>, n: nat, context: Pairs)
    requires n < |ids|
    ensures var value := ValueOf(log, ids[n]);
      FirstJudged(log, ids[n..], context)
      == if value.Failure? && value.reproductions >= 2 then Judged(value, context)
         else FirstJudged(log, ids[n + 1..], context)
  {
    assert ids[n..][0] == ids[n] && ids[n..][1..] == ids[n + 1..];
    hide Judged, ValueOf;
  }

  lemma {:induction false} NothingToJudge(log: Log, context: Pairs)
    ensures FirstJudged(log, [], context) == CLEAR
  {
  }

  /** A retry that nothing distinguishes from the recorded failure. */
  predicate IdenticalRetry(v: Value, context: Pairs) {
    v.Failure? && Reproductions(v) >= 2
    && (forall c <- v.reopenConditions :: !Reopens(c, context))
    && (forall known <- v.applicability :: !Differs(known, context))
  }

  lemma {:induction false} JudgedBlocks(v: Value, context: Pairs)
    requires v.Failure? && v.reproductions >= 2
    ensures Judged(v, context).blocked <==> IdenticalRetry(v, context)
  {
    var reopened, differing := Reopened(v.reopenConditions, context), Differing(v.applicability, context);
    if reopened != [] {
      assert reopened[0] in reopened;
    } else if differing != [] {
      assert differing[0] in differing;
    } else {
      forall c | c in v.reopenConditions ensures !Reopens(c, context) {
        assert c !in reopened;
      }
      forall known | known in v.applicability ensures !Differs(known, context) {
        assert known.0 !in differing;
      }
    }
  }

  ghost predicate BlocksRetry(log: Log, id: int, scope: Scope, now: int, context: Pairs) {
    && StandingId(log, id, scope, now) && log[id - 1].memoryType == FAILURE
    && IdenticalRetry(log[id - 1].value, context)
  }

  /** A block always rests on a standing failure of this very goal, reproduced at least twice, that
      nothing in the context distinguishes from the retry. */
  lemma {:induction false} BlocksOnlyReproduced(log: Log, tenant: string, subject: string, context: Pairs, now: int)
    requires Checked(log, tenant, subject, context, now).blocked
    ensures exists id :: BlocksRetry(log, id, ScopeOf(tenant, subject), now, context)
  {
    var id := BlockingFailure(log, Recalled(log, ScopeOf(tenant, subject), now, [FAILURE], CHECKED_FAILURES), context);
    assert BlocksRetry(log, id, ScopeOf(tenant, subject), now, context);
  }

  lemma {:induction false} BlockingFailure(log: Log, ids: seq<int>, context: Pairs) returns (id: int)
    requires FirstJudged(log, ids, context).blocked
    ensures id in ids && IdenticalRetry(ValueOf(log, id), context)
  {
    if Reproductions(ValueOf(log, ids[0])) < 2 || !ValueOf(log, ids[0]).Failure? {
      id := BlockingFailure(log, ids[1..], context);
    } else {
      id := ids[0];
      JudgedBlocks(ValueOf(log, id), context);
    }
  }

  // ---- A second recording always counts ----

  /** Right after a recording the newest failure of the goal's scope carries what was recorded. */
  lemma {:induction false} RecordingIsRecalledFirst(log: Log, tenant: string, subject: string, f: Report,
                                                    now: int, later: int, limit: int)
    requires limit >= 1
    ensures var log' := FailureRecorded(log, tenant, subject, f, now);
      var found := Recalled(log', ScopeOf(tenant, subject), later, [FAILURE], limit);
      && found != [] && 1 <= found[0] <= |log'|
      && ValueOf(log', found[0]) == ReportValue(log, tenant, subject, f, now)
  {
    var scope := ScopeOf(tenant, subject);
    var log' := FailureRecorded(log, tenant, subject, f, now);
    var value := ReportValue(log, tenant, subject, f, now);
    RecordedRows(log, tenant, subject, f, now);
    hide FailureRecorded, ReportValue, ScopeOf, AdmitTo, MechanismOf;
    var goal, twin := log'[|log|], log'[|log| + 1];
    RecallNewest(log', scope, later, FAILURE, limit);
    assert Standing(goal, scope, later);
    TopTwo(log', scope, later);
    hide Window, Recalled;
    assert |log| + 1 in Window(log', scope, later);
    assert StandingId(log', |log| + 1, scope, later);
  }

  lemma {:induction false} RecordedRows(log: Log, tenant: string, subject: string, f: Report, now: int)
    ensures var log' := FailureRecorded(log, tenant, subject, f, now);
      var value := ReportValue(log, tenant, subject, f, now);
      && |log'| == |log| + 2
      && Open(log'[|log|], ScopeOf(tenant, subject), FAILURE)
      && Open(log'[|log| + 1], TwinScope(tenant, MechanismOf(f.problem)), FAILURE)
      && log'[|log|].value == log'[|log| + 1].value == value
      && (forall i :: |log| <= i < |log| + 2 ==> log'[i].state == "observed" && log'[i].validUntil.None?)
  {
    hide *;
    RecordingIs(log, tenant, subject, f, now);
    var value := ReportValue(log, tenant, subject, f, now);
    FailureRows(tenant, subject, f.problem, f.sources, value);
  }

  /** The log after a recording ends with its two records. */
  lemma {:induction false} RecordingIs(log: Log, tenant: string, subject: string, f: Report, now: int)
    ensures var log' := FailureRecorded(log, tenant, subject, f, now);
      var value := ReportValue(log, tenant, subject, f, now);
      && |log'| == |log| + 2 && value.mechanism == MechanismOf(f.problem)
      && log'[|log|] == NewRow(GoalRecord(tenant, subject, f.problem, f.sources, value))
      && log'[|log| + 1] == NewRow(TwinRecord(tenant, subject, f.problem, f.sources, value))
  {
    var value := ReportValue(log, tenant, subject, f, now);
    var prior := Prior(log, tenant, subject, MechanismOf(f.problem), now);
    assert forall id <- prior :: 1 <= id <= |log|;
    hide MechanismOf, Recalled, AdmitTo, Prior, GoalRecord, TwinRecord, NewRow, ReportValue;
    AdmittedRow(log, GoalRecord(tenant, subject, f.problem, f.sources, value), Elements(prior));
    AdmittedRow(GoalRecorded(log, tenant, subject, f, now),
                TwinRecord(tenant, subject, f.problem, f.sources, value), {});
  }

  lemma {:induction false} FailureRows(tenant: string, subject: string, problem: string, sources: seq<string>,
                                       value: Value)
    requires value.Failure?
    ensures var goal, twin := NewRow(GoalRecord(tenant, subject, problem, sources, value)),
                              NewRow(TwinRecord(tenant, subject, problem, sources, value));
      && Open(goal, ScopeOf(tenant, subject), FAILURE) && Open(twin, TwinScope(tenant, value.mechanism), FAILURE)
      && goal.value == twin.value == value && goal.state == twin.state == "observed"
      && goal.validUntil.None? && twin.validUntil.None?
  {
    hide Text.Strip, Text.Cut, Text.Decimal;
  }

  lemma {:induction false} AdmittedRow(log: Log, r: Record, supersedes: set<int>)
    requires |log| + 1 !in supersedes
    ensures AdmitTo(log, r, supersedes)[|log|] == NewRow(r)
    ensures supersedes == {} && log != [] ==> AdmitTo(log, r, supersedes)[|log| - 1] == log[|log| - 1]
  {
    hide NewRow;
  }

  /** The second newest row of the log is in its scope's window if it stands. */
  lemma {:induction false} TopTwo(log: Log, scope: Scope, now: int)
    requires |log| >= 2 && Standing(log[|log| - 2], scope, now)
    ensures |log| - 1 in Window(log, scope, now)
  {
    hide Standing;
    var init := log[..|log| - 1];
    assert StandingIds(init, scope, now)[0] == |log| - 1 by {
      assert init[|init| - 1] == log[|log| - 2];
    }
    var ids := StandingIds(log, scope, now);
    assert ids[0] == |log| - 1 || ids[1] == |log| - 1;
  }

  /** Nothing in the context reopens the report or differs from it. */
  predicate Repeats(f: Report, context: Pairs) {
    (forall c <- f.reopen :: !Reopens(c, context)) && (forall known <- f.applicability :: !Differs(known, context))
  }

  /** Right after a recording that counted on from an earlier one the check blocks if and only if the
      retry is identical, whatever else the log holds. */
  lemma {:induction false} RecordingBlocksExactly(log: Log, tenant: string, subject: string, g: Report, context: Pairs,
                                                  now: int, later: int)
    requires MostReproduced(log, Prior(log, tenant, subject, MechanismOf(g.problem), now)) >= 1
    ensures Checked(FailureRecorded(log, tenant, subject, g, now), tenant, subject, context, later).blocked
      <==> Repeats(g, context)
  {
    var value := ReportValue(log, tenant, subject, g, now);
    RecordingIsRecalledFirst(log, tenant, subject, g, now, later, CHECKED_FAILURES);
    JudgedBlocks(value, context);
    assert value.reproductions >= 2 && value.reopenConditions == g.reopen && value.applicability == g.applicability;
    hide Judged, FailureRecorded, ReportValue, Recalled, ScopeOf, MechanismOf, Reopens, Differs;
  }
}
