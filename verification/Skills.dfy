/** Candidacy, promotion and publication of mined motifs on the spine. */
module Skills {
  import opened Occurrences
  import opened Spine
  import opened SpineLaws
  import opened Episodes
  import opened Motifs
  import opened Negative
  import opened NegativeCounts
  import opened NegativeBook
  import Mining
  import ReplayGate
  import Sorting
  import Text

  const CANDIDATE := "skill-candidate"
  const SKILL := "skill"
  const SKILL_PUBLISHED := "skill-published"

  function MotifKey(steps: Motif): string {
    Text.Join(steps, "→")
  }

  function SubjectOf(key: string): string {
    "motif:" + key
  }

  function Newest(log: Log, tenant: string, key: string, kind: string, now: int): (ids: seq<int>)
    ensures |ids| <= 1
    ensures forall k :: 0 <= k < |ids| ==>
      StandingId(log, ids[k], ScopeOf(tenant, SubjectOf(key)), now) && OfKind(log, ids[k], [kind])
  {
    Recalled(log, ScopeOf(tenant, SubjectOf(key)), now, [kind], 1)
  }

  function CandidateRecord(tenant: string, c: Mining.Candidate): Record {
    var key := MotifKey(c.steps);
    Record(CANDIDATE, "candidate skill [" + (key + "] — support " + Text.Decimal(c.support) + " runs across "
             + Text.Decimal(|c.contexts|) + " goals"), [tenant, SubjectOf(key)], "observed",
           ["trace-corpus:" + Text.Decimal(c.support) + "-runs"], Skill(c.steps, c.support, c.contexts),
           "skill.induction", None)
  }

  /** A motif's fresh candidacy supersedes its prior one. */
  function Induced(log: Log, tenant: string, c: Mining.Candidate, now: int): Log {
    AdmitTo(log, CandidateRecord(tenant, c), Elements(Newest(log, tenant, MotifKey(c.steps), CANDIDATE, now)))
  }

  function InducedAll(log: Log, tenant: string, cs: seq<Mining.Candidate>, now: int): Log {
    if cs == [] then log
    else Induced(InducedAll(log, tenant, cs[..|cs| - 1], now), tenant, cs[|cs| - 1], now)
  }

  predicate MeetsThresholds(v: Value) {
    v.Skill? && v.support >= MIN_SUPPORT && |v.contexts| >= MIN_CONTEXTS
  }

  function SkillRecord(tenant: string, key: string, v: Value, provenance: seq<string>, candidate: int): Record
    requires v.Skill?
  {
    Record(SKILL, "skill [" + (key + "] — verified across " + Text.Decimal(|v.contexts|) + " goals, "
             + Text.Decimal(v.support) + " runs"), [tenant, SubjectOf(key)], "verified",
           provenance + ["memory:" + (if candidate < 0 then "?" else Text.Decimal(candidate))], v,
           "skill.induction", None)
  }

  /** The candidate that may be promoted now, if any. */
  function Promotable(log: Log, tenant: string, key: string, now: int): Option<int> {
    var found := Newest(log, tenant, key, CANDIDATE, now);
    if found != [] && MeetsThresholds(ValueOf(log, found[0])) then Some(found[0]) else None
  }

  function Promoted(log: Log, tenant: string, key: string, now: int): Log {
    match Promotable(log, tenant, key, now)
    case None => log
    case Some(id) =>
      AdmitTo(log, SkillRecord(tenant, key, log[id - 1].value, log[id - 1].provenance, id), {id})
  }

  // ---- As the code runs them ----

  method Induce(spine: MemorySpine, runs: seq<Run>, tenant: string, now: int)
    returns (candidates: seq<Mining.Candidate>)
    modifies spine
    ensures spine.rows == InducedAll(old(spine.rows), tenant, candidates, now)
    ensures forall m: Motif ::
      Mining.Lists(candidates, m) <==> Mining.Minable(m) && Support(VerifiedSequences(runs), m) >= 2
    ensures forall c <- candidates :: Mined(runs, Skill(c.steps, c.support, c.contexts))
  {
    candidates := Mining.MineCandidates(runs);
    var log := spine.rows;
    for n := 0 to |candidates|
      invariant spine.rows == InducedAll(log, tenant, candidates[..n], now)
    {
      var c := candidates[n];
      assert candidates[..n + 1][..n] == candidates[..n];
      CandidateIsAdmissible(tenant, c);
      hide Objection, AdmitTo, CandidateRecord;
      var prior := spine.Recall([tenant, SubjectOf(MotifKey(c.steps))], now, [CANDIDATE], 1);
      var _ := spine.Admit(CandidateRecord(tenant, c), prior);
    }
    assert candidates[..|candidates|] == candidates;
  }

  lemma {:induction false} CandidateIsAdmissible(tenant: string, c: Mining.Candidate)
    ensures Objection(CandidateRecord(tenant, c)).None?
  {
    Text.StripKeepsFirst(CandidateRecord(tenant, c).statement);
  }

  method Promote(spine: MemorySpine, tenant: string, key: string, now: int) returns (skill: Option<int>)
    modifies spine
    ensures spine.rows == Promoted(old(spine.rows), tenant, key, now)
    ensures skill == if Promotable(old(spine.rows), tenant, key, now).None? then None else Some(|old(spine.rows)| + 1)
  {
    var log := spine.rows;
    var found := spine.Recall([tenant, SubjectOf(key)], now, [CANDIDATE], 1);
    assert found == Newest(log, tenant, key, CANDIDATE, now);
    hide Newest, MeetsThresholds, Objection, AdmitTo, SkillRecord;
    if found == [] || !MeetsThresholds(ValueOf(log, found[0])) {
      return None;
    }
    var id := found[0];
    assert StandingId(log, id, ScopeOf(tenant, SubjectOf(key)), now);
    hide ScopeOf, SubjectOf, StandingId;
    MeetingIsSkill(log[id - 1].value);
    SkillIsAdmissible(tenant, key, log[id - 1].value, log[id - 1].provenance, id);
    assert Elements([id]) == {id};
    var admitted := spine.Admit(SkillRecord(tenant, key, log[id - 1].value, log[id - 1].provenance, id), [id]);
    return Some(admitted.value);
  }

  /** The newest standing candidacy of the motif was seen in at least five runs, of at least three goals. */
  predicate Promises(log: Log, tenant: string, key: string, now: int) {
    exists id <- Newest(log, tenant, key, "skill-candidate", now) ::
      var v := log[id - 1].value; v.Skill? && v.support >= 5 && |v.contexts| >= 3
  }

  lemma {:induction false} PromotableExactly(log: Log, tenant: string, key: string, now: int)
    ensures Promotable(log, tenant, key, now).Some? <==> Promises(log, tenant, key, now)
  {
    var found := Newest(log, tenant, key, CANDIDATE, now);
    assert found != [] ==> StandingId(log, found[0], ScopeOf(tenant, SubjectOf(key)), now) && found[0] in found;
    assert forall id <- found :: id == found[0];
    hide Newest, ScopeOf, SubjectOf;
  }

  lemma {:induction false} MeetingIsSkill(v: Value)
    ensures MeetsThresholds(v) ==> v.Skill?
  {
  }

  lemma {:induction false} SkillIsAdmissible(tenant: string, key: string, v: Value, provenance: seq<string>, id: int)
    requires v.Skill?
    ensures Objection(SkillRecord(tenant, key, v, provenance, id)).None?
  {
    Text.StripKeepsFirst(SkillRecord(tenant, key, v, provenance, id).statement);
  }

  // ---- Publication ----

  function StepsOf(v: Value): Motif {
    if v.Skill? then v.steps else []
  }

  /** The words of the failed bars; their wording carries no decision. */
  function ReasonsText(reasons: seq<ReplayGate.Reason>): string {
    Text.Join(seq(|reasons|, i requires 0 <= i < |reasons| =>
      match reasons[i]
      case Contradicted(c, a) => "contradiction rate " + Text.Decimal(c) + "/" + Text.Decimal(a)
      case NotClosed(longer) => "not closed: " + MotifKey(longer)
      case OrderInsignificant(step) => "order-insignificant at step " + Text.Decimal(step)), "; ")
  }

  const GATE_FAILED := "replay gate: "

  function GateReport(reasons: seq<ReplayGate.Reason>, skill: nat): Report {
    Report(GATE_FAILED + ReasonsText(reasons), [], ["memory:" + Text.Decimal(skill)], ["corpus grew"])
  }

  function PublishedRecord(tenant: string, key: string, skill: nat, listing: string, v: Value): Record {
    Record(SKILL_PUBLISHED, "skill [" + (key + "] published as a marketplace bundle"), [tenant, SubjectOf(key)],
           "verified", ["memory:" + Text.Decimal(skill), "listing:" + listing], v, "skill.induction", None)
  }

  lemma {:induction false} PublishedIsAdmissible(tenant: string, key: string, skill: nat, listing: string, v: Value)
    ensures Objection(PublishedRecord(tenant, key, skill, listing, v)).None?
  {
    Text.StripKeepsFirst(PublishedRecord(tenant, key, skill, listing, v).statement);
  }

  /** Without a promoted skill nothing is written; a failed gate is remembered against the motif; a
      passed one is recorded with its listing. */
  function Publication(log: Log, tenant: string, key: string, reasons: seq<ReplayGate.Reason>, listing: string,
                       now: int): Log {
    var found := Newest(log, tenant, key, SKILL, now);
    if found == [] then log
    else if reasons == [] then
      AdmitTo(log, PublishedRecord(tenant, key, found[0], listing, ValueOf(log, found[0])), {})
    else FailureRecorded(log, tenant, SubjectOf(key), GateReport(reasons, found[0]), now)
  }

  ghost predicate Publishable(log: Log, runs: seq<Run>, tenant: string, key: string, now: int) {
    var found := Newest(log, tenant, key, SKILL, now);
    found != [] && ReplayGate.Passes(runs, StepsOf(ValueOf(log, found[0])))
  }

  /** Publication asks the gate again, over the corpus as it stands. */
  method Publish(spine: MemorySpine, runs: seq<Run>, tenant: string, key: string, listing: string, now: int)
    returns (published: bool, reasons: seq<ReplayGate.Reason>)
    modifies spine
    ensures published <==> Publishable(old(spine.rows), runs, tenant, key, now)
    ensures published ==> reasons == []
    ensures spine.rows == Publication(old(spine.rows), tenant, key, reasons, listing, now)
  {
    var log := spine.rows;
    var found := spine.Recall([tenant, SubjectOf(key)], now, [SKILL], 1);
    assert found == Newest(log, tenant, key, SKILL, now);
    hide Newest, Objection, AdmitTo, PublishedRecord, GateReport, FailureRecorded, ReplayGate.Passes;
    if found == [] {
      return false, [];
    }
    assert StandingId(log, found[0], ScopeOf(tenant, SubjectOf(key)), now);
    hide ScopeOf, SubjectOf, Standing;
    var value := ValueOf(log, found[0]);
    var passed;
    passed, reasons := ReplayGate.Gate(runs, StepsOf(value));
    if !passed {
      var _ := RecordFailure(spine, tenant, SubjectOf(key), GateReport(reasons, found[0]), now);
      return false, reasons;
    }
    PublishedIsAdmissible(tenant, key, found[0], listing, value);
    assert Elements([]) == {};
    var _ := spine.Admit(PublishedRecord(tenant, key, found[0], listing, value), []);
    return true, [];
  }

  // ---- A failed gate becomes negative knowledge ----

  /** Whatever bars failed, the failure's mechanism is the gate itself, so failures accumulate. */
  lemma {:induction false} GateIsTheMechanism(reasons: seq<ReplayGate.Reason>, skill: nat)
    ensures MechanismOf(GateReport(reasons, skill).problem) == "replay gate"
  {
    hide ReasonsText;
    var problem := GATE_FAILED + ReasonsText(reasons);
    Text.StripKeepsPrefix(problem, 12);
    var whole := Text.Strip(problem);
    assert whole[..12] == "replay gate:" && forall i :: 0 <= i < 12 ==> whole[i] == whole[..12][i];
    BeforeKeepsPrefix(whole, '\n', 12);
    var head := Before(whole, '\n');
    assert head[11] == head[..12][11] == ':' && forall i :: 0 <= i < 11 ==> head[i] == head[..12][i];
    BeforeStopsAt(head, ':', 11);
    assert Before(head, ':') == "replay gate";
    Text.StripKeepsPrefix("replay gate", 11);
    assert Text.Lower("replay gate") == "replay gate";
  }

  lemma {:induction false} BeforeKeepsPrefix(s: string, stop: char, n: nat)
    requires n <= |s| && forall i :: 0 <= i < n ==> s[i] != stop
    ensures |Before(s, stop)| >= n && Before(s, stop)[..n] == s[..n]
  {
    if n > 0 {
      BeforeKeepsPrefix(s[1..], stop, n - 1);
      assert s[..n] == [s[0]] + s[1..][..n - 1];
    }
  }

  lemma {:induction false} BeforeStopsAt(s: string, stop: char, n: nat)
    requires n < |s| && s[n] == stop && forall i :: 0 <= i < n ==> s[i] != stop
    ensures Before(s, stop) == s[..n]
  {
    if n > 0 {
      BeforeStopsAt(s[1..], stop, n - 1);
      assert s[..n] == [s[0]] + s[1..][..n - 1];
    }
  }

  /** Once a gate has failed on a motif, and however much else was written since, a publication that fails
      the gate blocks the next attempt on the motif, if and only if its context does not say that the
      corpus grew. */
  lemma {:induction false} TwoFailedGatesBlock(hs: seq<Happening>, log: Log, tenant: string, key: string,
      reasons: seq<ReplayGate.Reason>, listing: string, context: Pairs, now: int, later: int)
    requires Runs(hs, tenant, SubjectOf(key), log) && Few(hs) && |Mechanisms(hs)| <= RECALLED_FAILURES
    requires InView(log, ScopeOf(tenant, SubjectOf(key)), now, RECALLED_FAILURES)
    requires Recordings(hs, "replay gate") >= 1 && reasons != [] && Newest(log, tenant, key, SKILL, now) != []
    ensures var log' := Publication(log, tenant, key, reasons, listing, now);
      Checked(log', tenant, SubjectOf(key), context, later).blocked <==> !Reopens("corpus grew", context)
  {
    hide *;
    var skill := Newest(log, tenant, key, SKILL, now)[0];
    FailedPublication(log, tenant, key, reasons, listing, now);
    GateIsTheMechanism(reasons, skill);
    BookIsKept(hs, tenant, SubjectOf(key), log);
    BookTells(hs);
    PriorCount(log, tenant, SubjectOf(key), "replay gate", now, hs, Book(hs));
    RecordingBlocksExactly(log, tenant, SubjectOf(key), GateReport(reasons, skill), context, now, later);
    GateRepeats(reasons, skill, context);
  }

  lemma {:induction false} FailedPublication(log: Log, tenant: string, key: string, reasons: seq<ReplayGate.Reason>,
                                             listing: string, now: int)
    requires reasons != [] && Newest(log, tenant, key, SKILL, now) != []
    ensures Newest(log, tenant, key, SKILL, now)[0] >= 0
    ensures Publication(log, tenant, key, reasons, listing, now)
      == FailureRecorded(log, tenant, SubjectOf(key), GateReport(reasons, Newest(log, tenant, key, SKILL, now)[0]), now)
  {
    hide FailureRecorded, GateReport;
  }

  lemma {:induction false} GateRepeats(reasons: seq<ReplayGate.Reason>, skill: nat, context: Pairs)
    ensures Repeats(GateReport(reasons, skill), context) <==> !Reopens("corpus grew", context)
  {
    hide ReasonsText, Reopens;
    var reopen := GateReport(reasons, skill).reopen;
    assert reopen == ["corpus grew"] && "corpus grew" in reopen;
  }

  // ---- The reader route assembly consults ----

  /** A promoted skill, the newest standing under the key of some motif that runs in the proposed steps. */
  ghost predicate Applicable(log: Log, tenant: string, steps: seq<string>, now: int, id: int) {
    exists m: Motif :: Mining.Minable(m) && Occurs(steps, m) && id in Newest(log, tenant, MotifKey(m), SKILL, now)
  }

  ghost predicate AllApplicable(log: Log, tenant: string, steps: seq<string>, now: int, hits: seq<int>) {
    forall id <- hits :: Applicable(log, tenant, steps, now, id)
  }

  /** The skill of the window of k steps from i, if there is one, is among the hits. */
  ghost predicate Read(log: Log, tenant: string, steps: seq<string>, now: int, k: int, i: int, hits: seq<int>) {
    forall id <- Newest(log, tenant, MotifKey(Mining.Window(steps, i, k)), SKILL, now) :: id in hits
  }

  ghost predicate ReadUpTo(log: Log, tenant: string, steps: seq<string>, now: int, k: int, n: int, hits: seq<int>) {
    forall i :: 0 <= i < n ==> Read(log, tenant, steps, now, k, i, hits)
  }

  ghost predicate ReadAll(log: Log, tenant: string, steps: seq<string>, now: int, k: int, hits: seq<int>) {
    ReadUpTo(log, tenant, steps, now, k, |steps| - k + 1, hits)
  }

  ghost predicate Includes(hits: seq<int>, more: seq<int>) {
    forall id <- hits :: id in more
  }

  function LongestMotif(steps: seq<string>): nat {
    if MAX_MOTIF_LEN <= |steps| then MAX_MOTIF_LEN else |steps|
  }

  /** Exactly the newest standing skill under the key of each window of two to five steps, each listed
      once. */
  method SkillsFor(spine: MemorySpine, tenant: string, steps: seq<string>, now: int) returns (hits: seq<int>)
    ensures forall id :: id in hits <==> Applicable(spine.rows, tenant, steps, now, id)
    ensures Sorting.Unrepeated(hits)
  {
    hits := [];
    hide Applicable, ReadAll, LongestMotif;
    var size := MIN_MOTIF_LEN;
    while size <= LongestMotif(steps)
      invariant MIN_MOTIF_LEN <= size
      invariant AllApplicable(spine.rows, tenant, steps, now, hits) && Sorting.Unrepeated(hits)
      invariant forall k :: MIN_MOTIF_LEN <= k < size && k <= LongestMotif(steps) ==>
        ReadAll(spine.rows, tenant, steps, now, k, hits)
      decreases LongestMotif(steps) - size
    {
      var before := hits;
      hits := SkillsOfSize(spine, tenant, steps, now, size, before);
      forall k | MIN_MOTIF_LEN <= k < size && k <= LongestMotif(steps)
        ensures ReadAll(spine.rows, tenant, steps, now, k, hits)
      {
        ReadAllGrows(spine.rows, tenant, steps, now, k, before, hits);
      }
      size := size + 1;
    }
    forall id | Applicable(spine.rows, tenant, steps, now, id) ensures id in hits {
      ApplicableIsRead(spine.rows, tenant, steps, now, hits, id);
    }
  }

  method SkillsOfSize(spine: MemorySpine, tenant: string, steps: seq<string>, now: int, size: int, before: seq<int>)
    returns (hits: seq<int>)
    requires MIN_MOTIF_LEN <= size <= LongestMotif(steps)
    requires AllApplicable(spine.rows, tenant, steps, now, before) && Sorting.Unrepeated(before)
    ensures AllApplicable(spine.rows, tenant, steps, now, hits) && Sorting.Unrepeated(hits)
    ensures Includes(before, hits) && ReadAll(spine.rows, tenant, steps, now, size, hits)
  {
    hits := before;
    var log := spine.rows;
    for start := 0 to |steps| - size + 1
      invariant Collected(log, tenant, steps, now, size, start, before, hits)
    {
      var key := MotifKey(Mining.Window(steps, start, size));
      var found := spine.Recall([tenant, SubjectOf(key)], now, [SKILL], 1);
      NewestIsRecalled(log, tenant, key, SKILL, now);
      ghost var was := hits;
      if found != [] && found[0] !in hits {
        hits := hits + [found[0]];
      }
      HitsGrow(log, tenant, steps, now, size, start, was, found);
      CollectMore(log, tenant, steps, now, size, start, before, was, hits);
      hide *;
    }
  }

  ghost predicate Collected(log: Log, tenant: string, steps: seq<string>, now: int, size: int, n: int, before: seq<int>,
                            hits: seq<int>) {
    && AllApplicable(log, tenant, steps, now, hits) && Sorting.Unrepeated(hits)
    && Includes(before, hits) && ReadUpTo(log, tenant, steps, now, size, n, hits)
  }

  lemma {:induction false} HitsGrow(log: Log, tenant: string, steps: seq<string>, now: int, size: nat, n: nat,
                                    hits: seq<int>, found: seq<int>)
    requires AllApplicable(log, tenant, steps, now, hits) && Sorting.Unrepeated(hits)
    requires MIN_MOTIF_LEN <= size <= LongestMotif(steps) && n + size <= |steps| && |found| <= 1
    requires found == Newest(log, tenant, MotifKey(Mining.Window(steps, n, size)), SKILL, now)
    ensures var more := if found != [] && found[0] !in hits then hits + [found[0]] else hits;
      && AllApplicable(log, tenant, steps, now, more) && Sorting.Unrepeated(more)
      && Includes(hits, more) && Read(log, tenant, steps, now, size, n, more)
  {
    hide Newest, MotifKey, Mining.Window, Applicable, AllApplicable, Sorting.Unrepeated;
    if found != [] {
      WindowApplies(log, tenant, steps, now, n, size, found[0]);
      MoreApplicable(log, tenant, steps, now, hits, found[0]);
      Sorting.AppendUnrepeated(hits, found[0]);
    }
  }

  lemma {:induction false} CollectMore(log: Log, tenant: string, steps: seq<string>, now: int, size: int, n: nat,
                                       before: seq<int>, hits: seq<int>, more: seq<int>)
    requires Collected(log, tenant, steps, now, size, n, before, hits)
    requires AllApplicable(log, tenant, steps, now, more) && Sorting.Unrepeated(more)
    requires Includes(hits, more) && Read(log, tenant, steps, now, size, n, more)
    ensures Collected(log, tenant, steps, now, size, n + 1, before, more)
  {
    hide Newest, MotifKey, Mining.Window, AllApplicable, Sorting.Unrepeated, Read;
    ReadUpToGrows(log, tenant, steps, now, size, n, hits, more);
  }

  lemma {:induction false} MoreApplicable(log: Log, tenant: string, steps: seq<string>, now: int, hits: seq<int>,
                                          id: int)
    requires AllApplicable(log, tenant, steps, now, hits) && Applicable(log, tenant, steps, now, id)
    ensures AllApplicable(log, tenant, steps, now, hits + [id])
  {
    hide Applicable;
  }

  lemma {:induction false} ReadUpToGrows(log: Log, tenant: string, steps: seq<string>, now: int, k: int, n: int,
                                         hits: seq<int>, more: seq<int>)
    requires ReadUpTo(log, tenant, steps, now, k, n, hits) && Includes(hits, more)
    ensures ReadUpTo(log, tenant, steps, now, k, n, more)
  {
    hide Newest, MotifKey, Mining.Window;
    forall i | 0 <= i < n ensures Read(log, tenant, steps, now, k, i, more) {
      assert Read(log, tenant, steps, now, k, i, hits);
    }
  }

  lemma {:induction false} ReadAllGrows(log: Log, tenant: string, steps: seq<string>, now: int, k: int,
                                        hits: seq<int>, more: seq<int>)
    requires ReadAll(log, tenant, steps, now, k, hits) && Includes(hits, more)
    ensures ReadAll(log, tenant, steps, now, k, more)
  {
    ReadUpToGrows(log, tenant, steps, now, k, |steps| - k + 1, hits, more);
  }

  lemma {:induction false} NewestIsRecalled(log: Log, tenant: string, key: string, kind: string, now: int)
    ensures Newest(log, tenant, key, kind, now) == Recalled(log, multiset([tenant, SubjectOf(key)]), now, [kind], 1)
    ensures |Newest(log, tenant, key, kind, now)| <= 1
  {
  }

  lemma {:induction false} WindowApplies(log: Log, tenant: string, steps: seq<string>, now: int, start: nat, size: nat,
                                         id: int)
    requires start + size <= |steps| && MIN_MOTIF_LEN <= size <= MAX_MOTIF_LEN
    requires id in Newest(log, tenant, MotifKey(Mining.Window(steps, start, size)), SKILL, now)
    ensures Applicable(log, tenant, steps, now, id)
  {
    hide Newest, MotifKey;
    assert StartsAt(steps, Mining.Window(steps, start, size), start);
  }

  lemma {:induction false} ApplicableIsRead(log: Log, tenant: string, steps: seq<string>, now: int, hits: seq<int>,
                                            id: int)
    requires Applicable(log, tenant, steps, now, id)
    requires forall k :: MIN_MOTIF_LEN <= k <= LongestMotif(steps) ==> ReadAll(log, tenant, steps, now, k, hits)
    ensures id in hits
  {
    hide Newest, MotifKey;
    var m: Motif :| Mining.Minable(m) && Occurs(steps, m) && id in Newest(log, tenant, MotifKey(m), SKILL, now);
    var i :| StartsAt(steps, m, i);
    assert Mining.Window(steps, i, |m|) == m;
    assert ReadAll(log, tenant, steps, now, |m|, hits);
    assert Read(log, tenant, steps, now, |m|, i, hits);
  }

  // ---- Promotion is earned ----

  /** The value is what mining the corpus says of its motif. */
  ghost predicate Mined(runs: seq<Run>, v: Value) {
    && v.Skill? && v.support == Support(VerifiedSequences(runs), v.steps)
    && v.contexts == Contexts(VerifiedSequences(runs), v.steps)
  }

  datatype Turn =
    | Inducing(runs: seq<Run>, tenant: string, candidate: Mining.Candidate, now: int)
    | Promoting(tenant: string, key: string, now: int)
    | Else(write: Write)

  ghost predicate FairTurn(log: Log, t: Turn) {
    match t
    case Inducing(runs, _, c, _) => Mined(runs, Skill(c.steps, c.support, c.contexts))
    case Promoting(_, _, _) => true
    case Else(w) => Allowed(log, w) && (w.Admission? ==> w.record.memoryType !in [CANDIDATE, SKILL])
  }

  function TurnTaken(log: Log, t: Turn): Log {
    match t
    case Inducing(_, tenant, c, now) => Induced(log, tenant, c, now)
    case Promoting(tenant, key, now) => Promoted(log, tenant, key, now)
    case Else(w) => Apply(log, w)
  }

  ghost predicate Turns(from: Log, ts: seq<Turn>, to: Log)
    decreases |ts|
  {
    if ts == [] then from == to else FairTurn(from, ts[0]) && Turns(TurnTaken(from, ts[0]), ts[1..], to)
  }

  ghost predicate MinedFrom(corpora: set<seq<Run>>, v: Value) {
    exists runs :: runs in corpora && Mined(runs, v)
  }

  /** Every candidate was mined from one of the corpora, and every skill also meets the bars. */
  ghost predicate Earned(log: Log, corpora: set<seq<Run>>) {
    forall i :: 0 <= i < |log| ==>
      && (log[i].memoryType in [CANDIDATE, SKILL] ==> MinedFrom(corpora, log[i].value))
      && (log[i].memoryType == SKILL ==> MeetsThresholds(log[i].value))
  }

  function Corpora(ts: seq<Turn>): set<seq<Run>> {
    set t | t in ts && t.Inducing? :: t.runs
  }

  lemma {:induction false} AdmitKeepsEarned(log: Log, r: Record, supersedes: set<int>, corpora: set<seq<Run>>)
    requires Earned(log, corpora)
    requires r.memoryType in [CANDIDATE, SKILL] ==> MinedFrom(corpora, r.value)
    requires r.memoryType == SKILL ==> MeetsThresholds(r.value)
    ensures Earned(AdmitTo(log, r, supersedes), corpora)
  {
    hide MinedFrom, MeetsThresholds, Text.Strip;
  }

  lemma {:induction false} TurnKeepsEarned(log: Log, t: Turn, corpora: set<seq<Run>>)
    requires Earned(log, corpora) && FairTurn(log, t) && (t.Inducing? ==> t.runs in corpora)
    ensures Earned(TurnTaken(log, t), corpora)
  {
    match t
    case Inducing(runs, tenant, c, now) =>
      AdmitKeepsEarned(log, CandidateRecord(tenant, c),
        Elements(Newest(log, tenant, MotifKey(c.steps), CANDIDATE, now)), corpora);
    case Promoting(tenant, key, now) =>
      var chosen := Promotable(log, tenant, key, now);
      if chosen.Some? {
        var row := log[chosen.value - 1];
        var skill := SkillRecord(tenant, key, row.value, row.provenance, chosen.value);
        AdmitKeepsEarned(log, skill, {chosen.value}, corpora);
      }
    case Else(w) =>
      if w.Admission? {
        AdmitKeepsEarned(log, w.record, w.supersedes, corpora);
      } else {
        hide MinedFrom, MeetsThresholds;
      }
  }

  /** Over any run of inductions, promotions and other writes, every skill on the spine was mined
      from one of the corpora induced from: at least five verified sequences across at least three
      distinct goals contain its motif. */
  lemma {:induction false} SkillsAreEarned(from: Log, ts: seq<Turn>, to: Log, corpora: set<seq<Run>>)
    requires Earned(from, corpora) && Turns(from, ts, to) && Corpora(ts) <= corpora
    ensures Earned(to, corpora)
    decreases |ts|
  {
    if ts != [] {
      hide Earned, FairTurn, TurnTaken;
      assert ts[0].Inducing? ==> ts[0].runs in Corpora(ts);
      TurnKeepsEarned(from, ts[0], corpora);
      assert Corpora(ts[1..]) <= Corpora(ts);
      SkillsAreEarned(TurnTaken(from, ts[0]), ts[1..], to, corpora);
    }
  }

  /** So whatever route assembly is offered was mined from a corpus and met the bars. */
  lemma {:induction false} ApplicableSkillsAreEarned(log: Log, corpora: set<seq<Run>>, tenant: string,
                                                     steps: seq<string>, now: int, id: int)
    requires Earned(log, corpora) && Applicable(log, tenant, steps, now, id)
    ensures 1 <= id <= |log| && MinedFrom(corpora, log[id - 1].value) && MeetsThresholds(log[id - 1].value)
  {
    hide MinedFrom, MeetsThresholds, MotifKey;
    var m: Motif :| Mining.Minable(m) && Occurs(steps, m) && id in Newest(log, tenant, MotifKey(m), SKILL, now);
    assert StandingId(log, id, ScopeOf(tenant, SubjectOf(MotifKey(m))), now) && OfKind(log, id, [SKILL]);
  }
}
