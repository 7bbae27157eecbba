/** The ledger and the spine side by side over whole runs of every writer. */
module LedgerMirror {
  import opened Spine
  import opened Episodes
  import opened Negative
  import opened Ledger
  import opened Handoffs
  import opened SpineRuns
  import Skills

  /** The ledger's history after a run: its own attempts, of the statuses it accepts. */
  function AttemptsOf(deeds: seq<Deed>): seq<Attempt> {
    if deeds == [] then [] else
    var d, before := deeds[|deeds| - 1], AttemptsOf(deeds[..|deeds| - 1]);
    if Recorded(d) then before + [d.attempt] else before
  }

  predicate Recorded(d: Deed) {
    d.RecordAttempt? && d.attempt.status in [PUBLISHED, REFUSED, DECLINED]
  }

  // ---- No other writer touches a lesson ----

  ghost predicate LessonsKept(log: Log, log': Log, scope: Scope) {
    SpineLessons(log', scope) == SpineLessons(log, scope)
  }

  lemma {:induction false} RecalledAreOfKind(log: Log, ids: seq<int>, kind: string)
    requires kind != LESSON && forall id <- ids :: 1 <= id <= |log| && OfKind(log, id, [kind])
    ensures forall id <- Elements(ids) :: 1 <= id <= |log| && log[id - 1].memoryType != LESSON
  {
  }

  lemma {:induction false} SummariesAreSummaries(log: Log, t: string, s: string, now: int)
    ensures forall id <- SummaryIds(log, t, s, now) :: 1 <= id <= |log| && OfKind(log, id, [SUMMARY])
  {
  }

  lemma {:induction false} PriorsAreFailures(log: Log, t: string, s: string, mechanism: string, now: int)
    ensures forall id <- Prior(log, t, s, mechanism, now) :: 1 <= id <= |log| && OfKind(log, id, [FAILURE])
  {
  }

  lemma {:induction false} NewestIsOfKind(log: Log, t: string, key: string, kind: string, now: int)
    ensures forall id <- Skills.Newest(log, t, key, kind, now) :: 1 <= id <= |log| && OfKind(log, id, [kind])
  {
  }

  lemma {:induction false} FailuresKeepLessons(log: Log, t: string, s: string, f: Report, now: int, scope: Scope)
    ensures LessonsKept(log, FailureRecorded(log, t, s, f, now), scope)
  {
    var mechanism, value := MechanismOf(f.problem), ReportValue(log, t, s, f, now);
    var prior := Prior(log, t, s, mechanism, now);
    PriorsAreFailures(log, t, s, mechanism, now);
    RecalledAreOfKind(log, prior, FAILURE);
    hide AdmitTo, Prior, MechanismOf, ReportValue, SpineLessons, Elements;
    AdmittingKeepsLessons(log, GoalRecord(t, s, f.problem, f.sources, value), Elements(prior), scope);
    AdmittingKeepsLessons(GoalRecorded(log, t, s, f, now), TwinRecord(t, s, f.problem, f.sources, value), {}, scope);
  }

  lemma {:induction false} SummaryKeepsLessons(log: Log, t: string, s: string, now: int, nowPrior: int, limit: int,
                                               scope: Scope)
    ensures LessonsKept(log, Summarized(log, t, s, now, nowPrior, limit), scope)
  {
    var ids := EpisodeIds(log, t, s, now, limit);
    SummariesAreSummaries(log, t, s, nowPrior);
    RecalledAreOfKind(log, SummaryIds(log, t, s, nowPrior), SUMMARY);
    if ids != [] {
      assert SummaryRecord(log, t, s, ids).memoryType == SUMMARY;
      hide AdmitTo, SpineLessons, Elements, SummaryIds, EpisodeIds, SummaryRecord;
      AdmittingKeepsLessons(log, SummaryRecord(log, t, s, ids), Elements(SummaryIds(log, t, s, nowPrior)), scope);
    }
  }

  lemma {:induction false} ResolutionKeepsLessons(log: Log, t: string, s: string, winner: int, resolver: string,
                                                  sources: seq<string>, scope: Scope)
    ensures LessonsKept(log, ResolvedLog(log, t, s, winner, resolver, sources), scope)
  {
    var decision := DecisionRecord(log, t, s, winner, resolver, sources);
    var decided := AdmitTo(log, decision, {});
    assert decision.memoryType != LESSON;
    hide AdmitTo, CloseScope, SpineLessons, DecisionRecord, ScopeOf;
    AdmittingKeepsLessons(log, decision, {}, scope);
    ClosingKeepsLessons(decided, ScopeOf(t, s), PROPOSAL, |decided|, scope);
  }

  lemma {:induction false} SkillsKeepLessons(log: Log, d: Deed, scope: Scope)
    requires d.Induce? || d.Promote? || d.Publish?
    ensures LessonsKept(log, Done(log, d), scope)
  {
    hide AdmitTo, SpineLessons, Elements, Skills.Newest, FailureRecorded;
    match d
    case Induce(t, c, now) =>
      var prior := Skills.Newest(log, t, Skills.MotifKey(c.steps), Skills.CANDIDATE, now);
      NewestIsOfKind(log, t, Skills.MotifKey(c.steps), Skills.CANDIDATE, now);
      RecalledAreOfKind(log, prior, Skills.CANDIDATE);
      AdmittingKeepsLessons(log, Skills.CandidateRecord(t, c), Elements(prior), scope);
    case Promote(t, key, now) =>
      PromotionKeepsLessons(log, t, key, now, scope);
    case Publish(t, key, reasons, listing, now) =>
      var found := Skills.Newest(log, t, key, Skills.SKILL, now);
      if found != [] {
        var value := ValueOf(log, found[0]);
        AdmittingKeepsLessons(log, Skills.PublishedRecord(t, key, found[0], listing, value), {}, scope);
        FailuresKeepLessons(log, t, Skills.SubjectOf(key), Skills.GateReport(reasons, found[0]), now, scope);
      }
  }

  lemma {:induction false} PromotionKeepsLessons(log: Log, t: string, key: string, now: int, scope: Scope)
    ensures LessonsKept(log, Skills.Promoted(log, t, key, now), scope)
  {
    var chosen, found := Skills.Promotable(log, t, key, now), Skills.Newest(log, t, key, Skills.CANDIDATE, now);
    NewestIsOfKind(log, t, key, Skills.CANDIDATE, now);
    if chosen.Some? {
      assert chosen.value == found[0] && found[0] in found;
      var row := log[chosen.value - 1];
      var skill := Skills.SkillRecord(t, key, row.value, row.provenance, chosen.value);
      assert skill.memoryType != LESSON && row.memoryType != LESSON;
      hide AdmitTo, SpineLessons, Skills.SkillRecord, Skills.Newest;
      AdmittingKeepsLessons(log, skill, {chosen.value}, scope);
    }
  }

  lemma {:induction false} OthersKeepLessons(log: Log, d: Deed, scope: Scope)
    requires !d.RecordAttempt?
    ensures LessonsKept(log, Done(log, d), scope)
  {
    hide AdmitTo, SpineLessons, Summarized, FailureRecorded, ResolvedLog, ResolutionObjection;
    match d
    case RecordEpisode(t, s, kind, objective, outcome, unresolved, decisions, sources) =>
      var r := EpisodeRecord(t, s, kind, objective, outcome, unresolved, decisions, sources);
      AdmittingKeepsLessons(log, r, {}, scope);
    case Summarize(t, s, now, nowPrior, limit) => SummaryKeepsLessons(log, t, s, now, nowPrior, limit, scope);
    case RecordFailure(t, s, report, now) => FailuresKeepLessons(log, t, s, report, now, scope);
    case HandOff(h, task) =>
      if h.baton.Baton? {
        AdmittingKeepsLessons(log, HandoffRecord(h, task), {}, scope);
      }
    case Propose(t, s, agent, statement, position, sources) =>
      AdmittingKeepsLessons(log, ProposalRecord(t, s, agent, statement, position, sources), {}, scope);
    case Resolve(t, s, winner, resolver, sources, now) =>
      ResolutionKeepsLessons(log, t, s, winner, resolver, sources, scope);
    case RecordVerdict(t, s, verifier, producer, verdict, concern, sources) =>
      AdmittingKeepsLessons(log, VerdictRecord(t, s, verifier, producer, verdict, concern, sources), {}, scope);
    case _ => SkillsKeepLessons(log, d, scope);
  }

  // ---- The mirror over a run ----

  ghost predicate MirrorsAfter(deeds: seq<Deed>, tenant: string, goalKey: string) {
    Mirrors(AllDone([], deeds), AttemptsOf(deeds), tenant, goalKey)
  }

  ghost predicate MirrorsAt(deeds: seq<Deed>, n: nat, tenant: string, goalKey: string)
    requires n <= |deeds|
  {
    MirrorsAfter(deeds[..n], tenant, goalKey)
  }

  /** Deed n is an attempt that swaps tenant and goal and touches lessons. */
  predicate ClashesAt(deeds: seq<Deed>, n: nat, tenant: string, goalKey: string)
    requires n < |deeds|
  {
    Recorded(deeds[n]) && Clashes(AttemptsOf(deeds[..n]), deeds[n].attempt, tenant, goalKey)
  }

  lemma {:induction false} DoneLast(log: Log, deeds: seq<Deed>, d: Deed)
    ensures AllDone(log, deeds + [d]) == Done(AllDone(log, deeds), d)
    decreases |deeds|
  {
    hide Done;
    if deeds == [] {
      assert [] + [d] == [d] && [d][1..] == [];
    } else {
      assert (deeds + [d])[1..] == deeds[1..] + [d];
      DoneLast(Done(log, deeds[0]), deeds[1..], d);
    }
  }

  lemma {:induction false} OneDeed(log: Log, attempts: seq<Attempt>, d: Deed, tenant: string, goalKey: string)
    requires Mirrors(log, attempts, tenant, goalKey)
    ensures Mirrors(Done(log, d), if Recorded(d) then attempts + [d.attempt] else attempts, tenant, goalKey)
      <==> !(Recorded(d) && Clashes(attempts, d.attempt, tenant, goalKey))
  {
    hide SpineLessons, Warnings, Stripped, Clashes, ScopeOf;
    if d.RecordAttempt? {
      hide Bridged;
      if Recorded(d) {
        RecordingKeepsMirror(log, attempts, d.attempt, d.id, d.provenance, tenant, goalKey);
      } else {
        NothingBridged(log, d.attempt, d.id, d.provenance);
      }
    } else {
      hide Done;
      OthersKeepLessons(log, d, ScopeOf(tenant, goalKey));
    }
  }

  lemma {:induction false} NothingBridged(log: Log, a: Attempt, id: nat, provenance: seq<string>)
    requires a.status !in [PUBLISHED, REFUSED, DECLINED]
    ensures Bridged(log, a, id, provenance) == log
  {
  }

  lemma {:induction false} OneMoreDeed(deeds: seq<Deed>, d: Deed, tenant: string, goalKey: string)
    requires MirrorsAfter(deeds, tenant, goalKey)
    ensures MirrorsAfter(deeds + [d], tenant, goalKey)
      <==> !(Recorded(d) && Clashes(AttemptsOf(deeds), d.attempt, tenant, goalKey))
  {
    hide Mirrors, AllDone, Done, Clashes, AttemptsOf, Recorded;
    AttemptsLast(deeds, d);
    DoneLast([], deeds, d);
    OneDeed(AllDone([], deeds), AttemptsOf(deeds), d, tenant, goalKey);
  }

  lemma {:induction false} NextDeed(deeds: seq<Deed>, n: nat, tenant: string, goalKey: string)
    requires n < |deeds| && MirrorsAt(deeds, n, tenant, goalKey)
    ensures MirrorsAt(deeds, n + 1, tenant, goalKey) <==> !ClashesAt(deeds, n, tenant, goalKey)
  {
    hide MirrorsAfter, Clashes, AttemptsOf, Recorded;
    assert deeds[..n + 1] == deeds[..n] + [deeds[n]];
    OneMoreDeed(deeds[..n], deeds[n], tenant, goalKey);
  }

  lemma {:induction false} AttemptsLast(deeds: seq<Deed>, d: Deed)
    ensures AttemptsOf(deeds + [d]) == if Recorded(d) then AttemptsOf(deeds) + [d.attempt] else AttemptsOf(deeds)
  {
    assert (deeds + [d])[..|deeds|] == deeds;
  }

  lemma {:induction false} StartsMirrored(deeds: seq<Deed>, tenant: string, goalKey: string)
    ensures MirrorsAt(deeds, 0, tenant, goalKey)
  {
    assert deeds[..0] == [];
  }

  lemma {:induction false} MirroredUpTo(deeds: seq<Deed>, n: nat, tenant: string, goalKey: string)
    requires n <= |deeds|
    ensures (forall k :: 0 <= k <= n ==> MirrorsAt(deeds, k, tenant, goalKey))
      <==> (forall k :: 0 <= k < n ==> !ClashesAt(deeds, k, tenant, goalKey))
    decreases n
  {
    hide MirrorsAt, ClashesAt;
    if n == 0 {
      StartsMirrored(deeds, tenant, goalKey);
    } else {
      MirroredUpTo(deeds, n - 1, tenant, goalKey);
      if MirrorsAt(deeds, n - 1, tenant, goalKey) {
        NextDeed(deeds, n - 1, tenant, goalKey);
      }
    }
  }

  /** From empty tables, over any run of all the writers of the spine, the spine's standing lessons are
      the ledger's open warnings of a goal, one for one, throughout the run, if and only if no attempt
      of the goal with tenant and goal swapped teaches, or publishes while the goal has warnings. */
  lemma {:induction false} MirrorHoldsExactly(deeds: seq<Deed>, tenant: string, goalKey: string)
    ensures (forall n :: 0 <= n <= |deeds| ==> MirrorsAt(deeds, n, tenant, goalKey))
      <==> (forall n :: 0 <= n < |deeds| ==> !ClashesAt(deeds, n, tenant, goalKey))
  {
    hide MirrorsAt, ClashesAt;
    MirroredUpTo(deeds, |deeds|, tenant, goalKey);
  }
}
