/** Every writer of the spine as a run of admissions and closings, so that the structural laws
    hold over any run of all of them together. */
module SpineRuns {
  import opened Spine
  import opened SpineLaws
  import opened Episodes
  import opened Negative
  import opened Ledger
  import opened Handoffs
  import Mining
  import ReplayGate
  import Skills

  datatype Deed =
    | RecordEpisode(tenant: string, subject: string, kind: string, objective: string, outcome: string,
                    unresolved: seq<string>, decisions: seq<string>, sources: seq<string>)
    | Summarize(tenant: string, subject: string, now: int, nowPrior: int, limit: int)
    | RecordFailure(tenant: string, subject: string, report: Report, now: int)
    | RecordAttempt(attempt: Attempt, id: nat, provenance: seq<string>)
    | HandOff(handoff: Handoff, task: string)
    | Propose(tenant: string, subject: string, agent: string, statement: string, position: string, sources: seq<string>)
    | Resolve(tenant: string, subject: string, winner: int, resolver: string, sources: seq<string>, now: int)
    | RecordVerdict(tenant: string, subject: string, verifier: string, producer: string, verdict: string,
                    concern: string, sources: seq<string>)
    | Induce(tenant: string, candidate: Mining.Candidate, now: int)
    | Promote(tenant: string, key: string, now: int)
    | Publish(tenant: string, key: string, reasons: seq<ReplayGate.Reason>, listing: string, now: int)

  /** What a writer leaves the log as. */
  function Done(log: Log, d: Deed): Log {
    match d
    case RecordEpisode(t, s, kind, objective, outcome, unresolved, decisions, sources) =>
      AdmitTo(log, EpisodeRecord(t, s, kind, objective, outcome, unresolved, decisions, sources), {})
    case Summarize(t, s, now, nowPrior, limit) => Summarized(log, t, s, now, nowPrior, limit)
    case RecordFailure(t, s, report, now) => FailureRecorded(log, t, s, report, now)
    case RecordAttempt(a, id, provenance) => Bridged(log, a, id, provenance)
    case HandOff(h, task) => if h.baton.Baton? then AdmitTo(log, HandoffRecord(h, task), {}) else log
    case Propose(t, s, agent, statement, position, sources) =>
      AdmitTo(log, ProposalRecord(t, s, agent, statement, position, sources), {})
    case Resolve(t, s, winner, resolver, sources, now) =>
      if ResolutionObjection(log, t, s, winner, resolver, now).None?
      then ResolvedLog(log, t, s, winner, resolver, sources) else log
    case RecordVerdict(t, s, verifier, producer, verdict, concern, sources) =>
      if verifier == producer || verdict !in ["pass", "block"] then log
      else AdmitTo(log, VerdictRecord(t, s, verifier, producer, verdict, concern, sources), {})
    case Induce(t, candidate, now) => Skills.Induced(log, t, candidate, now)
    case Promote(t, key, now) => Skills.Promoted(log, t, key, now)
    case Publish(t, key, reasons, listing, now) => Skills.Publication(log, t, key, reasons, listing, now)
  }

  ghost predicate Lawful(log: Log, log': Log) {
    Extends(log, log') && PointsForward(log')
  }

  lemma {:induction false} AdmitLawful(log: Log, r: Record, supersedes: set<int>)
    requires PointsForward(log) && forall id <- supersedes :: id <= |log|
    ensures Lawful(log, AdmitTo(log, r, supersedes))
  {
    AdmitExtends(log, r, supersedes);
    AdmitPointsForward(log, r, supersedes);
  }

  /** Closing by an existing row newer than everything open there. */
  lemma {:induction false} CloseLawful(log: Log, scope: Scope, memoryType: string)
    requires PointsForward(log) && log != []
    ensures Lawful(log, CloseScope(log, scope, memoryType, |log|))
  {
    WriteKeepsLaws(log, Closing(scope, memoryType));
  }

  lemma {:induction false} LawfulThen(a: Log, b: Log, c: Log)
    requires Lawful(a, b) && Lawful(b, c)
    ensures Lawful(a, c)
  {
    ExtendsTransitive(a, b, c);
  }

  lemma {:induction false} DeedIsLawful(log: Log, d: Deed)
    requires PointsForward(log)
    ensures Lawful(log, Done(log, d))
  {
    hide AdmitTo, CloseScope, PointsForward, Extends, Recalled, ScopeOf;
    match d
    case RecordEpisode(t, s, kind, objective, outcome, unresolved, decisions, sources) =>
      AdmitLawful(log, EpisodeRecord(t, s, kind, objective, outcome, unresolved, decisions, sources), {});
    case Summarize(t, s, now, nowPrior, limit) =>
      var ids := EpisodeIds(log, t, s, now, limit);
      if ids == [] {
        SameLog(log);
      } else {
        AdmitLawful(log, SummaryRecord(log, t, s, ids), Elements(SummaryIds(log, t, s, nowPrior)));
      }
    case RecordFailure(t, s, report, now) => FailureLawful(log, t, s, report, now);
    case RecordAttempt(a, id, provenance) => BridgeLawful(log, a, id, provenance);
    case HandOff(h, task) =>
      SameLog(log);
      if h.baton.Baton? {
        AdmitLawful(log, HandoffRecord(h, task), {});
      }
    case Propose(t, s, agent, statement, position, sources) =>
      AdmitLawful(log, ProposalRecord(t, s, agent, statement, position, sources), {});
    case Resolve(t, s, winner, resolver, sources, now) =>
      SameLog(log);
      var decided := AdmitTo(log, DecisionRecord(log, t, s, winner, resolver, sources), {});
      AdmitLawful(log, DecisionRecord(log, t, s, winner, resolver, sources), {});
      CloseLawful(decided, ScopeOf(t, s), PROPOSAL);
      LawfulThen(log, decided, CloseScope(decided, ScopeOf(t, s), PROPOSAL, |decided|));
    case RecordVerdict(t, s, verifier, producer, verdict, concern, sources) =>
      SameLog(log);
      AdmitLawful(log, VerdictRecord(t, s, verifier, producer, verdict, concern, sources), {});
    case Induce(_, _, _) => SkillDeedIsLawful(log, d);
    case Promote(_, _, _) => SkillDeedIsLawful(log, d);
    case Publish(_, _, _, _, _) => SkillDeedIsLawful(log, d);
  }

  lemma {:induction false} SkillDeedIsLawful(log: Log, d: Deed)
    requires PointsForward(log) && (d.Induce? || d.Promote? || d.Publish?)
    ensures Lawful(log, Done(log, d))
  {
    hide Skills.Induced, Skills.Promoted, Skills.Publication, PointsForward, Lawful;
    match d
    case Induce(t, c, now) => InducedIsLawful(log, t, c, now);
    case Promote(t, key, now) => PromotedIsLawful(log, t, key, now);
    case Publish(t, key, reasons, listing, now) => PublicationIsLawful(log, t, key, reasons, listing, now);
  }

  lemma {:induction false} NewestIsInTheLog(log: Log, t: string, key: string, kind: string, now: int)
    ensures forall id <- Elements(Skills.Newest(log, t, key, kind, now)) :: 1 <= id <= |log|
  {
  }

  lemma {:induction false} InducedIsLawful(log: Log, t: string, c: Mining.Candidate, now: int)
    requires PointsForward(log)
    ensures Lawful(log, Skills.Induced(log, t, c, now))
  {
    NewestIsInTheLog(log, t, Skills.MotifKey(c.steps), Skills.CANDIDATE, now);
    hide AdmitTo, PointsForward, Lawful, Skills.Newest, Elements, Skills.CandidateRecord;
    var prior := Skills.Newest(log, t, Skills.MotifKey(c.steps), Skills.CANDIDATE, now);
    AdmitLawful(log, Skills.CandidateRecord(t, c), Elements(prior));
  }

  lemma {:induction false} PromotableIsInTheLog(log: Log, t: string, key: string, now: int)
    ensures var chosen := Skills.Promotable(log, t, key, now); chosen.Some? ==> 1 <= chosen.value <= |log|
  {
  }

  lemma {:induction false} PromotedIsLawful(log: Log, t: string, key: string, now: int)
    requires PointsForward(log)
    ensures Lawful(log, Skills.Promoted(log, t, key, now))
  {
    SameLog(log);
    PromotableIsInTheLog(log, t, key, now);
    var chosen := Skills.Promotable(log, t, key, now);
    if chosen.Some? {
      var row := log[chosen.value - 1];
      AdmitLawful(log, Skills.SkillRecord(t, key, row.value, row.provenance, chosen.value), {chosen.value});
      hide AdmitTo, PointsForward, Lawful, Skills.Promotable, Skills.SkillRecord;
    }
  }

  lemma {:induction false} PublicationIsLawful(log: Log, t: string, key: string, reasons: seq<ReplayGate.Reason>,
                                               listing: string, now: int)
    requires PointsForward(log)
    ensures Lawful(log, Skills.Publication(log, t, key, reasons, listing, now))
  {
    SameLog(log);
    var found := Skills.Newest(log, t, key, Skills.SKILL, now);
    hide AdmitTo, PointsForward, Lawful, FailureRecorded, Skills.Newest, Skills.PublishedRecord, Skills.GateReport;
    if found != [] {
      FailureLawful(log, t, Skills.SubjectOf(key), Skills.GateReport(reasons, found[0]), now);
      AdmitLawful(log, Skills.PublishedRecord(t, key, found[0], listing, ValueOf(log, found[0])), {});
    }
  }

  lemma {:induction false} SameLog(log: Log)
    requires PointsForward(log)
    ensures Lawful(log, log)
  {
  }

  lemma {:induction false} FailureLawful(log: Log, t: string, s: string, report: Report, now: int)
    requires PointsForward(log)
    ensures Lawful(log, FailureRecorded(log, t, s, report, now))
  {
    hide AdmitTo, PointsForward, Extends, Recalled, ScopeOf, MechanismOf;
    var goal := GoalRecorded(log, t, s, report, now);
    var value := ReportValue(log, t, s, report, now);
    var prior := Prior(log, t, s, MechanismOf(report.problem), now);
    assert forall id <- Elements(prior) :: StandingId(log, id, ScopeOf(t, s), now);
    AdmitLawful(log, GoalRecord(t, s, report.problem, report.sources, value), Elements(prior));
    hide GoalRecorded;
    AdmitLawful(goal, TwinRecord(t, s, report.problem, report.sources, value), {});
    LawfulThen(log, goal, FailureRecorded(log, t, s, report, now));
  }

  lemma {:induction false} BridgeLawful(log: Log, a: Attempt, id: nat, provenance: seq<string>)
    requires PointsForward(log)
    ensures Lawful(log, Bridged(log, a, id, provenance))
  {
    hide AdmitTo, CloseScope, PointsForward, Extends, ScopeOf, LessonRecord, ClosingRecord;
    if Teaches(a) {
      AdmitLawful(log, LessonRecord(a, id, provenance), {});
    } else if a.status == PUBLISHED {
      var scope := ScopeOf(a.tenant, a.goalKey);
      var closing := AdmitTo(log, ClosingRecord(a, id, provenance), {});
      AdmitLawful(log, ClosingRecord(a, id, provenance), {});
      var lessonless := CloseScope(closing, scope, LESSON, |closing|);
      CloseLawful(closing, scope, LESSON);
      CloseLawful(lessonless, scope, FAILURE);
      LawfulThen(log, closing, lessonless);
      LawfulThen(log, lessonless, CloseScope(lessonless, scope, FAILURE, |closing|));
    } else {
      SameLog(log);
    }
  }

  function AllDone(log: Log, deeds: seq<Deed>): Log
    decreases |deeds|
  {
    if deeds == [] then log else AllDone(Done(log, deeds[0]), deeds[1..])
  }

  /** Over any run of all the writers, rows are never removed or rewritten, a correction never
      changes once made and always points to a newer row. */
  lemma {:induction false} HistoryIsNeverErased(log: Log, deeds: seq<Deed>)
    requires PointsForward(log)
    ensures Lawful(log, AllDone(log, deeds))
    decreases |deeds|
  {
    hide Done;
    if deeds == [] {
      SameLog(log);
    } else {
      DeedIsLawful(log, deeds[0]);
      HistoryIsNeverErased(Done(log, deeds[0]), deeds[1..]);
      LawfulThen(log, Done(log, deeds[0]), AllDone(log, deeds));
    }
  }

  /** So whatever the writers do next, a row corrected today is never recalled again, and following
      corrections from any row ends in a version nothing has corrected. */
  lemma {:induction false} CorrectedForGood(log: Log, deeds: seq<Deed>, id: int, scope: Scope, now: int,
                                            kinds: seq<string>, limit: int)
    requires PointsForward(log) && 1 <= id <= |log| && log[id - 1].supersededBy.Some?
    ensures var later := AllDone(log, deeds);
      && id !in Recalled(later, scope, now, kinds, limit)
      && PointsForward(later) && id <= |later|
      && CurrentVersion(later, id) > id
      && later[CurrentVersion(later, id) - 1].supersededBy.None?
  {
    hide AllDone;
    HistoryIsNeverErased(log, deeds);
    SupersededStaysOut(log, AllDone(log, deeds), id, scope, now, kinds, limit);
    hide Recalled;
  }
}
