/** The record a hand-off leaves, rival proposals that stand side by side until one resolution closes
    them all, and independent verdicts. */
module Handoffs {
  import opened Occurrences
  import opened Spine
  import opened SpineLaws
  import opened Episodes
  import Text

  const HANDOFF := "handoff"
  const PROPOSAL := "proposal"
  const MAX_ITEM_CHARS := 400
  const LISTED_PROPOSALS := 10

  datatype Objected =
    | SelfVerdict
    | UnknownVerdict
    | NotStanding
    | OwnProposal

  datatype Ruling = Ruled(id: int) | Declined(why: Objected)

  /** The last row tells a value, of a kind, in a subject's scope. */
  predicate LastTells(log: Log, memoryType: string, tenant: string, subject: string, value: Value) {
    && log != [] && var row := log[|log| - 1];
    row.memoryType == memoryType && row.scope == multiset{tenant, subject} && row.value == value
  }

  lemma {:induction false} AdmittedTells(log: Log, r: Record, tenant: string, subject: string)
    requires r.scopeIds == [tenant, subject]
    ensures LastTells(AdmitTo(log, r, {}), r.memoryType, tenant, subject, r.value)
  {
    assert multiset([tenant, subject]) == multiset{tenant, subject};
    hide Text.Strip;
  }

  datatype Handoff = Handoff(tenant: string, subject: string, baton: Value)

  /** Who handed what to whom, on what evidence; the queue task it rides comes last. */
  function HandoffRecord(h: Handoff, task: string): Record
    requires h.baton.Baton?
  {
    var b := h.baton;
    Record(HANDOFF, "handoff from " + (b.fromAgent + ": " + b.objective
             + if b.unresolved == [] then "" else " — open: " + Text.Join(Take(b.unresolved, 3), "; ")),
           [h.tenant, h.subject], "observed", b.evidence + b.stateRefs + ["task:" + task], b, b.fromAgent, None)
  }

  method HandOff(spine: MemorySpine, h: Handoff, task: string) returns (id: int)
    requires h.baton.Baton?
    modifies spine
    ensures id == |old(spine.rows)| + 1
    ensures spine.rows == AdmitTo(old(spine.rows), HandoffRecord(h, task), {})
    ensures LastTells(spine.rows, "handoff", h.tenant, h.subject, h.baton)
  {
    var record := HandoffRecord(h, task);
    AdmittedTells(spine.rows, record, h.tenant, h.subject);
    Text.StripKeepsFirst(record.statement);
    assert Elements([]) == {};
    hide AdmitTo;
    var admitted := spine.Admit(record, []);
    return admitted.value;
  }

  function ProposalRecord(tenant: string, subject: string, agent: string, statement: string, position: string,
                          sources: seq<string>): Record
  {
    Record(PROPOSAL, "[" + (agent + "] " + Text.Cut(statement, MAX_ITEM_CHARS)), [tenant, subject], "proposed",
           sources, Proposal(agent, position), agent, None)
  }

  method Propose(spine: MemorySpine, tenant: string, subject: string, agent: string, statement: string,
                 position: string, sources: seq<string>) returns (id: int)
    modifies spine
    ensures id == |old(spine.rows)| + 1
    ensures spine.rows
      == AdmitTo(old(spine.rows), ProposalRecord(tenant, subject, agent, statement, position, sources), {})
    ensures LastTells(spine.rows, "proposal", tenant, subject, Proposal(agent, position))
  {
    var record := ProposalRecord(tenant, subject, agent, statement, position, sources);
    AdmittedTells(spine.rows, record, tenant, subject);
    Text.StripKeepsFirst(record.statement);
    assert Elements([]) == {};
    hide AdmitTo;
    var admitted := spine.Admit(record, []);
    return admitted.value;
  }

  function Proposals(log: Log, tenant: string, subject: string, now: int, limit: int): seq<int> {
    Recalled(log, ScopeOf(tenant, subject), now, [PROPOSAL], limit)
  }

  function AgentOf(v: Value): string {
    if v.Proposal? then v.agent else ""
  }

  /** Why a resolution is refused: the winner is not among the standing proposals listed, or the
      resolver wrote it. */
  function ResolutionObjection(log: Log, tenant: string, subject: string, winner: int, resolver: string,
                               now: int): Option<Objected>
  {
    if winner !in Proposals(log, tenant, subject, now, LISTED_PROPOSALS) then Some(NotStanding)
    else if resolver == AgentOf(ValueOf(log, winner)) then Some(OwnProposal)
    else None
  }

  function StatementOf(log: Log, id: int): string {
    if 1 <= id <= |log| then log[id - 1].statement else ""
  }

  function DecisionRecord(log: Log, tenant: string, subject: string, winner: int, resolver: string,
                          sources: seq<string>): Record
  {
    Record("decision", "[" + (subject + "] resolved by " + resolver + ": "
             + Text.Cut(StatementOf(log, winner), MAX_ITEM_CHARS)),
           [tenant, subject], "observed",
           sources + ["memory:" + (if winner < 0 then "?" else Text.Decimal(winner))],
           Decision(resolver, winner, AgentOf(ValueOf(log, winner))), resolver, None)
  }

  /** One decision citing the winner, every open proposal of the scope superseded by it. */
  function ResolvedLog(log: Log, tenant: string, subject: string, winner: int, resolver: string,
                       sources: seq<string>): Log
  {
    var decided := AdmitTo(log, DecisionRecord(log, tenant, subject, winner, resolver, sources), {});
    CloseScope(decided, ScopeOf(tenant, subject), PROPOSAL, |decided|)
  }

  method Resolve(spine: MemorySpine, tenant: string, subject: string, winner: int, resolver: string,
                 sources: seq<string>, now: int) returns (ruling: Ruling)
    modifies spine
    ensures ruling == match ResolutionObjection(old(spine.rows), tenant, subject, winner, resolver, now)
      case Some(why) => Declined(why)
      case None => Ruled(|old(spine.rows)| + 1)
    ensures spine.rows == if ruling.Ruled? then ResolvedLog(old(spine.rows), tenant, subject, winner, resolver, sources)
      else old(spine.rows)
  {
    hide AdmitTo, CloseScope, Recalled;
    var log := spine.rows;
    var standing := spine.Recall([tenant, subject], now, [PROPOSAL], LISTED_PROPOSALS);
    if winner !in standing {
      return Declined(NotStanding);
    }
    var author := AgentOf(ValueOf(log, winner));
    if resolver == author {
      return Declined(OwnProposal);
    }
    var record := DecisionRecord(log, tenant, subject, winner, resolver, sources);
    Text.StripKeepsFirst(record.statement);
    assert Elements([]) == {};
    assert record.scopeIds == [tenant, subject] && Objection(record).None?;
    hide DecisionRecord, Objection;
    var decision := spine.Admit(record, []);
    var _ := spine.SupersedeScope([tenant, subject], PROPOSAL, decision.value);
    return Ruled(decision.value);
  }

  /** After a resolution no proposal stands in the scope, however many there were; the decision
      stands last, citing a winner another agent wrote, and everything else is untouched. */
  lemma {:induction false} ResolutionClosesTheDisagreement(log: Log, tenant: string, subject: string, winner: int,
      resolver: string, sources: seq<string>, now: int, later: int, limit: int)
    requires ResolutionObjection(log, tenant, subject, winner, resolver, now).None?
    ensures var log' := ResolvedLog(log, tenant, subject, winner, resolver, sources);
      && Proposals(log', tenant, subject, later, limit) == []
      && |log'| == |log| + 1
      && log'[|log|].value == Decision(resolver, winner, AgentOf(log[winner - 1].value))
      && AgentOf(log[winner - 1].value) != resolver
      && log'[winner - 1].supersededBy == Some(|log| + 1)
      && forall i :: 0 <= i < |log| && !Open(log[i], ScopeOf(tenant, subject), PROPOSAL) ==> log'[i] == log[i]
  {
    var scope := ScopeOf(tenant, subject);
    var decided := AdmitTo(log, DecisionRecord(log, tenant, subject, winner, resolver, sources), {});
    var log' := ResolvedLog(log, tenant, subject, winner, resolver, sources);
    assert StandingId(log, winner, scope, now) && log[winner - 1].memoryType == PROPOSAL;
    assert forall i :: 0 <= i < |log| ==> decided[i] == log[i];
    hide Recalled, ScopeOf, Text.Strip;
    ClosingClosesAll(decided, scope, PROPOSAL);
    NoneOpenNoneRecalled(log', scope, later, PROPOSAL, limit);
    assert Covered(decided, winner, scope, PROPOSAL, |decided|);
  }

  /** A verdict is refused from the producer, and in any word but pass or block. */
  method RecordVerdict(spine: MemorySpine, tenant: string, subject: string, verifier: string, producer: string,
                       verdict: string, concern: string, sources: seq<string>) returns (ruling: Ruling)
    modifies spine
    ensures ruling.Declined? <==> verifier == producer || verdict !in ["pass", "block"]
    ensures ruling.Ruled? ==> spine.rows == AdmitTo(old(spine.rows),
      VerdictRecord(tenant, subject, verifier, producer, verdict, concern, sources), {})
    ensures ruling.Ruled? ==> LastTells(spine.rows, "verdict", tenant, subject,
      Verdict(verdict, verifier, producer, Text.Cut(concern, 400)))
    ensures ruling.Declined? ==> spine.rows == old(spine.rows)
  {
    hide AdmitTo;
    if verifier == producer {
      return Declined(SelfVerdict);
    }
    if verdict !in ["pass", "block"] {
      return Declined(UnknownVerdict);
    }
    var record := VerdictRecord(tenant, subject, verifier, producer, verdict, concern, sources);
    Text.StripKeepsFirst(record.statement);
    assert Elements([]) == {};
    AdmittedTells(spine.rows, record, tenant, subject);
    var admitted := spine.Admit(record, []);
    return Ruled(admitted.value);
  }

  function VerdictRecord(tenant: string, subject: string, verifier: string, producer: string, verdict: string,
                         concern: string, sources: seq<string>): Record
  {
    Record("verdict", "[" + (subject + "] " + verdict + " by " + verifier + " (producer: " + producer + ")"
             + (if concern == "" then "" else " — " + Text.Cut(concern, MAX_ITEM_CHARS))),
           [tenant, subject], "observed", if sources == [] then ["subject:" + subject] else sources,
           Verdict(verdict, verifier, producer, Text.Cut(concern, MAX_ITEM_CHARS)), verifier, None)
  }

  // ---- Who may resolve ----

  /** A resolution is refused exactly if its winner is not among the ten newest proposals standing, or if the
      resolver proposed it. */
  lemma {:induction false} RefusedExactly(log: Log, tenant: string, subject: string, winner: int, resolver: string,
                                          now: int)
    ensures var standing := Recalled(log, multiset{tenant, subject}, now, ["proposal"], 10);
      var objection := ResolutionObjection(log, tenant, subject, winner, resolver, now);
      && (objection == Some(NotStanding) <==> winner !in standing)
      && (winner in standing && log[winner - 1].value.Proposal? ==>
            (objection == Some(OwnProposal) <==> log[winner - 1].value.agent == resolver))
  {
    assert multiset([tenant, subject]) == multiset{tenant, subject};
    hide Recalled;
  }

  /** Whoever makes a proposal, anyone else may resolve for it at once, and its author may not. */
  lemma {:induction false} AnotherMustResolve(log: Log, tenant: string, subject: string, agent: string,
      statement: string, position: string, sources: seq<string>, resolver: string, now: int)
    ensures var log' := AdmitTo(log, ProposalRecord(tenant, subject, agent, statement, position, sources), {});
      ResolutionObjection(log', tenant, subject, |log| + 1, resolver, now)
      == if resolver == agent then Some(OwnProposal) else None
  {
    var r := ProposalRecord(tenant, subject, agent, statement, position, sources);
    var log', scope := AdmitTo(log, r, {}), ScopeOf(tenant, subject);
    AdmittedStands(log, r, {}, [tenant, subject], now);
    RecallNewest(log', scope, now, PROPOSAL, LISTED_PROPOSALS);
    LastInWindow(log', scope, now);
    var found := Proposals(log', tenant, subject, now, LISTED_PROPOSALS);
    assert found == Recalled(log', scope, now, [PROPOSAL], LISTED_PROPOSALS);
    hide Recalled, Window, AdmitTo, Text.Strip, Text.Cut, ScopeOf, Proposals;
    assert found != [] && found[0] in found;
  }

  lemma {:induction false} LastInWindow(log: Log, scope: Scope, now: int)
    requires log != [] && StandingId(log, |log|, scope, now)
    ensures |log| in Window(log, scope, now)
  {
    assert StandingIds(log, scope, now)[0] == |log|;
  }
}
