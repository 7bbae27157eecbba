/** Episodes, and the summaries derived from them, on the spine. */
module Episodes {
  import opened Occurrences
  import opened Spine
  import opened SpineLaws
  import Sorting
  import Text

  const EPISODE := "episode"
  const SUMMARY := "summary"

  function ScopeOf(tenant: string, subject: string): Scope {
    multiset([tenant, subject])
  }

  function EpisodeRecord(tenant: string, subject: string, kind: string, objective: string, outcome: string,
                         unresolved: seq<string>, decisions: seq<string>, sources: seq<string>): Record
  {
    Record(EPISODE, "[" + kind + "] " + objective + " — outcome: " + outcome, [tenant, subject], "observed",
           if sources == [] then ["subject:" + subject] else sources,
           Episode(kind, objective, outcome, unresolved, decisions), "episodes", None)
  }

  lemma {:induction false} EpisodeIsAdmissible(tenant: string, subject: string, kind: string, objective: string,
      outcome: string, unresolved: seq<string>, decisions: seq<string>, sources: seq<string>)
    ensures Objection(EpisodeRecord(tenant, subject, kind, objective, outcome, unresolved, decisions, sources)).None?
  {
    Text.StripKeepsFirst("[" + kind + "] " + objective + " — outcome: " + outcome);
  }

  // ---- What a summary gathers ----

  /** Items appended once each, in order, blanks left out. */
  function AddNew(gathered: seq<string>, items: seq<string>): (r: seq<string>)
    ensures forall x :: x in r <==> x in gathered || (x in items && x != "")
    ensures Sorting.Unrepeated(gathered) ==> Sorting.Unrepeated(r)
    decreases |items|
  {
    if items == [] then gathered
    else
      assert items == [items[0]] + items[1..];
      AddNew(if items[0] != "" && items[0] !in gathered then gathered + [items[0]] else gathered, items[1..])
  }

  function Unresolved(v: Value): seq<string> {
    if v.Episode? then v.unresolved else []
  }

  function Decisions(v: Value): seq<string> {
    if v.Episode? then v.decisions else []
  }

  /** Some cited episode left the item open (or decided it). */
  ghost predicate LeftOpen(log: Log, ids: seq<int>, item: string) {
    exists id :: id in ids && item in Unresolved(ValueOf(log, id))
  }

  ghost predicate WasDecided(log: Log, ids: seq<int>, item: string) {
    exists id :: id in ids && item in Decisions(ValueOf(log, id))
  }

  /** Every open item of the episodes, verbatim and once, first mention first. */
  function OpenItems(log: Log, ids: seq<int>): (r: seq<string>)
    ensures forall x :: x in r <==> x != "" && LeftOpen(log, ids, x)
    ensures Sorting.Unrepeated(r)
  {
    if ids == [] then []
    else
      var init, last := ids[..|ids| - 1], ids[|ids| - 1];
      assert ids == init + [last];
      AddNew(OpenItems(log, init), Unresolved(ValueOf(log, last)))
  }

  function DecidedItems(log: Log, ids: seq<int>): (r: seq<string>)
    ensures forall x :: x in r <==> x != "" && WasDecided(log, ids, x)
    ensures Sorting.Unrepeated(r)
  {
    if ids == [] then []
    else
      var init, last := ids[..|ids| - 1], ids[|ids| - 1];
      assert ids == init + [last];
      AddNew(DecidedItems(log, init), Decisions(ValueOf(log, last)))
  }

  function Outcomes(log: Log, ids: seq<int>): nat {
    if ids == [] then 0 else
    var v := ValueOf(log, ids[|ids| - 1]);
    Outcomes(log, ids[..|ids| - 1]) + (if v.Episode? && v.outcome != "" then 1 else 0)
  }

  function Citations(ids: seq<int>): (r: seq<string>)
    ensures |r| == |ids|
  {
    seq(|ids|, i requires 0 <= i < |ids| => "memory:" + (if ids[i] < 0 then "?" else Text.Decimal(ids[i])))
  }

  function SummaryStatement(objective: string, outcome: string, episodes: nat, open: seq<string>): string {
    "summary: " + (objective + " — latest outcome: " + outcome + "; " + Text.Decimal(episodes) + " episodes"
      + (if open == [] then "" else "; OPEN: " + Text.Join(if |open| > 5 then open[..5] else open, "; ")))
  }

  function SummaryRecord(log: Log, tenant: string, subject: string, ids: seq<int>): Record
    requires ids != []
  {
    var latest := ValueOf(log, ids[0]);
    var objective := if latest.Episode? then latest.objective else "";
    var outcome := if latest.Episode? then latest.outcome else "";
    var open := OpenItems(log, ids);
    Record(SUMMARY,
           SummaryStatement(if latest.Episode? then latest.objective else subject,
                            if latest.Episode? then latest.outcome else "unknown", Outcomes(log, ids), open),
           [tenant, subject], "observed", Citations(ids),
           Summary(objective, outcome, open, DecidedItems(log, ids), |ids|, ids[0]), "episodes", None)
  }

  lemma {:induction false} SummaryIsAdmissible(log: Log, tenant: string, subject: string, ids: seq<int>)
    requires ids != []
    ensures Objection(SummaryRecord(log, tenant, subject, ids)).None?
  {
    Text.StripKeepsFirst(SummaryRecord(log, tenant, subject, ids).statement);
  }

  // ---- The operations on the log ----

  function EpisodeIds(log: Log, tenant: string, subject: string, now: int, limit: int): (ids: seq<int>)
    ensures forall k :: 0 <= k < |ids| ==> StandingId(log, ids[k], ScopeOf(tenant, subject), now)
  {
    Recalled(log, ScopeOf(tenant, subject), now, [EPISODE], limit)
  }

  function SummaryIds(log: Log, tenant: string, subject: string, now: int): (ids: seq<int>)
    ensures forall k :: 0 <= k < |ids| ==> StandingId(log, ids[k], ScopeOf(tenant, subject), now)
  {
    Recalled(log, ScopeOf(tenant, subject), now, [SUMMARY], 1)
  }

  /** Summarizing admits a summary of the recalled episodes over the prior one, or, with no
      episode to compress, does nothing. The two recalls read the clock separately. */
  function Summarized(log: Log, tenant: string, subject: string, now: int, nowPrior: int, limit: int): Log {
    var ids := EpisodeIds(log, tenant, subject, now, limit);
    if ids == [] then log
    else AdmitTo(log, SummaryRecord(log, tenant, subject, ids), Elements(SummaryIds(log, tenant, subject, nowPrior)))
  }

  /** The summary's cited newest episode. */
  function Cited(row: Row): int {
    if row.value.Summary? then row.value.newestEpisode else 0
  }

  function Current(log: Log, tenant: string, subject: string, now: int, nowEpisodes: int): Option<int> {
    var found := SummaryIds(log, tenant, subject, now);
    if found == [] then None
    else
      var episodes := EpisodeIds(log, tenant, subject, nowEpisodes, 1);
      if episodes != [] && episodes[0] > Cited(log[found[0] - 1]) then None else Some(found[0])
  }

  // ---- As the code runs them ----

  method RecordEpisode(spine: MemorySpine, tenant: string, subject: string, kind: string, objective: string,
                       outcome: string, unresolved: seq<string>, decisions: seq<string>, sources: seq<string>)
    returns (outcome': Result<int>)
    modifies spine
    ensures outcome' == Admitted(|old(spine.rows)| + 1)
    ensures spine.rows == AdmitTo(old(spine.rows),
      EpisodeRecord(tenant, subject, kind, objective, outcome, unresolved, decisions, sources), {})
  {
    EpisodeIsAdmissible(tenant, subject, kind, objective, outcome, unresolved, decisions, sources);
    assert Elements([]) == {};
    outcome' := spine.Admit(
      EpisodeRecord(tenant, subject, kind, objective, outcome, unresolved, decisions, sources), []);
  }

  method Summarize(spine: MemorySpine, tenant: string, subject: string, now: int, nowPrior: int, limit: int)
    returns (summary: Option<int>)
    modifies spine
    ensures spine.rows == Summarized(old(spine.rows), tenant, subject, now, nowPrior, limit)
    ensures summary == if EpisodeIds(old(spine.rows), tenant, subject, now, limit) == [] then None
      else Some(|old(spine.rows)| + 1)
  {
    var log := spine.rows;
    var episodes := spine.Recall([tenant, subject], now, [EPISODE], limit);
    assert episodes == EpisodeIds(log, tenant, subject, now, limit);
    if episodes == [] {
      return None;
    }
    var unresolved, decisions, outcomes := Gather(log, episodes);
    var record := Composed(log, tenant, subject, episodes, unresolved, decisions, outcomes);
    var prior := spine.Recall([tenant, subject], nowPrior, [SUMMARY], 1);
    assert prior == SummaryIds(log, tenant, subject, nowPrior);
    hide Objection, AdmitTo, SummaryRecord, EpisodeIds, SummaryIds, Recalled;
    SummaryIsAdmissible(log, tenant, subject, episodes);
    var admitted := spine.Admit(record, prior);
    return Some(admitted.value);
  }

  /** The summary's record from what the loop collected. */
  method Composed(log: Log, tenant: string, subject: string, episodes: seq<int>, unresolved: seq<string>,
                  decisions: seq<string>, outcomes: nat) returns (record: Record)
    requires episodes != [] && unresolved == OpenItems(log, episodes) && decisions == DecidedItems(log, episodes)
    requires outcomes == Outcomes(log, episodes)
    ensures record == SummaryRecord(log, tenant, subject, episodes)
  {
    hide OpenItems, DecidedItems, Outcomes, Citations, SummaryStatement;
    var latest := ValueOf(log, episodes[0]);
    var objective := if latest.Episode? then latest.objective else "";
    var outcome := if latest.Episode? then latest.outcome else "";
    var statement := SummaryStatement(if latest.Episode? then objective else subject,
      if latest.Episode? then outcome else "unknown", outcomes, unresolved);
    record := Record(SUMMARY, statement, [tenant, subject], "observed", Citations(episodes),
      Summary(objective, outcome, unresolved, decisions, |episodes|, episodes[0]), "episodes", None);
  }

  /** The collecting loop: open items and decisions, each once, and how many outcomes are known. */
  method Gather(log: Log, episodes: seq<int>)
    returns (unresolved: seq<string>, decisions: seq<string>, outcomes: nat)
    ensures unresolved == OpenItems(log, episodes) && decisions == DecidedItems(log, episodes)
    ensures outcomes == Outcomes(log, episodes)
  {
    unresolved, decisions, outcomes := [], [], 0;
    for n := 0 to |episodes|
      invariant unresolved == OpenItems(log, episodes[..n])
      invariant decisions == DecidedItems(log, episodes[..n])
      invariant outcomes == Outcomes(log, episodes[..n])
    {
      assert episodes[..n + 1][..n] == episodes[..n];
      var value := ValueOf(log, episodes[n]);
      if value.Episode? {
        if value.outcome != "" {
          outcomes := outcomes + 1;
        }
        unresolved := AddNew(unresolved, value.unresolved);
        decisions := AddNew(decisions, value.decisions);
      }
    }
    assert episodes[..|episodes|] == episodes;
  }

  // ---- A stale summary never serves ----

  /** Episodes and summaries are written only by this module: observed, and never expiring. */
  ghost predicate OwnRows(log: Log) {
    forall i :: 0 <= i < |log| && log[i].memoryType in [EPISODE, SUMMARY] ==>
      log[i].state == "observed" && log[i].validUntil.None?
  }

  /** A summary cites an episode older than itself, and no uncorrected episode between the two. */
  ghost predicate Fresh(log: Log) {
    forall s :: 0 <= s < |log| && log[s].memoryType == SUMMARY ==> CitesNewest(log, log[s], s) && Cited(log[s]) <= s
  }

  ghost predicate CitesNewest(log: Log, summary: Row, upTo: int) {
    forall e :: 0 <= e < |log| && e < upTo && OpenEpisode(log[e], summary.scope) ==> e + 1 <= Cited(summary)
  }

  predicate OpenEpisode(row: Row, scope: Scope) {
    row.memoryType == EPISODE && row.scope == scope && row.supersededBy.None?
  }

  datatype Act =
    | Recording(tenant: string, subject: string, kind: string, objective: string, outcome: string,
                unresolved: seq<string>, decisions: seq<string>, sources: seq<string>)
    | Summarizing(tenant: string, subject: string, now: int, nowPrior: int, limit: int)
    | Other(write: Write)

  predicate Permitted(log: Log, act: Act) {
    act.Other? ==>
      Allowed(log, act.write)
      && (act.write.Admission? ==> act.write.record.memoryType !in [EPISODE, SUMMARY])
  }

  function After(log: Log, act: Act): Log {
    match act
    case Recording(tenant, subject, kind, objective, outcome, unresolved, decisions, sources) =>
      AdmitTo(log, EpisodeRecord(tenant, subject, kind, objective, outcome, unresolved, decisions, sources), {})
    case Summarizing(tenant, subject, now, nowPrior, limit) =>
      Summarized(log, tenant, subject, now, nowPrior, limit)
    case Other(w) => Apply(log, w)
  }

  ghost predicate History(from: Log, acts: seq<Act>, to: Log)
    decreases |acts|
  {
    if acts == [] then from == to
    else Permitted(from, acts[0]) && History(After(from, acts[0]), acts[1..], to)
  }

  lemma {:induction false} NewestEpisodeIsCited(log: Log, tenant: string, subject: string, now: int, limit: int, e: int)
    requires OwnRows(log) && EpisodeIds(log, tenant, subject, now, limit) != []
    requires 1 <= e <= |log| && OpenEpisode(log[e - 1], ScopeOf(tenant, subject))
    ensures e <= EpisodeIds(log, tenant, subject, now, limit)[0]
  {
    RecallNewest(log, ScopeOf(tenant, subject), now, EPISODE, limit);
    assert StandingId(log, e, ScopeOf(tenant, subject), now);
  }

  lemma {:induction false} AppendKeepsFresh(log: Log, r: Record, supersedes: set<int>)
    requires OwnRows(log) && Fresh(log)
    requires r.memoryType in [EPISODE, SUMMARY] ==> r.state == "observed" && r.validUntil.None?
    requires r.memoryType == SUMMARY ==> CitesNewest(log, NewRow(r), |log|) && Cited(NewRow(r)) <= |log|
    ensures OwnRows(AdmitTo(log, r, supersedes)) && Fresh(AdmitTo(log, r, supersedes))
  {
    var log' := AdmitTo(log, r, supersedes);
    forall s | 0 <= s < |log'| && log'[s].memoryType == SUMMARY
      ensures CitesNewest(log', log'[s], s) && Cited(log'[s]) <= s
    {
      forall e | 0 <= e < s && OpenEpisode(log'[e], log'[s].scope) ensures e + 1 <= Cited(log'[s]) {
        assert OpenEpisode(log[e], log'[s].scope);
      }
    }
  }

  lemma {:induction false} CloseKeepsFresh(log: Log, scope: Scope, memoryType: string, stamp: int)
    requires OwnRows(log) && Fresh(log)
    ensures OwnRows(CloseScope(log, scope, memoryType, stamp)) && Fresh(CloseScope(log, scope, memoryType, stamp))
  {
    var log' := CloseScope(log, scope, memoryType, stamp);
    forall s | 0 <= s < |log'| && log'[s].memoryType == SUMMARY
      ensures CitesNewest(log', log'[s], s) && Cited(log'[s]) <= s
    {
      forall e | 0 <= e < s && OpenEpisode(log'[e], log'[s].scope) ensures e + 1 <= Cited(log'[s]) {
        assert OpenEpisode(log[e], log'[s].scope);
      }
    }
  }

  lemma {:induction false} SummarizingKeepsFresh(log: Log, tenant: string, subject: string, now: int, nowPrior: int,
                                                 limit: int)
    requires OwnRows(log) && Fresh(log)
    ensures OwnRows(Summarized(log, tenant, subject, now, nowPrior, limit))
    ensures Fresh(Summarized(log, tenant, subject, now, nowPrior, limit))
  {
    var ids := EpisodeIds(log, tenant, subject, now, limit);
    if ids != [] {
      var r := SummaryRecord(log, tenant, subject, ids);
      var row := NewRow(r);
      assert row.scope == ScopeOf(tenant, subject) && Cited(row) == ids[0];
      forall e | 0 <= e < |log| && OpenEpisode(log[e], row.scope) ensures e + 1 <= Cited(row) {
        NewestEpisodeIsCited(log, tenant, subject, now, limit, e + 1);
      }
      AppendKeepsFresh(log, r, Elements(SummaryIds(log, tenant, subject, nowPrior)));
    }
  }

  lemma {:induction false} ActKeepsFresh(log: Log, act: Act)
    requires OwnRows(log) && Fresh(log) && Permitted(log, act)
    ensures OwnRows(After(log, act)) && Fresh(After(log, act))
  {
    hide OwnRows, Fresh, AdmitTo, CloseScope;
    match act
    case Recording(tenant, subject, kind, objective, outcome, unresolved, decisions, sources) =>
      var r := EpisodeRecord(tenant, subject, kind, objective, outcome, unresolved, decisions, sources);
      AppendKeepsFresh(log, r, {});
    case Summarizing(tenant, subject, now, nowPrior, limit) =>
      SummarizingKeepsFresh(log, tenant, subject, now, nowPrior, limit);
    case Other(w) =>
      match w
      case Admission(r, supersedes) => AppendKeepsFresh(log, r, supersedes);
      case Closing(scope, memoryType) => CloseKeepsFresh(log, scope, memoryType, |log|);
  }

  lemma {:induction false} HistoryKeepsFresh(from: Log, acts: seq<Act>, to: Log)
    requires OwnRows(from) && Fresh(from) && History(from, acts, to)
    ensures OwnRows(to) && Fresh(to)
    decreases |acts|
  {
    if acts != [] {
      hide OwnRows, Fresh;
      ActKeepsFresh(from, acts[0]);
      HistoryKeepsFresh(After(from, acts[0]), acts[1..], to);
    }
  }

  /** After any run of episodes, summaries and other admissions and corrections, when a summary is
      served no standing episode of its subject is newer than the one it cites, although both are
      looked for only among the newest rows of the scope; provided the second look is not earlier than
      the first. For clocks in any order, a standing episode escapes the served summary if and only if
      it is newer than the summary and crowded out of the window of the second look. */
  lemma {:induction false} StaleSummaryNeverServes(acts: seq<Act>, log: Log, tenant: string, subject: string,
                                                   now: int, nowEpisodes: int, e: int)
    requires History([], acts, log) && Current(log, tenant, subject, now, nowEpisodes).Some?
    requires StandingId(log, e, ScopeOf(tenant, subject), nowEpisodes) && log[e - 1].memoryType == EPISODE
    ensures var s := Current(log, tenant, subject, now, nowEpisodes).value;
      && StandingId(log, s, ScopeOf(tenant, subject), now) && log[s - 1].memoryType == SUMMARY
      && (now <= nowEpisodes ==> e <= Cited(log[s - 1]))
      && (e > Cited(log[s - 1]) <==> s < e && e !in Window(log, ScopeOf(tenant, subject), nowEpisodes))
  {
    HistoryKeepsFresh([], acts, log);
    hide *;
    FreshLogServes(log, tenant, subject, now, nowEpisodes, e);
  }

  lemma {:induction false} FreshLogServes(log: Log, tenant: string, subject: string, now: int, nowEpisodes: int, e: int)
    requires OwnRows(log) && Fresh(log) && Current(log, tenant, subject, now, nowEpisodes).Some?
    requires StandingId(log, e, ScopeOf(tenant, subject), nowEpisodes) && log[e - 1].memoryType == EPISODE
    ensures var s := Current(log, tenant, subject, now, nowEpisodes).value;
      && StandingId(log, s, ScopeOf(tenant, subject), now) && log[s - 1].memoryType == SUMMARY
      && (now <= nowEpisodes ==> e <= Cited(log[s - 1]))
      && (e > Cited(log[s - 1]) <==> s < e && e !in Window(log, ScopeOf(tenant, subject), nowEpisodes))
  {
    hide Fresh, OwnRows, Window, Recalled, ScopeOf, EpisodeIds, SummaryIds;
    var scope := ScopeOf(tenant, subject);
    ServedSummaryStands(log, tenant, subject, now, nowEpisodes);
    var s := Current(log, tenant, subject, now, nowEpisodes).value;
    CitesOlder(log, s);
    if e <= s {
      OlderEpisodeIsCovered(log, tenant, subject, nowEpisodes, s, e);
    } else {
      if now <= nowEpisodes {
        WindowKeepsNewer(log, scope, nowEpisodes, s, e);
      }
      if e in Window(log, scope, nowEpisodes) {
        SeenEpisodeIsCited(log, tenant, subject, nowEpisodes, e);
      }
    }
  }

  lemma {:induction false} CitesOlder(log: Log, s: int)
    requires Fresh(log) && 1 <= s <= |log| && log[s - 1].memoryType == SUMMARY
    ensures Cited(log[s - 1]) < s
  {
    hide CitesNewest, Cited;
  }

  lemma {:induction false} ServedSummaryStands(log: Log, tenant: string, subject: string, now: int, nowEpisodes: int)
    requires OwnRows(log) && Current(log, tenant, subject, now, nowEpisodes).Some?
    ensures var s := Current(log, tenant, subject, now, nowEpisodes).value;
      && StandingId(log, s, ScopeOf(tenant, subject), now) && log[s - 1].memoryType == SUMMARY
      && (now <= nowEpisodes ==> s in Window(log, ScopeOf(tenant, subject), nowEpisodes))
  {
    var s := Current(log, tenant, subject, now, nowEpisodes).value;
    RecallNewest(log, ScopeOf(tenant, subject), now, SUMMARY, 1);
    if now <= nowEpisodes {
      WindowShrinks(log, ScopeOf(tenant, subject), now, nowEpisodes, s);
    }
  }

  lemma {:induction false} OlderEpisodeIsCovered(log: Log, tenant: string, subject: string, now: int, s: int, e: int)
    requires Fresh(log) && 1 <= s <= |log| && log[s - 1].memoryType == SUMMARY
    requires log[s - 1].scope == ScopeOf(tenant, subject) && e <= s
    requires StandingId(log, e, ScopeOf(tenant, subject), now) && log[e - 1].memoryType == EPISODE
    ensures e <= Cited(log[s - 1])
  {
    assert CitesNewest(log, log[s - 1], s - 1) && OpenEpisode(log[e - 1], ScopeOf(tenant, subject));
  }

  /** With an episode in the window, the newest recalled episode is at least as new. */
  lemma {:induction false} SeenEpisodeIsCited(log: Log, tenant: string, subject: string, now: int, e: int)
    requires e in Window(log, ScopeOf(tenant, subject), now)
    requires StandingId(log, e, ScopeOf(tenant, subject), now) && log[e - 1].memoryType == EPISODE
    ensures var episodes := EpisodeIds(log, tenant, subject, now, 1); episodes != [] && e <= episodes[0]
  {
    RecallNewest(log, ScopeOf(tenant, subject), now, EPISODE, 1);
    hide Window, Recalled, Standing;
  }

  /** A later clock only lets rows expire, so a row that never expires stays in the window. */
  lemma {:induction false} WindowShrinks(log: Log, scope: Scope, now: int, later: int, id: int)
    requires now <= later && id in Window(log, scope, now) && log[id - 1].validUntil.None?
    ensures id in Window(log, scope, later)
  {
    var ids, ids' := StandingIds(log, scope, now), StandingIds(log, scope, later);
    var i :| 0 <= i < |Window(log, scope, now)| && Window(log, scope, now)[i] == id;
    assert ids[i] == id && i < WINDOW;
    assert StandingId(log, id, scope, later);
    var j :| 0 <= j < |ids'| && ids'[j] == id;
    forall x | x in ids' ensures x in ids {
      assert StandingId(log, x, scope, later);
    }
    FewerAhead(ids, ids', i, j);
    assert Window(log, scope, later)[j] == id;
  }

  /** In a descending list whose members all come from another, nothing moves back. */
  lemma {:induction false} FewerAhead(ids: seq<int>, fewer: seq<int>, i: nat, j: nat)
    requires Descending(ids) && Descending(fewer) && forall x <- fewer :: x in ids
    requires i < |ids| && j < |fewer| && ids[i] == fewer[j]
    ensures j <= i
    decreases j
  {
    if j > 0 {
      assert fewer[j - 1] in ids;
      var k :| 0 <= k < |ids| && ids[k] == fewer[j - 1];
      FewerAhead(ids, fewer, k, j - 1);
    }
  }

  /** A summary serves as soon as it is made, whatever the clocks read. */
  lemma {:induction false} SummaryServesAtOnce(acts: seq<Act>, log: Log, tenant: string, subject: string,
      now: int, nowPrior: int, limit: int, later: int, laterEpisodes: int)
    requires History([], acts, log) && EpisodeIds(log, tenant, subject, now, limit) != []
    ensures Current(Summarized(log, tenant, subject, now, nowPrior, limit), tenant, subject, later, laterEpisodes)
      == Some(|log| + 1)
  {
    assert OwnRows([]) && Fresh([]);
    hide *;
    var log' := Summarized(log, tenant, subject, now, nowPrior, limit);
    HistoryKeepsFresh([], acts, log);
    SummarizingKeepsFresh(log, tenant, subject, now, nowPrior, limit);
    SummaryIsNewest(log, tenant, subject, now, nowPrior, limit, later);
    NewestSummaryIsFound(log', tenant, subject, later);
    NewestSummaryIsCurrent(log', tenant, subject, laterEpisodes);
    FoundIsCurrent(log', tenant, subject, later, laterEpisodes);
  }

  lemma {:induction false} FoundIsCurrent(log: Log, tenant: string, subject: string, now: int, nowEpisodes: int)
    requires var found := SummaryIds(log, tenant, subject, now); found != [] && found[0] == |log|
    requires var episodes := EpisodeIds(log, tenant, subject, nowEpisodes, 1);
      episodes == [] || episodes[0] <= Cited(log[|log| - 1])
    ensures Current(log, tenant, subject, now, nowEpisodes) == Some(|log|)
  {
    hide SummaryIds, EpisodeIds, Cited;
  }

  lemma {:induction false} NewestSummaryIsFound(log: Log, tenant: string, subject: string, now: int)
    requires log != [] && Standing(log[|log| - 1], ScopeOf(tenant, subject), now)
    requires log[|log| - 1].memoryType == SUMMARY
    ensures SummaryIds(log, tenant, subject, now) != [] && SummaryIds(log, tenant, subject, now)[0] == |log|
  {
    NewestRowLeads(log, ScopeOf(tenant, subject), now);
    RecallNewest(log, ScopeOf(tenant, subject), now, SUMMARY, 1);
    hide Window;
  }

  lemma {:induction false} NewestSummaryIsCurrent(log: Log, tenant: string, subject: string, now: int)
    requires Fresh(log) && log != [] && log[|log| - 1].memoryType == SUMMARY
    requires log[|log| - 1].scope == ScopeOf(tenant, subject)
    ensures var episodes := EpisodeIds(log, tenant, subject, now, 1);
      episodes == [] || episodes[0] <= Cited(log[|log| - 1])
  {
    hide ScopeOf, Window, Recalled;
    var episodes := EpisodeIds(log, tenant, subject, now, 1);
    if episodes != [] {
      RecallNewest(log, ScopeOf(tenant, subject), now, EPISODE, 1);
      assert CitesNewest(log, log[|log| - 1], |log| - 1);
      assert OpenEpisode(log[episodes[0] - 1], ScopeOf(tenant, subject));
    }
  }

  lemma {:induction false} SummaryIsNewest(log: Log, tenant: string, subject: string, now: int, nowPrior: int,
                                           limit: int, later: int)
    requires EpisodeIds(log, tenant, subject, now, limit) != []
    ensures var log' := Summarized(log, tenant, subject, now, nowPrior, limit);
      |log'| == |log| + 1 && log'[|log|].memoryType == SUMMARY && log'[|log|].scope == ScopeOf(tenant, subject)
      && Standing(log'[|log|], ScopeOf(tenant, subject), later)
  {
  }

  lemma {:induction false} NewestRowLeads(log: Log, scope: Scope, now: int)
    requires log != [] && Standing(log[|log| - 1], scope, now)
    ensures |log| in Window(log, scope, now)
  {
    assert StandingIds(log, scope, now)[0] == |log|;
  }

  // ---- What a summary says ----

  /** A summary quotes the newest standing episode of its subject, the first of those it cites. */
  lemma {:induction false} SummaryQuotesTheNewest(log: Log, tenant: string, subject: string, now: int, nowPrior: int,
                                                  limit: int)
    requires EpisodeIds(log, tenant, subject, now, limit) != []
    ensures var ids := EpisodeIds(log, tenant, subject, now, limit);
      var log' := Summarized(log, tenant, subject, now, nowPrior, limit);
      && NewestOfKind(log, ids[0], ScopeOf(tenant, subject), now, "episode")
      && |log'| == |log| + 1 && log'[|log|].memoryType == "summary"
      && log'[|log|].scope == ScopeOf(tenant, subject) && log'[|log|].value.Summary?
      && var told, newest := log'[|log|].value, log[ids[0] - 1].value;
         told.newestEpisode == ids[0] && told.episodeCount == |ids|
         && (newest.Episode? ==> told.latestObjective == newest.objective && told.latestOutcome == newest.outcome)
  {
    var scope, ids := ScopeOf(tenant, subject), EpisodeIds(log, tenant, subject, now, limit);
    assert ids == Recalled(log, scope, now, [EPISODE], limit);
    assert limit >= 1;
    RecallNewest(log, scope, now, EPISODE, limit);
    assert forall id <- SummaryIds(log, tenant, subject, nowPrior) :: id <= |log|;
    hide Recalled, EpisodeIds, SummaryIds, OpenItems, DecidedItems, SummaryStatement, Citations, NewestOfKind;
    hide Text.Strip;
  }

  /** Where the cited episodes have an outcome. */
  function ToldAt(log: Log, ids: seq<int>): set<int> {
    set k | 0 <= k < |ids| && ValueOf(log, ids[k]).Episode? && ValueOf(log, ids[k]).outcome != ""
  }

  lemma {:induction false} OneMoreTold(log: Log, init: seq<int>, id: int)
    ensures var n, one := |init|, ValueOf(log, id).Episode? && ValueOf(log, id).outcome != "";
      && ToldAt(log, init + [id]) == ToldAt(log, init) + (if one then {n} else {}) && n !in ToldAt(log, init)
      && Outcomes(log, init + [id]) == Outcomes(log, init) + (if one then 1 else 0)
  {
    assert (init + [id])[..|init|] == init;
    hide ValueOf;
  }

  lemma {:induction false} OutcomesCount(log: Log, ids: seq<int>)
    ensures Outcomes(log, ids) == |ToldAt(log, ids)|
  {
    if ids == [] {
      assert ToldAt(log, ids) == {};
    } else {
      var init, id := ids[..|ids| - 1], ids[|ids| - 1];
      assert ids == init + [id];
      hide *;
      OutcomesCount(log, init);
      OneMoreTold(log, init, id);
    }
  }

  /** An episode recorded is the one the next summary quotes, and every item it left open is in it. */
  lemma {:induction false} RecordedIsQuoted(log: Log, tenant: string, subject: string, kind: string, objective: string,
      outcome: string, unresolved: seq<string>, decisions: seq<string>, sources: seq<string>, now: int, nowPrior: int,
      limit: int)
    requires limit >= 1
    ensures var r := EpisodeRecord(tenant, subject, kind, objective, outcome, unresolved, decisions, sources);
      var log' := Summarized(AdmitTo(log, r, {}), tenant, subject, now, nowPrior, limit);
      && |log'| == |log| + 2 && log'[|log| + 1].value.Summary?
      && log'[|log| + 1].value.latestObjective == objective && log'[|log| + 1].value.latestOutcome == outcome
      && log'[|log| + 1].value.newestEpisode == |log| + 1
      && (forall item <- unresolved :: item != "" ==> item in log'[|log| + 1].value.open)
      && (forall item <- decisions :: item != "" ==> item in log'[|log| + 1].value.decided)
  {
    var r := EpisodeRecord(tenant, subject, kind, objective, outcome, unresolved, decisions, sources);
    var once := AdmitTo(log, r, {});
    assert once[|log|].value == Episode(kind, objective, outcome, unresolved, decisions);
    NewestIsRecorded(log, r, tenant, subject, now, limit);
    var ids := EpisodeIds(once, tenant, subject, now, limit);
    hide EpisodeIds, AdmitTo, EpisodeRecord;
    SummaryQuotesTheNewest(once, tenant, subject, now, nowPrior, limit);
    SummaryGathers(once, tenant, subject, now, nowPrior, limit);
    hide Summarized, OpenItems, DecidedItems;
    assert ids[0] in ids;
  }

  lemma {:induction false} SummaryGathers(log: Log, tenant: string, subject: string, now: int, nowPrior: int,
                                          limit: int)
    requires EpisodeIds(log, tenant, subject, now, limit) != []
    ensures var ids := EpisodeIds(log, tenant, subject, now, limit);
      var log' := Summarized(log, tenant, subject, now, nowPrior, limit);
      && |log'| == |log| + 1 && log'[|log|].value.Summary?
      && (forall item :: item in log'[|log|].value.open <==> item != "" && LeftOpen(log, ids, item))
      && (forall item :: item in log'[|log|].value.decided <==> item != "" && WasDecided(log, ids, item))
  {
    var ids := EpisodeIds(log, tenant, subject, now, limit);
    assert forall id <- SummaryIds(log, tenant, subject, nowPrior) :: id <= |log|;
    hide EpisodeIds, SummaryIds, OpenItems, DecidedItems, SummaryStatement, Citations, Text.Strip, LeftOpen, WasDecided;
  }

  /** An episode just admitted is the first one recalled. */
  lemma {:induction false} NewestIsRecorded(log: Log, r: Record, tenant: string, subject: string, now: int, limit: int)
    requires limit >= 1 && r.memoryType == EPISODE && r.scopeIds == [tenant, subject] && r.state == "observed"
    requires r.validUntil.None?
    ensures var ids := EpisodeIds(AdmitTo(log, r, {}), tenant, subject, now, limit);
      ids != [] && ids[0] == |log| + 1
  {
    var once, scope := AdmitTo(log, r, {}), ScopeOf(tenant, subject);
    AdmittedStands(log, r, {}, [tenant, subject], now);
    assert StandingIds(once, scope, now)[0] == |once|;
    assert |once| in Window(once, scope, now);
    RecallNewest(once, scope, now, EPISODE, limit);
    assert once[|log|].memoryType == EPISODE;
    hide AdmitTo, Recalled, Window, StandingIds, Text.Strip;
  }

  /** Summarizing corrects the newest standing summary of the subject, if there is one, and no other row. */
  lemma {:induction false} SummaryReplacesOne(log: Log, tenant: string, subject: string, now: int, nowPrior: int,
                                              limit: int, i: nat)
    requires EpisodeIds(log, tenant, subject, now, limit) != [] && i < |log|
    ensures var log', scope := Summarized(log, tenant, subject, now, nowPrior, limit), ScopeOf(tenant, subject);
      |log'| == |log| + 1
      && log'[i] == if NewestOfKind(log, i + 1, scope, nowPrior, "summary") then StampRow(log[i], |log| + 1) else log[i]
  {
    var scope, found := ScopeOf(tenant, subject), SummaryIds(log, tenant, subject, nowPrior);
    assert found == Recalled(log, scope, nowPrior, [SUMMARY], 1) && |found| <= 1;
    RecallNewest(log, scope, nowPrior, SUMMARY, 1);
    hide Recalled, EpisodeIds, SummaryIds, SummaryRecord, NewRow, StampRow;
    if NewestOfKind(log, i + 1, scope, nowPrior, SUMMARY) {
      assert found != [] && StandingId(log, i + 1, scope, nowPrior);
      assert found[0] == i + 1;
    }
    assert i + 1 in Elements(found) <==> NewestOfKind(log, i + 1, scope, nowPrior, SUMMARY);
  }
}
