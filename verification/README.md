# OoLu engines, modelled and proved in Dafny

OoLu is a personal assistant that runs schedules, builds and remembers small programs ("nodes"), and
keeps what it learned in a durable memory. This project models seven of its engines as their code
behaves and proves what they promise. `dafny verify dfyconfig.toml` checks everything.

* **The pulse** (`Calendar`, `Occurrences`, `OccurrenceLaws`, `OccurrenceKeys`, `Pulse`,
  `PulseAccounts`, `PulseStore`). Four cadences on a local clock are shown to be one strictly
  increasing sequence indexed by period; the formulas, the counting loop, the claims and whole runs
  of the gateway tick, under clocks that may step back, are proved over that sequence.
* **The sheet format** (`Csv`, `CsvReading`, `CsvRoundTrip`). The character-level parser against the printer:
  what it reads from any text, told by counting quotes; exactly what printing and parsing does to
  every sheet, and which sheets survive it.
* **Motif mining, the replay gate and promotion** (`Motifs`, `Mining`, `ReplayGate`, `Skills`,
  `SkillKeys`, `Sorting`). The miner is exact; the gate's one-step tests decide the global facts.
* **The memory spine and its writers** (`Spine`, `SpineRanking`, `SpineLaws`, `Episodes`, `Negative`,
  `NegativeCounts`, `NegativeBook`, `NegativeForgets`, `NegativeRetries`, `Ledger`, `LedgerMirror`, `Seats`, `Handoffs`,
  `SpineRuns`). An append-only log with write-once correction, the newest-200 read window, and the
  derived views that must never serve stale data.
* **The program author** (`Topology`, `ProgramAuthor`). Round-based ordering, then author, gate and
  bounded repair over a growing file tree.
* **The temporal graph and the send limits** (`TemporalGraph`, `Throttle`, `MailCodes`).
* **The context pack and friendships** (`ContextPack`, `Friendships`).

`Text` holds the string helpers; `TextLaws` says what each means.

Tables are classes over maps and sequences, each public operation is one atomic step, and the clock
is an argument. The loops and the updates the code makes are loops and updates here, each proved
against a function of the old state; the theorems are about those functions and about whole runs.

Where a promise does not hold of the code as it stands, the code is kept and the exact condition is
proved:

* Catch-up accounting. Over any run, in any clock order, firings and the missed counts they name fall
  short of the occurrences by what the cap of 1500 left unnamed, and exceed them by each late firing
  with what it names (`PulseAccounts.WholeRunConservation`). With no gap over the cap they are exact
  if and only if no tick's due occurrence is unclaimed and older than an existing claim
  (`PulseAccounts.ExactIfNoneStale`); under a clock that does not step back, if and only if at most
  1501 occurrences fall due from one enabled tick to the next (`PulseAccounts.ForwardConservation`).
* A sheet survives printing and parsing if and only if it is clean in the sense of
  `CsvRoundTrip.Clean`. Every save of an unedited sheet drops one more trailing row of one empty cell,
  until none is left (`CsvRoundTrip.SavingUneditedDropsTrailingBlanks`).
* Corrections point forward if and only if no row is asked to supersede itself and a scope is closed
  by something newer than what it covers (`SpineLaws.AdmitPointsForward`,
  `SpineLaws.ClosePointsForward`). The repository's own writers always comply
  (`SpineRuns.DeedIsLawful`).
* A repeated failure blocks its identical retry as long as no recording finds more than ten mechanisms
  recorded since the last publish (`NegativeBook.RecordingBlocks`, and exactly when a check blocks at
  any point of a run in `NegativeBook.CheckBlocksExactly`); beyond that a repetition is counted anew
  (`NegativeForgets.TenOthersForget`).
* Skills are kept under their steps joined with an arrow. Without arrows in steps, exactly the newest
  standing skill of each motif that runs in the proposed steps is offered
  (`SkillKeys.OfferedSkillsOccur`); with them, a skill is offered for steps it does not run in, and one
  motif's candidacy supersedes another's (`SkillKeys.KeysCollide`, `SkillKeys.CandidaciesCollide`).
* A "daily cap" holds of every 24-hour interval if and only if it is one or the cooldown alone enforces
  it (`Throttle.CapHoldsExactly`). Otherwise up to `2 * per_day - 1` sends pass, or as many as the
  cooldown leaves room for, whichever is fewer (`Throttle.DailyMaximum`).
* Two modules may declare the same check path; then only the last one's check ships. Every check that
  passed ships, whatever the author and the sandbox do, if and only if the paths are distinct
  (`ProgramAuthors.DistinctChecksExactly`).
* A superseding close removes its edge from reads of every moment, past ones included, although
  `temporalgraph.py` describes closing as keeping history; where a listing was cut at 500, the 501st
  edge moves up (`TemporalGraphs.SupersedingCloseRemovesItsEdge`, and exactly which reads change in
  `TemporalGraphs.PastReadChangesExactly`).
* Spine scopes are compared as sorted lists, so a tenant and goal that swap places share one
  (`Ledger.SharedScope`). The spine mirrors the ledger's open warnings throughout a run if and only if
  no attempt with tenant and goal swapped teaches, or publishes while there are warnings
  (`LedgerMirror.MirrorHoldsExactly`).

## Model

| member | source | states |
|---|---|---|
| Calendar.MonthFrom | src/oolu/pulse.py:111-118 | Every day lies in exactly the month the search finds: at or after its first day and before the next month's first |
| Calendar.DayOfMonth | src/oolu/pulse.py:88-89 | The day of the month lies between 1 and the length of that month, leap Februaries included |
| Calendar.DateRoundTrip | src/oolu/pulse.py:92-132 | Year, month and day determine the day number and the day number determines them, for every date |
| Calendar.YearStartClosedForm | src/oolu/pulse.py:88-89 | Summing clamped month lengths agrees with the Gregorian closed form for every year, so the leap rule is the right one |
| Calendar.MonthStartClosedForm | src/oolu/pulse.py:88-89 | Every month of every year begins on the day number a formula without month lengths gives, so each of the twelve lengths, leap Februaries included, is the right one |
| Calendar.WeekdayClosedForm | src/oolu/pulse.py:99-107 | Every date falls on the weekday the common table of month offsets gives it, and 1 January 1970 on a Thursday |
| Occurrences.OccurrenceFires | src/oolu/pulse.py:92-132 | Every term of the period-indexed sequence obeys the calendar rule of its cadence, short months standing in with their last day |
| Occurrences.FiresIsOccurrence | src/oolu/pulse.py:92-132 | Every moment obeying the calendar rule is a term of that sequence: the rule and the sequence describe the same moments |
| Occurrences.OccurrenceOrder | src/oolu/pulse.py:92-166 | The sequence is strictly increasing for all four cadences |
| Occurrences.LatestBrackets | src/oolu/pulse.py:92-132 | Every moment lies between two consecutive terms of the sequence |
| Occurrences.OnOrBeforeIsLatest | src/oolu/pulse.py:92-132 | The four formulas compute the newest term at or before the moment |
| Occurrences.StepsMoveTheIndex | src/oolu/pulse.py:135-166 | A step back or forward moves exactly one term, across month ends, Februaries and years |
| OccurrenceLaws.OnOrBeforeIsGreatest | src/oolu/pulse.py:92-132 | `_on_or_before(t)` is an occurrence, at or before t, and no later occurrence is |
| OccurrenceLaws.StepForwardIsLeastAfter | src/oolu/pulse.py:153-166 | Stepping forward from it gives the least occurrence after t |
| OccurrenceLaws.StepsVisitNeighbours | src/oolu/pulse.py:135-166 | On occurrences the two steps are mutual inverses with nothing in between; a clamped month end returns to its declared day |
| OccurrenceLaws.OccurrenceAtIsNewestDue | src/oolu/pulse.py:173-181 | The due occurrence is the newest in (floor, now], and none is due exactly when there is none |
| OccurrenceLaws.NextOccurrenceIsFirst | src/oolu/pulse.py:184-192 | The listed next occurrence is the first one after both now and the floor |
| OccurrenceLaws.CountFirings | src/oolu/pulse.py:195-213 | The number of occurrences in an interval is a difference of two period indices |
| OccurrenceLaws.FiresOnDate | src/oolu/pulse.py:92-132 | On every date and minute: a rhythm fires exactly at its own minute, and weekly on its weekday, monthly on its day or on the last of a month that ends before it, yearly the same in its month |
| OccurrenceLaws.RulesAdmitWhatThereIs | src/oolu/pulse.py:381-397 | The stored rhythms are exactly those of an hour and minute, a weekday, a day some month has, and a month there are |
| OccurrenceKeys.KeyOrder | src/oolu/pulse.py:169-170 | For four-digit years comparing keys as strings compares the moments, and equal keys name equal moments |
| OccurrenceKeys.KeyRoundTrip | src/oolu/pulse.py:169-213 | Parsing a written key gives back the moment |
| OccurrenceKeys.KeySpells | src/oolu/pulse.py:169-170 | A key spells its local date and time: four digits of the year, two each of month, day, hour and minute, between `-`, `-`, `T` and `:` |
| Pulse.MissedBetween | src/oolu/pulse.py:195-213 | The text-comparing, capped backward loop takes as many steps back from the occurrence as stay after the floor and the prior claim, whatever keys it is given, occurrences or not |
| Pulse.StepsCountMissed | src/oolu/pulse.py:195-213 | From an occurrence that is min(1500, occurrences strictly between max(floor, prior claim) and it) |
| Pulse.NewestBelow | src/oolu/pulse.py:539-561 | The newest claim below a bound is a claim below it, and no claim below it is greater as text |
| Pulse.DueIsReadable | src/oolu/gateway/app.py:18374-18377 | What is due between a four-digit floor and a four-digit clock has a four-digit key |
| Pulse.TickEffect | src/oolu/gateway/app.py:18374-18385 | A tick changes nothing, or fires the newest due occurrence, one never fired before, with its missed count |
| Pulse.FiresAtMostOnce | src/oolu/pulse.py:527-537 | Over any run, with clock readings in any order, nothing fires twice, only occurrences fire, and nothing at or before the floor fires |
| PulseAccounts.CatchUpIsLatestBelow | src/oolu/pulse.py:539-561 | Picking the newest earlier claim by string, the count starts from the newest firing before the occurrence, or from the floor when that is newer, in any clock order |
| PulseAccounts.RunKeepsSettled | src/oolu/gateway/app.py:18374-18385 | Over any run of ticks, pauses and resumptions, with clock readings in any order, each firing of the floor epoch is a new occurrence after the floor and names exactly its own gap, capped |
| PulseAccounts.WholeRunConservation | src/oolu/pulse.py:195-213 | Over any run, in any clock order, firings plus the missed counts they name, plus what the cap left unnamed, equal the occurrences up to the newest fired, after the floor and whatever fired before it was set, plus each firing older than an earlier one with what it names; so uncapped runs are exact if and only if no firing is late, and runs without late firings if and only if uncapped |
| PulseAccounts.ExactIfNoneStale | src/oolu/gateway/app.py:18374-18385 | With no gap over the cap the account is exact if and only if no tick since the floor was set had a due occurrence both unclaimed and older than an existing claim |
| PulseAccounts.ForwardConservation | src/oolu/gateway/app.py:18374-18385 | Under a clock that does not step back the account never overcounts, and is exact if and only if from each enabled tick to the next at most 1501 occurrences fall due |
| PulseAccounts.TickLeavesNothingDue | src/oolu/gateway/app.py:18374-18385 | After an enabled tick, in any clock order, the newest occurrence due has fired, since the floor was set unless something fired lies beyond the floor from before; or nothing is due at all |
| TextLaws.WordsExactly | src/oolu/pulse.py:376-376 | The words of a goal are its unbroken visible runs in order, with nothing but blanks before, between and after them |
| TextLaws.StripExactly | src/oolu/memoryspine.py:101-101 | Stripping takes blanks off both ends and leaves a text that begins and ends visibly |
| PulseStores.PulseStore.Add | src/oolu/pulse.py:355-440 | A goal of no words or over 500 characters, a rhythm that breaks its cadence's rules, and one more than the 100 a person may hold are refused without a trace; an accepted one starts with its floor at now, no claims, and no other row touched; nobody ever holds more than 100 |
| PulseStores.PulseStore.SetEnabled | src/oolu/pulse.py:475-503 | Pausing keeps the floor, resuming resets it to now, claims and other rows stay; a missing row, or a stranger's, is reported and left alone |
| PulseStores.PulseStore.Claim | src/oolu/pulse.py:527-537 | True exactly if that schedule and occurrence were never claimed; afterwards they are, and nothing else changed |
| PulseStores.PulseStore.Elect | src/oolu/gateway/app.py:18374-18385 | A due occurrence fires with its count exactly if no claim on it exists, and then is claimed |
| PulseStores.PulseStore.Check | src/oolu/gateway/app.py:18374-18385 | One due-check on the tables is one step of the rhythm's state machine and leaves every other schedule alone |
| PulseStores.PulseStore.Sweep | src/oolu/gateway/app.py:18366-18385 | A tick steps every schedule once, each independently of the others |
| PulseStores.BackwardClockOvercounts | src/oolu/gateway/app.py:18374-18385 | The overcount on the two-tick run every rhythm has: ticked first at one occurrence and then at an older one, it exceeds the occurrences by one plus everything missed before the older one |
| Csv.ParseCsv | desktop-app/frontend/src/csv.ts:5-43 | The index-and-flag loop with its lookahead computes the state-machine reading of the rewritten text |
| CsvReading.CellsExactly | desktop-app/frontend/src/csv.ts:11-42 | For every text, told by counting quotes: a comma or line feed ends a cell if and only if an even number of quotes precedes it, a line feed then ends the row too, and a cell holds its stretch without its quotes but for the first of each pair within quotes |
| CsvReading.ParsedIsTheSheet | desktop-app/frontend/src/csv.ts:38-42 | Of the sheet so read the parser drops at most a last row of one empty cell |
| CsvReading.CellsAreTheSheet | desktop-app/frontend/src/csv.ts:11-42 | Cells, each with whether its row ends there, determine a sheet without empty rows, as every sheet read is |
| CsvReading.UnixExactly | desktop-app/frontend/src/csv.ts:10-10 | The rewriting drops exactly the carriage returns that a line feed follows |
| CsvReading.PrintedPlainly | desktop-app/frontend/src/csv.ts:46-48 | A cell is printed as it is if and only if it holds no quote, comma or line feed |
| CsvReading.PrintedInQuotes | desktop-app/frontend/src/csv.ts:46-48 | Any other is printed between quotes with each of its own doubled |
| CsvRoundTrip.ScanCell | desktop-app/frontend/src/csv.ts:13-36 | A printed cell before a comma, a line feed or the end reads back as that cell, whatever it contains |
| CsvRoundTrip.ScanRows | desktop-app/frontend/src/csv.ts:11-42 | Reading printed rows gives the rows back, bar a last row of one empty cell |
| CsvRoundTrip.UnixDoubled | desktop-app/frontend/src/csv.ts:10-47 | Rewriting line endings commutes with doubling quotes |
| CsvRoundTrip.UnixSerialized | desktop-app/frontend/src/csv.ts:10-48 | Rewriting line endings of a printed sheet is printing the sheet whose cells and row ends were rewritten |
| CsvRoundTrip.PrintThenParse | desktop-app/frontend/src/csv.ts:5-49 | For every sheet whatsoever, the exact result of printing and parsing it |
| CsvRoundTrip.RoundTrip | desktop-app/frontend/src/csv.ts:5-49 | A sheet survives printing and parsing if and only if no row is empty, no cell holds CRLF, no row but the last ends in a bare carriage return, and the last row is not one empty cell |
| CsvRoundTrip.TidyIsClean | desktop-app/frontend/src/csv.ts:5-49 | Non-empty rows without carriage returns, the last not one empty cell, are among the sheets that survive |
| CsvRoundTrip.TrailingEmptyCellIsDropped | desktop-app/frontend/src/csv.ts:38-41 | A sheet ending in one empty cell loses exactly that row if and only if it is otherwise clean |
| CsvRoundTrip.SavingUneditedDropsTrailingBlanks | desktop-app/frontend/src/csv.ts:5-49 | Opening text whose carriage returns all belong to line endings and saving it unedited n times drops exactly min(n, their number) trailing rows of one empty cell; a save changes nothing if and only if there is none |
| Motifs.ReadVerifiedSequences | src/oolu/skillinduction.py:33-48 | Exactly the successful runs with at least two verified steps, in order, with their verified keys |
| Motifs.KeysAreTheVerifiedSteps | src/oolu/skillinduction.py:41-45 | The keys of a run sit at the strictly increasing positions of its verified steps, all of them and no others |
| Motifs.SequencesAreTheTeachingRuns | src/oolu/skillinduction.py:33-48 | The sequences are those of the successful runs with at least two verified steps, all of them, in order, each with its goal |
| Motifs.StepsTeachAlone | src/oolu/skillinduction.py:41-45 | A failed step put in anywhere changes nothing, a verified one adds exactly its key in its place |
| Motifs.FailedRunTeachesNothing | src/oolu/skillinduction.py:37-39 | An unsuccessful run put in anywhere changes nothing |
| Motifs.OccursIsInfix | src/oolu/skillinduction.py:181-183 | A motif occurs exactly where the keys can be cut before and after it |
| Motifs.SupportCounts | src/oolu/skillinduction.py:178-185 | Support is the number of sequences the motif occurs in |
| Motifs.SupportFalls | src/oolu/skillinduction.py:178-185 | Extending a motif never gains support |
| Motifs.SupportOf | src/oolu/skillinduction.py:178-185 | The counting loop with its break counts the sequences containing the target, one vote each |
| Mining.CountTrace | src/oolu/skillinduction.py:55-67 | One sequence adds one vote and its goal to each motif of two to five steps it contains, however often, and to no other |
| Mining.MineCandidates | src/oolu/skillinduction.py:51-78 | A motif is listed if and only if it has two to five steps and two verified sequences contain it; with exactly the gate's support and those sequences' goals; once; best supported first, then longest |
| ReplayGate.LocalClosednessIsGlobal | src/oolu/skillinduction.py:208-219 | No one-step extension by a known step keeps the support if and only if no longer motif of any length around it does |
| ReplayGate.PassingMotif | src/oolu/skillinduction.py:157-229 | A supported motif that passes has strictly more support than every longer motif around it and than each adjacent swap, and repeats no step back to back |
| ReplayGate.FragmentWaitsForParent | src/oolu/skillinduction.py:166-168 | Of two equally supported motifs, one inside the other, the fragment never passes |
| ReplayGate.SortedStepKeys | src/oolu/skillinduction.py:209 | Exactly the keys of the verified sequences, sorted and without repetition |
| ReplayGate.Replay | src/oolu/skillinduction.py:188-202 | Counts the runs whose steps, failed ones included, contain the motif, and those of them that failed |
| ReplayGate.RunsCount | src/oolu/skillinduction.py:188-202 | Appearances and contradictions are the numbers of runs in which all the steps ran, and of those that failed |
| ReplayGate.ConsistentExactly | src/oolu/skillinduction.py:203-207 | The first bar is met exactly if nothing appeared or at most five in a hundred of the appearances failed |
| ReplayGate.SwappedExactly | src/oolu/skillinduction.py:220-223 | The second mutation exchanges two neighbouring steps and nothing else |
| ReplayGate.ClosednessTest | src/oolu/skillinduction.py:208-219 | Names a supported extension exactly if some one-step extension keeps the support |
| ReplayGate.OrderTest | src/oolu/skillinduction.py:220-228 | Names a supported swap exactly if some adjacent swap keeps the support |
| ReplayGate.Gate | src/oolu/skillinduction.py:157-229 | Passes exactly if all three bars hold; each failed bar is named once, with a true witness |
| Skills.Induce | src/oolu/skillinduction.py:81-105 | Admits one candidacy per mined motif, superseding the motif's prior one, and every admitted value is what the corpus says |
| Skills.Promote | src/oolu/skillinduction.py:108-136 | Promotes exactly when the newest candidacy meets support 5 and 3 contexts, superseding it; otherwise nothing changes |
| Skills.PromotableExactly | src/oolu/skillinduction.py:108-122 | Promotion waits exactly for a newest standing candidacy of at least five runs and three goals |
| Skills.Publish | src/oolu/skillinduction.py:232-284 | Publishes exactly if a promoted skill passes the gate on the corpus as it stands; a failed gate leaves a failure record for the motif |
| SkillKeys.PublicationTells | src/oolu/skillinduction.py:264-284 | A publication adds one record of the skill's own value in its scope and touches nothing else |
| Skills.SkillsFor | src/oolu/skillinduction.py:139-151 | Returns exactly the newest standing skill under the joined key of each motif of two to five steps that runs contiguously in the proposed steps, each once |
| SkillKeys.PlainKeysDiffer | src/oolu/skillinduction.py:87-147 | Motifs of arrow-free steps have one key only if they are one motif |
| SkillKeys.OfferedSkillsOccur | src/oolu/skillinduction.py:81-151 | Over any run from an empty spine, with no arrow in the corpora or the proposed steps and a tenant not named like a motif's subject, a skill is offered if and only if its own steps, two to five, run in the proposed ones and it is the newest standing skill of them |
| SkillKeys.HitOccursExactly | src/oolu/skillinduction.py:139-151 | Of the skills offered for arrow-free steps, one's own steps run in them if and only if they are arrow-free too |
| SkillKeys.FoundIsItsMotif | src/oolu/skillinduction.py:87-102 | On such rows a fresh candidacy supersedes, and a lookup finds, only rows of the very same steps |
| SkillKeys.KeysCollide | src/oolu/skillinduction.py:139-151 | With an arrow in a step this fails: a skill of `a→b`, `c` is offered for `a`, `b→c`, where its steps do not run |
| SkillKeys.CandidaciesCollide | src/oolu/skillinduction.py:87-102 | And the candidacy of the one supersedes that of the other |
| SkillKeys.PromotionOffersTheNewer | src/oolu/skillinduction.py:124-136 | A promotion leaves earlier skills of the motif standing and is itself the one offered from then on |
| Skills.GateIsTheMechanism | src/oolu/skillinduction.py:252-262 | Every failed gate, whatever bars failed, is recorded under one mechanism |
| Skills.TwoFailedGatesBlock | src/oolu/skillinduction.py:252-262 | Over any run of the motif's scope in which a gate failed before, whatever was written since, a publication that fails the gate blocks the motif if and only if the context does not say the corpus grew; as long as no recording finds more than ten mechanisms |
| Skills.SkillsAreEarned | src/oolu/skillinduction.py:81-136 | Over any run of inductions, promotions and other writes, every skill's value was mined from one of the corpora and meets both thresholds |
| Skills.ApplicableSkillsAreEarned | src/oolu/skillinduction.py:139-151 | So every skill offered to route assembly was mined and met the thresholds |
| Sorting.SortIsSorted | src/oolu/skillinduction.py:77 | Sorting by any total preorder puts the list in order |
| Sorting.SortIsStable | src/oolu/skillinduction.py:77 | Elements that tie keep their given order |
| Spine.MemorySpine.Admit | src/oolu/memoryspine.py:77-136 | Refuses an unknown state, evidence without provenance, a blank statement or no scope, changing nothing; otherwise appends the row and stamps the named rows not yet stamped |
| SpineLaws.AdmittedExactly | src/oolu/memoryspine.py:93-104 | A record is admitted exactly if its state is one of the five, an evidence state has provenance, its statement has a visible character and it is scoped; the refusals come in that order |
| SpineLaws.AdmittedStands | src/oolu/memoryspine.py:159-183 | A record just admitted stands in its own scope, in whatever order its ids are given, and in no other, unless it is a rejection, until it expires |
| Spine.MemorySpine.SupersedeScope | src/oolu/memoryspine.py:138-157 | Stamps exactly the open rows of one type in one exact scope, bar the closing row itself, and returns how many |
| SpineRanking.RecalledExactly | src/oolu/memoryspine.py:171-204 | Without a query, recall lists newest first exactly the standing rows of the asked kinds with fewer than 200 newer standing rows of any kind and fewer than the limit of the asked kinds |
| SpineRanking.RankedRecall | src/oolu/memoryspine.py:200-204 | With a query it returns as many of the same rows, by score and newer first among equals, and each outranks every row left out |
| SpineRanking.ListedReadsCloser | src/oolu/memoryspine.py:200-204 | Whatever a query lists scores at least as high by its statement as whatever of the window and kinds it leaves out |
| Spine.WindowKeepsNewer | src/oolu/memoryspine.py:171-183 | With any row in the newest-200 window, every newer standing row of the scope is in it too |
| Spine.RecallNewest | src/oolu/memoryspine.py:171-204 | Although the window is cut before the kind filter, the first row recalled of a kind is the newest standing one of that kind in the whole scope |
| SpineLaws.AdmitPointsForward | src/oolu/memoryspine.py:106-136 | An admission keeps every correction pointing to a newer row if and only if the new row is not asked to supersede itself |
| SpineLaws.ClosePointsForward | src/oolu/memoryspine.py:138-157 | Closing a scope does so if and only if the closing id is a row newer than everything covered |
| SpineLaws.CurrentVersion | src/oolu/memoryspine.py:22-23 | Following corrections from any row ends, no earlier than it started, at a row nothing has corrected |
| SpineLaws.SupersededStaysOut | src/oolu/memoryspine.py:159-204 | A corrected row is never recalled from any later log, and its correction never changes |
| SpineLaws.RunKeepsLaws | src/oolu/memoryspine.py:22-23 | Over any run of admissions and closings, rows are only ever stamped once and every correction leads forward |
| SpineLaws.ClosingClosesAll | src/oolu/memoryspine.py:138-157 | Closing by a newest row of another kind leaves none of the kind open there and touches nothing else |
| SpineRuns.DeedIsLawful | src/oolu/handoffs.py:104-396 | Each writer of the spine (episodes, summaries, failures, build attempts, hand-offs, proposals, resolutions, verdicts, skills) keeps history and forward corrections |
| SpineRuns.HistoryIsNeverErased | src/oolu/memoryspine.py:22-23 | Over any run of all the writers no row is removed or rewritten and every correction is permanent and points to a newer row |
| SpineRuns.CorrectedForGood | src/oolu/memoryspine.py:22-23 | Whatever the writers do next, a corrected row is never recalled, and its chain ends in an uncorrected version |
| Episodes.RecordEpisode | src/oolu/episodes.py:24-53 | The episode is always admissible and lands as the newest row, superseding nothing |
| Episodes.OpenItems | src/oolu/episodes.py:66-76 | The summary's unresolved items are exactly the non-blank ones of the cited episodes, each once |
| Episodes.DecidedItems | src/oolu/episodes.py:66-76 | Likewise its decisions |
| Episodes.Summarize | src/oolu/episodes.py:56-107 | The collecting loops admit the summary over the recalled episodes in place of the prior one, or nothing when there is no episode |
| Episodes.SummaryQuotesTheNewest | src/oolu/episodes.py:62-107 | A summary quotes objective and outcome of the newest standing episode of its subject, the first of those it cites |
| Episodes.RecordedIsQuoted | src/oolu/episodes.py:24-107 | An episode just recorded is the one the next summary quotes, and every non-blank item it left open or decided is in it |
| Episodes.SummaryReplacesOne | src/oolu/episodes.py:88-107 | Summarizing corrects the newest standing summary of the subject, if there is one, and no other row |
| Episodes.StaleSummaryNeverServes | src/oolu/episodes.py:110-123 | After any run of episodes, summaries and other admissions and corrections, a served summary cites an episode at least as new as every standing one of its subject, unless the second of the two clock readings is the earlier; then one escapes exactly if it is newer than the summary and outside the newest-200 window |
| Episodes.SummaryServesAtOnce | src/oolu/episodes.py:56-123 | Right after summarizing, that summary is the one served, whatever the clocks read |
| Negative.MostReproduced | src/oolu/negative.py:52-60 | The greatest reproduction count among the prior records, attained by one of them; zero for none |
| Negative.RecordFailure | src/oolu/negative.py:37-91 | Admits the goal's record with the count raised over its same-mechanism past, then the mechanism-scoped twin |
| NegativeRetries.RecordingTells | src/oolu/negative.py:59-91 | A recording keeps the report's applicability, reopen conditions and first 400 characters in the goal's scope and its mechanism's |
| NegativeRetries.ClassifierIsTheMechanism | src/oolu/negative.py:27-34 | A report that begins with a classifier and a colon has the classifier, lower-cased and cut to 80 characters, for its mechanism |
| NegativeRetries.LineIsTheMechanism | src/oolu/negative.py:27-34 | One without has its first line, lower-cased and cut likewise |
| Negative.NegativeCheck | src/oolu/negative.py:94-145 | The early-returning loop gives the verdict of the first reproduced failure among the five recalled |
| Negative.JudgedBlocks | src/oolu/negative.py:107-144 | A reproduced failure blocks if and only if no reopen condition appears in the context and no applicability key differs |
| NegativeRetries.ReopensExactly | src/oolu/negative.py:110-120 | A reopen condition is met exactly if it is not empty and its lower-cased text lies somewhere in the lower-cased values of the context, one space apart |
| NegativeRetries.DiffersExactly | src/oolu/negative.py:121-127 | A recorded key differs exactly if the context gives it another value; a key the context lacks does not |
| NegativeRetries.IdenticalExactly | src/oolu/negative.py:94-145 | A retry is identical exactly if the failure was reproduced, no condition is met, and context and record agree on every key they share |
| NegativeRetries.OnlyAChangeHelps | src/oolu/negative.py:94-145 | After a mechanism was recorded again without reopen conditions, the very context recorded blocks, and so does one without any of its keys or with others added; one that gives a recorded key another value does not |
| NegativeRetries.VerdictSaysWhy | src/oolu/negative.py:121-145 | A verdict that blocks gives a reason, one that does not the difference, and a met condition if there is one |
| Negative.BlocksOnlyReproduced | src/oolu/negative.py:94-145 | Every block rests on a standing failure of this goal, reproduced at least twice, that nothing in the context distinguishes |
| Negative.RecordingIsRecalledFirst | src/oolu/negative.py:37-91 | Right after a recording, the first failure recalled for the goal carries what was recorded |
| Negative.RecordingBlocksExactly | src/oolu/negative.py:37-145 | On any log, right after a recording that counted on from an earlier one, the check blocks if and only if no reopen condition appears in the context and no applicability key differs |
| NegativeBook.BookIsKept | src/oolu/negative.py:37-91 | Over any run, whatever else is written, the goal's standing failures are a book: each recording takes over the entries of its mechanism among the ten newest and counts on from them |
| NegativeBook.RecordingBlocks | src/oolu/negative.py:37-145 | Over any run in which no recording finds more than ten mechanisms, a mechanism recorded again since the last publish blocks its retry if and only if the retry is identical |
| NegativeBook.CheckBlocksExactly | src/oolu/negative.py:94-145 | At any point of such a run the check blocks if and only if, of the five mechanisms last recorded since the last publish, the newest recorded twice or more last failed by a report this retry repeats |
| NegativeForgets.TenOthersForget | src/oolu/negative.py:52-60 | With ten other mechanisms in between a repetition is counted anew, and the identical retry passes |
| NegativeCounts.TwinScopeApart | src/oolu/negative.py:82-90 | A failure's twin shares the goal's scope only if the subject spells out a mechanism |
| NegativeCounts.RecordingTallies | src/oolu/negative.py:52-91 | A recording raises its own mechanism's tally by one and leaves every other alone |
| NegativeBook.TalliesCountRecordings | src/oolu/negative.py:37-91 | Over any run in which no recording finds more than ten mechanisms, k recordings since the last publish leave exactly one standing row of the mechanism, counting k |
| NegativeCounts.PublishClearsTheCheck | src/oolu/buildledger.py:176-193 | Right after the ledger told the spine of a publish, the pre-commitment check of that goal is clear in every context |
| Ledger.BuildLedger.Record | src/oolu/buildledger.py:89-197 | An unknown status changes nothing; otherwise the attempt is appended, its lesson admitted or the goal's lessons closed, the spine told the same, and lessons stay in step with history |
| Ledger.RecordingKeepsSync | src/oolu/buildledger.py:199-209 | After any attempt every goal's lessons are the warnings of its refusals since its last publish, newest first |
| Ledger.WarningsExactly | src/oolu/buildledger.py:154-209 | A goal's warnings quote exactly its refused attempts with a problem since its last publish, newest first, 400 characters each |
| Ledger.OpenRefusalsAreLastFailures | src/oolu/buildledger.py:211-260 | The unlimited open list holds exactly the goals whose last failure answers, each once, by that attempt |
| Ledger.LastFailureExactly | src/oolu/buildledger.py:211-234 | A goal's last failure is its refused attempt that no refusal or publish of the goal follows |
| Ledger.WarningsNeedAnOpenRefusal | src/oolu/buildledger.py:199-260 | A goal with a standing warning is on the open list |
| Ledger.SharedScope | src/oolu/memoryspine.py:119 | Two goals share a spine scope only if they are equal or swap tenant and goal |
| Ledger.PublishClosesSpineLessons | src/oolu/buildledger.py:176-193 | A publish leaves no standing lesson in its goal's scope and every other scope's lessons as they were |
| Ledger.RecordingKeepsMirror | src/oolu/buildledger.py:154-197 | A recording keeps the spine's standing lessons the ledger's open warnings one for one, if and only if it is not an attempt with tenant and goal swapped that teaches, or publishes while the goal has warnings |
| LedgerMirror.MirrorHoldsExactly | src/oolu/buildledger.py:89-197 | From empty tables, over any run of all the writers of the spine, the two agree throughout if and only if no such attempt occurs |
| Ledger.LessonsAreWarnings | src/oolu/buildledger.py:199-209 | Without a limit a goal's listed lessons are the warnings of its refusals since its last publish |
| Seats.SeatPerformance | src/oolu/buildledger.py:262-293 | Every model with a published or refused attempt is listed once with exactly its totals, best rate first, then most published |
| Seats.OutcomesCount | src/oolu/buildledger.py:262-280 | A seat's totals are the numbers of the tenant's attempts by that model that ended so |
| Seats.BetterExactly | src/oolu/buildledger.py:281-293 | One seat comes before another if it published more of each of its outcomes, compared by cross-multiplying, or as much and more in all |
| Handoffs.HandOff | src/oolu/handoffs.py:104-146 | A hand-off's record is always admissible, lands as the newest row and supersedes nothing |
| Handoffs.Propose | src/oolu/handoffs.py:319-342 | A proposal lands bare as the newest row and supersedes nothing |
| Handoffs.Resolve | src/oolu/handoffs.py:351-396 | Refused if the winner is not a listed standing proposal or the resolver wrote it; otherwise one decision supersedes every open proposal of the scope |
| Handoffs.RefusedExactly | src/oolu/handoffs.py:351-378 | A resolution is refused exactly if its winner is not among the ten newest standing proposals, or if the resolver proposed it |
| Handoffs.AnotherMustResolve | src/oolu/handoffs.py:319-378 | Whoever makes a proposal, anyone else may resolve for it at once and its author may not |
| Handoffs.RecordVerdict | src/oolu/handoffs.py:275-313 | Refused from the producer and in any word but pass or block; otherwise the verdict is appended |
| Handoffs.ResolutionClosesTheDisagreement | src/oolu/handoffs.py:351-396 | After a resolution no proposal of the scope is ever recalled, the decision cites a winner someone else wrote, the winner is corrected by it, and nothing else moved |
| Topology.PlaceReady | src/oolu/programbuilder.py:411-413 | Moving the ready modules one by one leaves exactly those still waiting |
| Topology.Topological | src/oolu/programbuilder.py:391-414 | The loop terminates on every spec, cyclic or not, and its order is the round-by-round one |
| Topology.RoundsPermute | src/oolu/programbuilder.py:391-414 | With distinct paths every module comes out exactly once, whatever the dependencies |
| Topology.OrderIsByDepthThenDeclaration | src/oolu/programbuilder.py:391-414 | On closed acyclic specs the order is exactly by longest dependency chain, then place of declaration |
| Topology.DependenciesComeFirst | src/oolu/programbuilder.py:391-393 | Every dependency precedes the module that declares it |
| Topology.ParserAcceptsAcyclic | src/oolu/skills/program.py:270-293 | The parser's resolution succeeds if and only if every dependency is a declared module and none leads back |
| ProgramAuthors.ProgramAuthor.Gate | src/oolu/programbuilder.py:482-519 | A module passes exactly if both screens are clear of its text, the check's is too, and its check, if there is one, did not fail on the staged tree; a note is left exactly by a check that ended in an honest error |
| ProgramAuthors.PackageInitsExactly | src/oolu/programbuilder.py:263-271 | Exactly the directories above a module are marked as packages, each by an empty file |
| ProgramAuthors.ProgramAuthor.AuthorModule | src/oolu/programbuilder.py:323-375 | Success leaves a passed gate on exactly these files, with text and check from replies of this module's own consultations, writes both and notes what the gate noted; failure leaves the tree; at most one consultation plus the repair allowance is spent, exhaustion spends all of it, and an author that always brings code past willing gates succeeds |
| ProgramAuthors.ProgramAuthor.BuildProgram | src/oolu/programbuilder.py:310-387 | On success each module of the order passed its gate on the tree its predecessors left, by replies after the plan's and its predecessors', and the notes are the gates' in that order; on failure nothing ships; each build spends at most 1 + M * (1 + max_repairs) consultations |
| ProgramAuthors.ProgramAuthor.BuildModules | src/oolu/programbuilder.py:322-375 | The loop over the modules: each is authored on the tree its predecessors left, the first failure ends it, and the budget left by the plan is kept |
| ProgramAuthors.ShippedModulesPassedTheirGates | src/oolu/programbuilder.py:320-387 | Every shipped module text is the one that passed, gated on a tree holding the shipped text of each module it depends on |
| ProgramAuthors.LastCheckShips | src/oolu/programbuilder.py:373-375 | Of modules declaring one check path the last one's check is the one that ships |
| ProgramAuthors.DistinctChecksExactly | src/oolu/programbuilder.py:320-387 | Every declared check of every finished build ships as it passed, whatever author, screens and sandbox do, if and only if no two modules declare one check path |
| ProgramAuthors.ShippedChecksPassed | src/oolu/programbuilder.py:373-375 | With distinct check paths every check that passed ships |
| ProgramAuthors.ScaffoldingStays | src/oolu/programbuilder.py:263-271 | No package marker laid down at the start is ever removed |
| TemporalGraphs.TemporalGraph.Connect | src/oolu/temporalgraph.py:70-103 | An edge without provenance is refused; any other is appended, valid from now |
| TemporalGraphs.TemporalGraph.Close | src/oolu/temporalgraph.py:105-112 | Ends one edge that has no end yet; every other edge, and an ended one, stays as it was |
| TemporalGraphs.NeighborsExactly | src/oolu/temporalgraph.py:115-149 | A read of neighbors lists exactly the edges at the node valid at the moment, of a wanted type, with fewer than 500 newer ones of any type beside them |
| TemporalGraphs.DependentsAt | src/oolu/temporalgraph.py:171-192 | Lists exactly the edges by which something depended on or consumed the target at the moment |
| TemporalGraphs.ConnectedIsListed | src/oolu/temporalgraph.py:33-192 | An edge just connected is listed at both its ends and nowhere else, where its type is asked for, from now until its end; and as a dependency at its target alone, if it is one |
| TemporalGraphs.ClosedIsGone | src/oolu/temporalgraph.py:105-192 | Closed plainly it is listed nowhere from then on, and before as it was |
| TemporalGraphs.TemporalGraph.Neighborhood | src/oolu/temporalgraph.py:151-169 | The breadth-first rounds, early exit included, return exactly the nodes within max(1, hops) listed steps, never the seed |
| TemporalGraphs.NeighborhoodIsUndirectedDistance | src/oolu/temporalgraph.py:115-169 | With at most 500 valid edges per node that is exactly the nodes at undirected distance 1 to max(1, hops) |
| TemporalGraphs.PastReadsAreStable | src/oolu/temporalgraph.py:70-192 | A read at a past moment, of neighbors, dependents or neighborhoods, is unchanged by every later connect and plain close |
| TemporalGraphs.SupersedingCloseRemovesItsEdge | src/oolu/temporalgraph.py:33-36 | A superseding close takes exactly its own edge out of every read of neighbors and dependents, whatever the moment and the types; only where the listing was cut at 500 does the 501st move up |
| TemporalGraphs.PastReadChangesExactly | src/oolu/temporalgraph.py:105-149 | A read of neighbors at any moment changes by it if and only if the edge was then listed, and it or the one moving up is of a wanted type |
| TemporalGraphs.NeighborhoodAfterClose | src/oolu/temporalgraph.py:105-169 | With complete listings the neighborhood of any moment becomes what the remaining edges reach |
| Throttle.SendThrottle.Allow | src/oolu/mail.py:285-331 | True exactly if the cooldown has passed and the window in force has room; then the meter counts it, and otherwise, as for every other key, nothing changes |
| Throttle.SentExactly | src/oolu/mail.py:285-331 | Over any readings the next request goes out if and only if it is the first, or the cooldown has passed since the last send and the window in force is a day old or holds fewer than the cap |
| Throttle.AskedIsPaced | src/oolu/mail.py:285-331 | Over any clock readings, backward ones included, sends are at least the cooldown apart and each counted window, a day from the next, holds at most the cap |
| Throttle.DoubleCapSpansADay | src/oolu/mail.py:285-331 | Any 2 * per_day consecutive sends span at least a day |
| Throttle.SlidingWindowBound | src/oolu/mail.py:267-331 | No 24-hour half-open interval, wherever it begins, holds more than 2 * per_day - 1 sends |
| Throttle.DailyMaximum | src/oolu/mail.py:267-331 | Some run packs n sends into some 24-hour half-open interval if and only if n is at most 2 * per_day - 1 and n - 1 cooldowns fit within a day |
| Throttle.BoundIsSharp | src/oolu/mail.py:267-331 | The bound 2 * per_day - 1 is attained if and only if 2 * per_day - 2 cooldowns fit within a day |
| Throttle.CapHoldsExactly | src/oolu/mail.py:267-331 | At most per_day sends fall into every 24-hour interval of every run if and only if per_day is one or per_day cooldowns last a day |
| MailCodes.MailCodeStore.Issue | src/oolu/mail.py:172-187 | A fresh code replaces any prior one, clears the wrong guesses and keeps the verified mark |
| MailCodes.MailCodeStore.Redeem | src/oolu/mail.py:189-218 | Accepts exactly an unexpired, not exhausted, matching code and burns it; a wrong guess is counted; other rows stay |
| MailCodes.MailCodeStore.MarkVerified | src/oolu/mail.py:220-236 | Marks and burns without a code, creating the row if there is none |
| MailCodes.CodesAreSingleUse | src/oolu/mail.py:189-236 | Over any run at most one guess is accepted between two issues, at most five are judged wrong, and an address is verified only after an acceptance or an explicit mark |
| MailCodes.CodeOpensExactly | src/oolu/mail.py:172-218 | Whatever came before, a code issued and then guessed wrong any number of times opens for its own hash if and only if it is tried within thirty minutes and fewer than five of the wrong guesses were |
| ContextPack.RankedKeepsTheBest | src/oolu/contextpack.py:152-161 | The ranked prefix is the best of the same items: nothing left out scores above anything kept |
| ContextPack.AssembledExactly | src/oolu/contextpack.py:151-203 | The pack starts from a line for each of the best-scored cards and a block for each of the best-scored examples with a script, as many as allowed |
| ContextPack.BlocksExactly | src/oolu/contextpack.py:190-203 | An example adds one block, under its id, that shows its script, unless it has none |
| ContextPack.CardIsTold | src/oolu/contextpack.py:151-203 | A card's line begins with its title, or its id for want of one, and tells its goal |
| ContextPack.LessonsExactly | src/oolu/contextpack.py:151-151 | The lessons kept are exactly those that say anything, stripped |
| ContextPack.NothingIsRendered | src/oolu/contextpack.py:204-231 | The text is empty exactly if there is nothing to show |
| ContextPack.HeadIsShown | src/oolu/contextpack.py:204-231 | The text shows every head item whole |
| ContextPack.ContractIsShown | src/oolu/contextpack.py:204-231 | And every contract |
| ContextPack.BlockIsShown | src/oolu/contextpack.py:204-231 | And every example's block |
| ContextPack.NoteIsShown | src/oolu/contextpack.py:204-231 | And every lesson |
| ContextPack.Compact | src/oolu/contextpack.py:240-252 | The loop stops at the first state within budget or with nothing droppable; every state passed on the way was over budget |
| ContextPack.DropsInOrder | src/oolu/contextpack.py:235-252 | After any number of drops: head whole, each class a prefix of its ranking, all examples before any contract, contracts down to three before any lesson, and the record exactly what is gone |
| ContextPack.OverBudgetOnlyWhenBare | src/oolu/contextpack.py:240-252 | With nothing left to drop exactly the head and the best three contracts remain |
| ContextPack.Compile | src/oolu/contextpack.py:134-264 | The pack is the ranked material after the fewest drops that fit the budget, or the bare head and at most three contracts when nothing fits |
| Friendships.FriendshipStore.Request | src/oolu/social.py:870-888 | Refuses oneself and either block; meets a pending request with friendship; otherwise asks; touches no other pair |
| Friendships.FriendshipStore.Accept | src/oolu/social.py:890-898 | Turns their pending request into friendship both ways, or refuses and changes nothing |
| Friendships.FriendshipStore.Decline | src/oolu/social.py:900-904 | Clears their pending request only, or refuses and changes nothing |
| Friendships.FriendshipStore.Block | src/oolu/social.py:906-911 | Leaves my block and nothing of theirs, and no other pair moves |
| Friendships.FriendshipStore.Unblock | src/oolu/social.py:913-915 | Lifts my block if there is one and changes nothing else |
| Friendships.FriendshipStore.Remove | src/oolu/social.py:949-956 | Clears both directions and no other pair |
| Friendships.WhoMayWrite | src/oolu/social.py:841-850 | Between two accounts in any coherent state, one may write the other exactly if they are friends, or it is not blocked by the other and the other keeps an open door |
| Friendships.PairStaysCoherent | src/oolu/social.py:824-839 | Whatever two distinct accounts do in any order, the pair is in one of six coherent states and each side sees the mirror image of the other's relationship |
| Friendships.MovesTellTheStanding | src/oolu/social.py:824-956 | Accounts start as strangers, and each move, after any play, takes its maker to the relationship named and the other side to its mirror image: accepting a pending request makes friends, declining one or lifting one's own block strangers |
| Friendships.RefusalsChangeNothing | src/oolu/social.py:870-904 | An accept or decline succeeds exactly on a pending request of the other side's, a request is refused exactly by a block, and what is refused changes nothing |
| Friendships.MeetingInTheMiddle | src/oolu/social.py:870-892 | From any reachable state without a block, requests from both sides in either order end in friendship |
| Friendships.BlockHolds | src/oolu/social.py:870-915 | While my block stands nothing the other side does, short of a block or removal of its own, changes the pair |

## Left out

- PulseAccounts.WholeRunConservation: years outside 1000 to 9999 are excluded throughout the claim proofs, because `%Y` keys do not sort or parse there.
- Pulse.MissedBetween: needs a floor, an occurrence and a prior claim with years 1000 to 9999, and keys as the code writes them, though they need not be occurrences of the schedule; an occurrence that does not parse raises in the code.
- PulseStores.PulseStore.Add: a weekly, monthly or yearly rhythm carries its day by type, so a missing day is not a separate refusal; `delete`, `erase` and the run id of a claim are left out.
- ReplayGate.Gate: the 5% budget is compared exactly (20 * contradicted > appearances) instead of by floating-point division.
- Skills.Publish: the listing id is a parameter, for the marketplace door is outside; the manifest is kept as the skill's value.
- SkillKeys.OfferedSkillsOccur: for proposed steps that hold an arrow themselves arrow-freedom is sufficient, not necessary; some sets of names with an arrow share no key.
- SpineRanking.RankedRecall: the similarity score is a parameter; confidence numbers and creation stamps decide nothing and are left out.
- CsvRoundTrip.SavingUneditedDropsTrailingBlanks: text with a carriage return outside a CRLF is covered by `CsvRoundTrip.PrintThenParse` only.
- Ledger.RecordingKeepsMirror: like `LedgerMirror.MirrorHoldsExactly`, assumes a spine that does not raise; the ledger swallows such failures and the two then drift apart.
- NegativeBook.BookIsKept: at each recording none of the ten newest standing failures, and at a check none of the five, may have 200 newer standing rows beside it, because the code reads no further; a subject spelled `mechanism:` and one of its own mechanisms shares its twins' scope and is left out, as are failures of a tenant and goal that swap places.
- ProgramAuthors.ProgramAuthor.BuildProgram: replies, screens and check runs are oracles numbered by use; planning prompts, fence extraction, the rendered dispatcher and the list of states are left out.
- Throttle.SendThrottle.Allow: time and cooldown are whole microseconds, so a fractional float cooldown is not modelled.
- ContextPack.Compile: similarity scores, the token estimate, the verbatim head and the budget are parameters; the list of what was included is left out.
- Friendships.FriendshipStore.Remove: aliases and list preferences cleared with a friendship are left out.
- Friendships.BlockHolds: a block does not survive the other side's own block or removal, which clear both directions.
- Time is whole minutes in the pulse, which is exact because every occurrence is a whole minute; the year limits of the platform's date type are not modelled.
- Text is stripped and lowered for ASCII only. The wording of statements, verdicts and seat notes is modelled but decides nothing and has no theorem.
- Database transactions, locks, JSON and hashing are left out: each store operation is atomic and a hash is any function that never returns the empty text.
- `handoffs.py`: the hand-off queue, leases, resume and expertise scores; `mail.py`: senders and `forget`; `social.py`: messages, reports and photos; these are wiring or single-map bookkeeping.
- The spoken-rhythm parser and wording in `pulse.py` (lines 216-341) are regular expressions over phrases.
