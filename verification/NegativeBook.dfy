/** A goal's standing failures over whole runs, kept as a book of reports and counts, and what the
    pre-commitment check reads in it. */
module NegativeBook {
  import opened Spine
  import opened SpineLaws
  import opened Episodes
  import opened Negative
  import opened Ledger
  import opened NegativeCounts

  /** One standing failure: the last report of its mechanism, and the count it carries. */
  datatype Entry = Entry(report: Report, count: nat)
  {
    function Mechanism(): string {
      MechanismOf(report.problem)
    }

    function AsValue(): Value {
      FailureValue(report.problem, report.applicability, count, report.reopen)
    }
  }

  function Others(book: seq<Entry>, mechanism: string): seq<Entry> {
    if book == [] then []
    else (if book[0].Mechanism() == mechanism then [] else [book[0]]) + Others(book[1..], mechanism)
  }

  function MostCounted(book: seq<Entry>, mechanism: string): nat {
    if book == [] then 0 else
    var rest := MostCounted(book[1..], mechanism);
    if book[0].Mechanism() == mechanism && book[0].count >= rest then book[0].count else rest
  }

  /** A recording reads the ten newest entries: it counts on from those of its mechanism, takes their
      place and comes first. */
  function Renewed(book: seq<Entry>, f: Report): seq<Entry> {
    var seen, mechanism := Take(book, RECALLED_FAILURES), MechanismOf(f.problem);
    [Entry(f, 1 + MostCounted(seen, mechanism))] + (Others(seen, mechanism) + book[|seen|..])
  }

  /** The book after a run, newest first. */
  function Book(hs: seq<Happening>): seq<Entry> {
    if hs == [] then [] else
    var before := Book(hs[..|hs| - 1]);
    match hs[|hs| - 1]
    case Failed(f, _) => Renewed(before, f)
    case Published(_, _, _) => []
    case _ => before
  }

  // ---- The log keeps the book ----

  ghost predicate Holds(log: Log, ids: seq<int>, book: seq<Entry>) {
    |ids| == |book| && forall k :: 0 <= k < |ids| ==> ValueOf(log, ids[k]) == book[k].AsValue()
  }

  /** The scope's standing failures, newest first, are the book's entries. */
  ghost predicate Keeps(log: Log, scope: Scope, book: seq<Entry>) {
    Holds(log, Failures(log, scope), book)
  }

  function Dropping(ids: seq<int>, gone: set<int>): seq<int> {
    if ids == [] then [] else (if ids[0] in gone then [] else [ids[0]]) + Dropping(ids[1..], gone)
  }

  lemma {:induction false} DroppingMembers(ids: seq<int>, gone: set<int>)
    requires Descending(ids)
    ensures Descending(Dropping(ids, gone))
    ensures forall id :: id in Dropping(ids, gone) <==> id in ids && id !in gone
  {
    if ids != [] {
      var rest := Dropping(ids[1..], gone);
      TailIsSmaller(ids);
      DroppingMembers(ids[1..], gone);
      DescendingFirst(ids[0], rest);
      hide Descending, Dropping;
      assert Dropping(ids, gone) == if ids[0] in gone then rest else [ids[0]] + rest by {
        DroppingMore(ids[0], ids[1..], gone);
        assert ids == [ids[0]] + ids[1..];
      }
    }
  }

  lemma {:induction false} DroppingMore(id: int, ids: seq<int>, gone: set<int>)
    ensures Dropping([id] + ids, gone) == if id in gone then Dropping(ids, gone) else [id] + Dropping(ids, gone)
  {
    assert ([id] + ids)[1..] == ids;
  }

  lemma {:induction false} DroppingJoin(a: seq<int>, b: seq<int>, gone: set<int>)
    ensures Dropping(a + b, gone) == Dropping(a, gone) + Dropping(b, gone)
  {
    if a == [] {
      assert a + b == b;
    } else {
      var first, rest := a[0], a[1..];
      assert a == [first] + rest && a + b == [first] + (rest + b);
      hide *;
      DroppingMore(first, rest, gone);
      DroppingMore(first, rest + b, gone);
      DroppingJoin(rest, b, gone);
      Regroup(first, Dropping(rest, gone), Dropping(b, gone));
    }
  }

  lemma {:induction false} Regroup(first: int, a: seq<int>, b: seq<int>)
    ensures [first] + (a + b) == ([first] + a) + b
  {
  }

  lemma {:induction false} PartsDescend(a: seq<int>, b: seq<int>)
    requires Descending(a + b)
    ensures Descending(a) && Descending(b) && forall x <- a :: x !in b
  {
    var whole := a + b;
    assert forall i :: 0 <= i < |a| ==> whole[i] == a[i];
    assert forall i :: 0 <= i < |b| ==> whole[|a| + i] == b[i];
  }

  lemma {:induction false} DroppingNone(ids: seq<int>, gone: set<int>)
    requires forall id <- ids :: id !in gone
    ensures Dropping(ids, gone) == ids
  {
    if ids != [] {
      assert ids[0] in ids && ids == [ids[0]] + ids[1..];
      assert forall id <- ids[1..] :: id in ids;
      DroppingMore(ids[0], ids[1..], gone);
      DroppingNone(ids[1..], gone);
    }
  }

  /** Without the matching ones. */
  function Unmatched(log: Log, ids: seq<int>, mechanism: string): seq<int> {
    if ids == [] then []
    else (if SameMechanism(ValueOf(log, ids[0]), mechanism) then [] else [ids[0]]) + Unmatched(log, ids[1..], mechanism)
  }

  lemma {:induction false} DroppingMatching(log: Log, ids: seq<int>, mechanism: string, gone: set<int>)
    requires forall id <- ids :: id in gone <==> SameMechanism(ValueOf(log, id), mechanism)
    ensures Dropping(ids, gone) == Unmatched(log, ids, mechanism)
  {
    if ids != [] {
      assert ids[0] in ids;
      hide SameMechanism;
      DroppingMatching(log, ids[1..], mechanism, gone);
    }
  }

  lemma {:induction false} HoldsOthers(log: Log, ids: seq<int>, book: seq<Entry>, mechanism: string)
    requires Holds(log, ids, book)
    ensures Holds(log, Unmatched(log, ids, mechanism), Others(book, mechanism))
  {
    if ids != [] {
      assert ValueOf(log, ids[0]) == book[0].AsValue();
      HoldsOthers(log, ids[1..], book[1..], mechanism);
    }
  }

  lemma {:induction false} HoldsCount(log: Log, ids: seq<int>, book: seq<Entry>, mechanism: string)
    requires Holds(log, ids, book)
    ensures MostReproduced(log, Matching(log, ids, mechanism)) == MostCounted(book, mechanism)
  {
    if ids != [] {
      var rest := Matching(log, ids[1..], mechanism);
      CountedFirst(log, ids[0], book[0], mechanism);
      assert Holds(log, ids[1..], book[1..]);
      assert Matching(log, ids, mechanism)
          == (if SameMechanism(ValueOf(log, ids[0]), mechanism) then [ids[0]] else []) + rest;
      assert MostCounted(book, mechanism)
          == var more := MostCounted(book[1..], mechanism);
             if book[0].Mechanism() == mechanism && book[0].count >= more then book[0].count else more;
      hide *;
      HoldsCount(log, ids[1..], book[1..], mechanism);
      MostReproducedMore(log, ids[0], rest);
      assert [] + rest == rest;
    }
  }

  lemma {:induction false} CountedFirst(log: Log, id: int, e: Entry, mechanism: string)
    requires ValueOf(log, id) == e.AsValue()
    ensures SameMechanism(ValueOf(log, id), mechanism) <==> e.Mechanism() == mechanism
    ensures Reproductions(ValueOf(log, id)) == e.count
  {
    hide MechanismOf;
  }

  lemma {:induction false} MostReproducedMore(log: Log, id: int, ids: seq<int>)
    ensures var most, own := MostReproduced(log, ids), Reproductions(ValueOf(log, id));
      MostReproduced(log, [id] + ids) == if own >= most then own else most
  {
    assert ([id] + ids)[1..] == ids;
  }

  lemma {:induction false} HoldsJoin(log: Log, a: seq<int>, x: seq<Entry>, b: seq<int>, y: seq<Entry>)
    requires Holds(log, a, x) && Holds(log, b, y)
    ensures Holds(log, a + b, x + y)
  {
  }

  lemma {:induction false} HoldsParts(log: Log, ids: seq<int>, book: seq<Entry>, limit: int)
    requires Holds(log, ids, book)
    ensures var first, seen := Take(ids, limit), Take(book, limit);
      && |first| == |seen| && Holds(log, first, seen) && Holds(log, ids[|first|..], book[|seen|..])
      && ids == first + ids[|first|..] && book == seen + book[|seen|..]
  {
    var first, seen := Take(ids, limit), Take(book, limit);
    assert |first| == |seen| <= |ids| == |book|;
    assert first == ids[..|first|] && seen == book[..|seen|];
    hide *;
    HoldsSlices(log, ids, book, |first|);
  }

  lemma {:induction false} HoldsSlices(log: Log, ids: seq<int>, book: seq<Entry>, n: nat)
    requires Holds(log, ids, book) && n <= |ids| == |book|
    ensures Holds(log, ids[..n], book[..n]) && Holds(log, ids[n..], book[n..])
    ensures ids == ids[..n] + ids[n..] && book == book[..n] + book[n..]
  {
    hide ValueOf, MechanismOf;
  }

  lemma {:induction false} HoldsLater(log: Log, log': Log, ids: seq<int>, book: seq<Entry>)
    requires Holds(log, ids, book) && forall id <- ids :: ValueOf(log', id) == ValueOf(log, id)
    ensures Holds(log', ids, book)
  {
  }

  /** After a recording the scope's failures are the new one, then those it did not take over. */
  lemma {:induction false} RecordedFailures(log: Log, log': Log, prior: set<int>, scope: Scope, mechanism: string)
    requires IsRecording(log, log', prior, scope, mechanism)
    ensures Failures(log', scope) == [|log| + 1] + Dropping(Failures(log, scope), prior)
  {
    var rest := Dropping(Failures(log, scope), prior);
    DroppingMembers(Failures(log, scope), prior);
    assert forall id <- rest :: OpenFailure(log, id, scope);
    DescendingFirst(|log| + 1, rest);
    hide Descending;
    forall id ensures id in Failures(log', scope) <==> id == |log| + 1 || id in rest {
      if 1 <= id <= |log| {
        assert log'[id - 1] == if id in prior then StampRow(log[id - 1], |log| + 1) else log[id - 1];
      }
    }
    SameDescending(Failures(log', scope), [|log| + 1] + rest);
  }

  /** What the recording takes over is what matches among the ten newest. */
  lemma {:induction false} SplitFailures(log: Log, tenant: string, subject: string, mechanism: string, now: int)
    requires OwnFailures(log) && InView(log, ScopeOf(tenant, subject), now, RECALLED_FAILURES)
    ensures var ids := Failures(log, ScopeOf(tenant, subject));
      var first := Take(ids, RECALLED_FAILURES);
      && Prior(log, tenant, subject, mechanism, now) == Matching(log, first, mechanism)
      && Dropping(ids, Elements(Prior(log, tenant, subject, mechanism, now)))
         == Unmatched(log, first, mechanism) + ids[|first|..]
  {
    var ids := Failures(log, ScopeOf(tenant, subject));
    var first := Take(ids, RECALLED_FAILURES);
    var rest := ids[|first|..];
    RecallIsFailures(log, ScopeOf(tenant, subject), now, RECALLED_FAILURES);
    var prior := Prior(log, tenant, subject, mechanism, now);
    var gone := Elements(prior);
    assert prior == Matching(log, first, mechanism) && first + rest == ids;
    hide Recalled, InView, OwnFailures, Failures, ScopeOf, Prior, Take;
    DroppingJoin(first, rest, gone);
    PartsDescend(first, rest);
    hide Descending;
    DroppingMatching(log, first, mechanism, gone);
    DroppingNone(rest, gone);
  }

  lemma {:induction false} RecordingIsRenewal(log: Log, tenant: string, subject: string, f: Report, now: int,
                                              book: seq<Entry>)
    requires OwnFailures(log) && InView(log, ScopeOf(tenant, subject), now, RECALLED_FAILURES)
    requires subject != "mechanism:" + MechanismOf(f.problem) && Keeps(log, ScopeOf(tenant, subject), book)
    ensures Keeps(FailureRecorded(log, tenant, subject, f, now), ScopeOf(tenant, subject), Renewed(book, f))
  {
    hide *;
    var scope, mechanism := ScopeOf(tenant, subject), MechanismOf(f.problem);
    var ids := Failures(log, scope);
    var first, seen := Take(ids, RECALLED_FAILURES), Take(book, RECALLED_FAILURES);
    var count := 1 + MostCounted(seen, mechanism);
    KeepsHolds(log, scope, book);
    HoldsParts(log, ids, book, RECALLED_FAILURES);
    SplitFailures(log, tenant, subject, mechanism, now);
    HoldsOthers(log, first, seen, mechanism);
    HoldsCount(log, first, seen, mechanism);
    var kept, rest := Unmatched(log, first, mechanism) + ids[|first|..], Others(seen, mechanism) + book[|seen|..];
    HoldsJoin(log, Unmatched(log, first, mechanism), Others(seen, mechanism), ids[|first|..], book[|seen|..]);
    RecordingAddsFirst(log, tenant, subject, f, now, kept);
    EntryReported(log, tenant, subject, f, now);
    var log' := FailureRecorded(log, tenant, subject, f, now);
    FirstThenRest(log, log', kept, rest, Entry(f, count));
    RenewedIs(book, f);
    KeepsIs(log', scope, [|log| + 1] + kept, [Entry(f, count)] + rest);
  }

  lemma {:induction false} RenewedIs(book: seq<Entry>, f: Report)
    ensures var seen, mechanism := Take(book, RECALLED_FAILURES), MechanismOf(f.problem);
      && |seen| <= |book|
      && Renewed(book, f) == [Entry(f, 1 + MostCounted(seen, mechanism))] + (Others(seen, mechanism) + book[|seen|..])
  {
    hide MechanismOf, MostCounted, Others;
  }

  lemma {:induction false} EntryReported(log: Log, tenant: string, subject: string, f: Report, now: int)
    ensures var prior := Prior(log, tenant, subject, MechanismOf(f.problem), now);
      ReportValue(log, tenant, subject, f, now) == Entry(f, 1 + MostReproduced(log, prior)).AsValue()
  {
    hide Prior, MechanismOf, MostReproduced;
  }

  lemma {:induction false} KeepsHolds(log: Log, scope: Scope, book: seq<Entry>)
    requires Keeps(log, scope, book)
    ensures Holds(log, Failures(log, scope), book)
  {
  }

  lemma {:induction false} KeepsIs(log: Log, scope: Scope, ids: seq<int>, book: seq<Entry>)
    requires Failures(log, scope) == ids && Holds(log, ids, book)
    ensures Keeps(log, scope, book)
  {
  }

  lemma {:induction false} FirstThenRest(log: Log, log': Log, kept: seq<int>, rest: seq<Entry>, entry: Entry)
    requires Holds(log, kept, rest) && ValueOf(log', |log| + 1) == entry.AsValue()
    requires forall id <- kept :: ValueOf(log', id) == ValueOf(log, id)
    ensures Holds(log', [|log| + 1] + kept, [entry] + rest)
  {
    hide ValueOf;
  }

  lemma {:induction false} RecordingAddsFirst(log: Log, tenant: string, subject: string, f: Report, now: int,
                                              kept: seq<int>)
    requires OwnFailures(log) && InView(log, ScopeOf(tenant, subject), now, RECALLED_FAILURES)
    requires subject != "mechanism:" + MechanismOf(f.problem)
    requires kept == Dropping(Failures(log, ScopeOf(tenant, subject)),
                              Elements(Prior(log, tenant, subject, MechanismOf(f.problem), now)))
    ensures var log' := FailureRecorded(log, tenant, subject, f, now);
      && Failures(log', ScopeOf(tenant, subject)) == [|log| + 1] + kept
      && ValueOf(log', |log| + 1) == ReportValue(log, tenant, subject, f, now)
      && forall id <- kept :: ValueOf(log', id) == ValueOf(log, id)
  {
    DroppingMembers(Failures(log, ScopeOf(tenant, subject)),
                    Elements(Prior(log, tenant, subject, MechanismOf(f.problem), now)));
    var scope, mechanism := ScopeOf(tenant, subject), MechanismOf(f.problem);
    var log' := FailureRecorded(log, tenant, subject, f, now);
    var prior := Elements(Prior(log, tenant, subject, mechanism, now));
    TwinScopeApart(tenant, subject, mechanism);
    RecordedRows(log, tenant, subject, f, now);
    RecordedPast(log, tenant, subject, f, now);
    hide FailureRecorded, ReportValue, MechanismOf, ScopeOf, Prior, InView, OwnFailures;
    RecordedFailures(log, log', prior, scope, mechanism);
    forall id | id in kept ensures ValueOf(log', id) == ValueOf(log, id) {
      assert OpenFailure(log, id, scope) && id !in prior;
      assert log'[id - 1] == log[id - 1];
    }
  }

  lemma {:induction false} UntouchedBook(log: Log, log': Log, scope: Scope, book: seq<Entry>)
    requires Keeps(log, scope, book) && |log| <= |log'|
    requires forall id :: OpenFailure(log', id, scope) <==> OpenFailure(log, id, scope)
    requires forall id :: OpenFailure(log, id, scope) ==> log'[id - 1] == log[id - 1]
    ensures Keeps(log', scope, book)
  {
    SameDescending(Failures(log, scope), Failures(log', scope));
    HoldsLater(log, log', Failures(log, scope), book);
  }

  lemma {:induction false} PublishedBook(log: Log, a: Attempt, id: nat, provenance: seq<string>)
    requires a.status == PUBLISHED
    ensures Keeps(Bridged(log, a, id, provenance), ScopeOf(a.tenant, a.goalKey), [])
  {
    PublishClosesFailures(log, a, id, provenance);
    var ids := Failures(Bridged(log, a, id, provenance), ScopeOf(a.tenant, a.goalKey));
    hide Bridged, ScopeOf, Failures;
    NoElements(ids);
    assert forall id :: id !in Elements(ids);
  }

  lemma {:induction false} StepKeepsBook(log: Log, tenant: string, subject: string, hs: seq<Happening>)
    requires hs != [] && OwnFailures(log) && Fits(log, tenant, subject, hs[|hs| - 1])
    requires Keeps(log, ScopeOf(tenant, subject), Book(hs[..|hs| - 1]))
    ensures Keeps(Then(log, tenant, subject, hs[|hs| - 1]), ScopeOf(tenant, subject), Book(hs))
  {
    var book, scope := Book(hs[..|hs| - 1]), ScopeOf(tenant, subject);
    hide *;
    BookIs(hs);
    FitsIs(log, tenant, subject, hs[|hs| - 1]);
    ThenIs(log, tenant, subject, hs[|hs| - 1]);
    match hs[|hs| - 1]
    case Failed(f, now) => RecordingIsRenewal(log, tenant, subject, f, now, book);
    case FailedElsewhere(t, s, f, now) => ElsewhereBook(log, t, s, f, now, scope, book);
    case Published(a, id, provenance) => PublishedBook(log, a, id, provenance);
    case Otherwise(w) => OtherwiseBook(log, w, scope, book);
  }

  lemma {:induction false} BookIs(hs: seq<Happening>)
    requires hs != []
    ensures var book := Book(hs[..|hs| - 1]);
      match hs[|hs| - 1]
      case Failed(f, _) => Book(hs) == Renewed(book, f)
      case Published(_, _, _) => Book(hs) == []
      case _ => Book(hs) == book
  {
    hide Renewed;
  }

  lemma {:induction false} FitsIs(log: Log, tenant: string, subject: string, h: Happening)
    requires Fits(log, tenant, subject, h)
    ensures var scope := ScopeOf(tenant, subject);
      match h
      case Failed(f, now) =>
        InView(log, scope, now, RECALLED_FAILURES) && subject != "mechanism:" + MechanismOf(f.problem)
      case FailedElsewhere(t, s, f, _) => ScopeOf(t, s) != scope && TwinScope(t, MechanismOf(f.problem)) != scope
      case Published(a, _, _) => a.status == PUBLISHED && ScopeOf(a.tenant, a.goalKey) == scope
      case Otherwise(w) => LeavesFailures(log, w, scope)
  {
    hide InView, MechanismOf, ScopeOf, LeavesFailures, TwinScope;
  }

  lemma {:induction false} ThenIs(log: Log, tenant: string, subject: string, h: Happening)
    ensures match h
      case Failed(f, now) => Then(log, tenant, subject, h) == FailureRecorded(log, tenant, subject, f, now)
      case FailedElsewhere(t, s, f, now) => Then(log, tenant, subject, h) == FailureRecorded(log, t, s, f, now)
      case Published(a, id, provenance) => Then(log, tenant, subject, h) == Bridged(log, a, id, provenance)
      case Otherwise(w) => Then(log, tenant, subject, h) == Apply(log, w)
  {
  }

  lemma {:induction false} ElsewhereBook(log: Log, t: string, s: string, f: Report, now: int, scope: Scope,
                                         book: seq<Entry>)
    requires ScopeOf(t, s) != scope && TwinScope(t, MechanismOf(f.problem)) != scope && Keeps(log, scope, book)
    ensures Keeps(FailureRecorded(log, t, s, f, now), scope, book)
  {
    hide FailureRecorded, ScopeOf, TwinScope, MechanismOf, Keeps;
    ElsewhereIsUntouched(log, t, s, f, now, scope);
    UntouchedBook(log, FailureRecorded(log, t, s, f, now), scope, book);
  }

  lemma {:induction false} OtherwiseBook(log: Log, w: Write, scope: Scope, book: seq<Entry>)
    requires LeavesFailures(log, w, scope) && Keeps(log, scope, book)
    ensures Keeps(Apply(log, w), scope, book)
  {
    hide Keeps;
    UntouchedBook(log, Apply(log, w), scope, book);
  }

  /** Over any run the goal's standing failures are the book's entries, newest first. */
  lemma {:induction false} BookIsKept(hs: seq<Happening>, tenant: string, subject: string, log: Log)
    requires Runs(hs, tenant, subject, log)
    ensures OwnFailures(log) && Keeps(log, ScopeOf(tenant, subject), Book(hs))
    decreases |hs|
  {
    if hs != [] {
      hide Keeps, OwnFailures, Then, Fits, Book;
      var before :| LastStep(hs, tenant, subject, before, log) && Runs(hs[..|hs| - 1], tenant, subject, before);
      BookIsKept(hs[..|hs| - 1], tenant, subject, before);
      StepKeepsOwnFailures(before, tenant, subject, hs[|hs| - 1]);
      StepKeepsBook(before, tenant, subject, hs);
    }
  }

  // ---- What the check reads in it ----

  /** Entry k is the newest that counts two or more. */
  predicate NewestRepeated(book: seq<Entry>, k: int) {
    0 <= k < |book| && book[k].count >= 2 && forall i :: 0 <= i < k ==> book[i].count < 2
  }

  ghost predicate NewestRepeats(book: seq<Entry>, context: Pairs) {
    exists k :: NewestRepeated(book, k) && Repeats(book[k].report, context)
  }

  lemma {:induction false} JudgedRepeats(e: Entry, context: Pairs)
    requires e.count >= 2
    ensures Judged(e.AsValue(), context).blocked <==> Repeats(e.report, context)
  {
    JudgedBlocks(e.AsValue(), context);
    hide Judged, MechanismOf;
  }

  lemma {:induction false} RepeatsByFirst(book: seq<Entry>, context: Pairs)
    ensures NewestRepeats(book, context)
      <==> book != [] && if book[0].count >= 2 then Repeats(book[0].report, context)
                         else NewestRepeats(book[1..], context)
  {
    hide Repeats;
    if book != [] && book[0].count >= 2 {
      assert NewestRepeated(book, 0) && forall k :: NewestRepeated(book, k) ==> k == 0;
    } else if book != [] {
      var rest := book[1..];
      forall k | 0 <= k < |rest| ensures NewestRepeated(book, k + 1) <==> NewestRepeated(rest, k) {
        assert forall i :: 0 <= i < k ==> rest[i] == book[i + 1];
        assert forall i :: 1 <= i <= k ==> rest[i - 1] == book[i];
      }
      if k :| NewestRepeated(rest, k) && Repeats(rest[k].report, context) {
        assert NewestRepeated(book, k + 1);
      }
      if k :| NewestRepeated(book, k) && Repeats(book[k].report, context) {
        assert NewestRepeated(rest, k - 1) <==> NewestRepeated(book, (k - 1) + 1);
      }
    }
  }

  lemma {:induction false} JudgedFirst(log: Log, ids: seq<int>, book: seq<Entry>, context: Pairs)
    requires Holds(log, ids, book)
    ensures FirstJudged(log, ids, context).blocked <==> NewestRepeats(book, context)
  {
    RepeatsByFirst(book, context);
    hide NewestRepeats, Judged;
    if ids != [] {
      assert ValueOf(log, ids[0]) == book[0].AsValue();
      if book[0].count >= 2 {
        JudgedRepeats(book[0], context);
      } else {
        JudgedFirst(log, ids[1..], book[1..], context);
      }
    }
  }

  /** At any point of any run, with the five newest failures in view, the check blocks if and only if
      the newest of the book's first five entries that counts two or more is an identical retry. */
  lemma {:induction false} CheckReadsTheBook(hs: seq<Happening>, tenant: string, subject: string, log: Log,
                                             context: Pairs, now: int)
    requires Runs(hs, tenant, subject, log) && InView(log, ScopeOf(tenant, subject), now, CHECKED_FAILURES)
    ensures Checked(log, tenant, subject, context, now).blocked
      <==> NewestRepeats(Take(Book(hs), CHECKED_FAILURES), context)
  {
    var scope := ScopeOf(tenant, subject);
    var ids := Recalled(log, scope, now, [FAILURE], CHECKED_FAILURES);
    assert Checked(log, tenant, subject, context, now) == FirstJudged(log, ids, context);
    BookIsKept(hs, tenant, subject, log);
    assert Holds(log, Failures(log, scope), Book(hs));
    hide *;
    RecallIsFailures(log, scope, now, CHECKED_FAILURES);
    HoldsParts(log, Failures(log, scope), Book(hs), CHECKED_FAILURES);
    JudgedFirst(log, ids, Take(Book(hs), CHECKED_FAILURES), context);
  }

  // ---- The book, read off the run ----

  /** When a mechanism was last recorded since the last publish: zero if it was not. */
  function LastAt(hs: seq<Happening>, mechanism: string): nat {
    if hs == [] then 0 else
    var before := LastAt(hs[..|hs| - 1], mechanism);
    match hs[|hs| - 1]
    case Failed(f, _) => if MechanismOf(f.problem) == mechanism then |hs| else before
    case Published(_, _, _) => 0
    case _ => before
  }

  /** The mechanisms recorded since the last publish. */
  function Mechanisms(hs: seq<Happening>): set<string> {
    if hs == [] then {} else
    match hs[|hs| - 1]
    case Failed(f, _) => Mechanisms(hs[..|hs| - 1]) + {MechanismOf(f.problem)}
    case Published(_, _, _) => {}
    case _ => Mechanisms(hs[..|hs| - 1])
  }

  /** No recording finds more than ten mechanisms recorded since the last publish. */
  predicate Few(hs: seq<Happening>) {
    hs == [] || (Few(hs[..|hs| - 1]) && (hs[|hs| - 1].Failed? ==> |Mechanisms(hs[..|hs| - 1])| <= RECALLED_FAILURES))
  }

  /** The mechanism's last report was f. */
  predicate LastReport(hs: seq<Happening>, mechanism: string, f: Report) {
    var n := LastAt(hs, mechanism);
    1 <= n <= |hs| && hs[n - 1].Failed? && hs[n - 1].report == f
  }

  function Named(book: seq<Entry>): set<string> {
    set e | e in book :: e.Mechanism()
  }

  predicate LastFirst(hs: seq<Happening>, book: seq<Entry>) {
    forall i, j :: 0 <= i < j < |book| ==> LastAt(hs, book[i].Mechanism()) > LastAt(hs, book[j].Mechanism())
  }

  predicate TellsOf(hs: seq<Happening>, e: Entry) {
    e.count == Recordings(hs, e.Mechanism()) && LastReport(hs, e.Mechanism(), e.report)
  }

  /** One entry for each mechanism recorded since the last publish, with its last report and the number
      of its recordings, the last recorded first. */
  ghost predicate Tells(hs: seq<Happening>, book: seq<Entry>) {
    (forall e <- book :: TellsOf(hs, e)) && LastFirst(hs, book) && Mechanisms(hs) == Named(book)
  }

  lemma {:induction false} RecordedOnce(hs: seq<Happening>, mechanism: string)
    ensures Recordings(hs, mechanism) > 0 <==> mechanism in Mechanisms(hs)
    ensures LastAt(hs, mechanism) > 0 <==> mechanism in Mechanisms(hs)
    ensures LastAt(hs, mechanism) <= |hs|
  {
    hide MechanismOf;
    if hs != [] {
      RecordedOnce(hs[..|hs| - 1], mechanism);
    }
  }

  lemma {:induction false} OthersMembers(book: seq<Entry>, mechanism: string)
    ensures forall e :: e in Others(book, mechanism) <==> e in book && e.Mechanism() != mechanism
  {
    if book != [] {
      assert book == [book[0]] + book[1..];
      OthersMembers(book[1..], mechanism);
    }
  }

  lemma {:induction false} OthersLastFirst(hs: seq<Happening>, book: seq<Entry>, mechanism: string)
    requires LastFirst(hs, book)
    ensures LastFirst(hs, Others(book, mechanism))
  {
    if book != [] {
      var rest := Others(book[1..], mechanism);
      OthersLastFirst(hs, book[1..], mechanism);
      OthersMembers(book[1..], mechanism);
      forall j | 0 <= j < |rest| ensures LastAt(hs, book[0].Mechanism()) > LastAt(hs, rest[j].Mechanism()) {
        assert rest[j] in book[1..];
      }
    }
  }

  lemma {:induction false} CountOfAll(book: seq<Entry>, mechanism: string, n: nat)
    requires forall e <- book :: e.Mechanism() == mechanism ==> e.count == n
    ensures MostCounted(book, mechanism) == if mechanism in Named(book) then n else 0
  {
    if book != [] {
      assert book[0] in book && forall e <- book[1..] :: e in book;
      CountOfAll(book[1..], mechanism, n);
      assert Named(book) == {book[0].Mechanism()} + Named(book[1..]);
    }
  }

  lemma {:induction false} DistinctlyNamed(hs: seq<Happening>, book: seq<Entry>)
    requires LastFirst(hs, book)
    ensures |Named(book)| == |book|
  {
    if book != [] {
      var first, rest := book[0], book[1..];
      DistinctlyNamed(hs, rest);
      assert Named(book) == {first.Mechanism()} + Named(rest);
      assert forall j :: 0 <= j < |rest| ==> rest[j] == book[j + 1];
      assert first.Mechanism() !in Named(rest);
    }
  }

  lemma {:induction false} RenewedTells(hs: seq<Happening>, book: seq<Entry>)
    requires hs != [] && hs[|hs| - 1].Failed? && Tells(hs[..|hs| - 1], book) && |book| <= RECALLED_FAILURES
    ensures Tells(hs, Renewed(book, hs[|hs| - 1].report))
  {
    hide *;
    var before, f := hs[..|hs| - 1], hs[|hs| - 1].report;
    var mechanism, rest := MechanismOf(f.problem), Others(book, MechanismOf(f.problem));
    var first := Entry(f, 1 + MostCounted(book, mechanism));
    TellsIs(before, book);
    RenewedFew(book, f);
    FirstTells(hs, book);
    OthersTell(hs, book, rest);
    OthersAreNamed(book, mechanism);
    assert Named(book) - {mechanism} + {mechanism} == Named(book) + {mechanism};
    JoinTells(hs, first, rest, mechanism);
  }

  lemma {:induction false} TellsIs(hs: seq<Happening>, book: seq<Entry>)
    requires Tells(hs, book)
    ensures (forall e <- book :: TellsOf(hs, e)) && LastFirst(hs, book) && Mechanisms(hs) == Named(book)
  {
  }

  lemma {:induction false} OthersAreNamed(book: seq<Entry>, mechanism: string)
    ensures Named(Others(book, mechanism)) == Named(book) - {mechanism}
  {
    OthersMembers(book, mechanism);
    hide MechanismOf, Others;
  }

  lemma {:induction false} RenewedFew(book: seq<Entry>, f: Report)
    requires |book| <= RECALLED_FAILURES
    ensures var mechanism := MechanismOf(f.problem);
      Renewed(book, f) == [Entry(f, 1 + MostCounted(book, mechanism))] + Others(book, mechanism)
  {
    hide MechanismOf, MostCounted;
    var rest := Others(book, MechanismOf(f.problem));
    assert Take(book, RECALLED_FAILURES) == book && book[|book|..] == [] && rest + [] == rest;
    hide Others;
  }

  lemma {:induction false} FirstTells(hs: seq<Happening>, book: seq<Entry>)
    requires hs != [] && hs[|hs| - 1].Failed?
    requires (forall e <- book :: TellsOf(hs[..|hs| - 1], e)) && Mechanisms(hs[..|hs| - 1]) == Named(book)
    ensures var f := hs[|hs| - 1].report;
      TellsOf(hs, Entry(f, 1 + MostCounted(book, MechanismOf(f.problem))))
    ensures var mechanism := MechanismOf(hs[|hs| - 1].report.problem);
      LastAt(hs, mechanism) == |hs| && Mechanisms(hs) == Named(book) + {mechanism}
  {
    var before, mechanism := hs[..|hs| - 1], MechanismOf(hs[|hs| - 1].report.problem);
    CountOfAll(book, mechanism, Recordings(before, mechanism));
    RecordedOnce(before, mechanism);
    hide MechanismOf, MostCounted, Named;
  }

  lemma {:induction false} OthersTell(hs: seq<Happening>, book: seq<Entry>, rest: seq<Entry>)
    requires hs != [] && hs[|hs| - 1].Failed?
    requires (forall e <- book :: TellsOf(hs[..|hs| - 1], e)) && LastFirst(hs[..|hs| - 1], book)
    requires rest == Others(book, MechanismOf(hs[|hs| - 1].report.problem))
    ensures LastFirst(hs, rest) && forall e <- rest :: TellsOf(hs, e) && LastAt(hs, e.Mechanism()) < |hs|
  {
    var before, mechanism := hs[..|hs| - 1], MechanismOf(hs[|hs| - 1].report.problem);
    OthersMembers(book, mechanism);
    OthersLastFirst(before, book, mechanism);
    hide *;
    forall e | e in rest
      ensures TellsOf(hs, e) && LastAt(hs, e.Mechanism()) == LastAt(before, e.Mechanism()) < |hs|
    {
      OtherTells(hs, e);
    }
    SameOrder(before, hs, rest);
  }

  lemma {:induction false} OtherTells(hs: seq<Happening>, e: Entry)
    requires hs != [] && hs[|hs| - 1].Failed? && TellsOf(hs[..|hs| - 1], e)
    requires e.Mechanism() != MechanismOf(hs[|hs| - 1].report.problem)
    ensures TellsOf(hs, e) && LastAt(hs, e.Mechanism()) == LastAt(hs[..|hs| - 1], e.Mechanism()) < |hs|
  {
    RecordedOnce(hs[..|hs| - 1], e.Mechanism());
    hide MechanismOf;
  }

  lemma {:induction false} SameOrder(before: seq<Happening>, hs: seq<Happening>, book: seq<Entry>)
    requires LastFirst(before, book)
    requires forall e <- book :: LastAt(hs, e.Mechanism()) == LastAt(before, e.Mechanism())
    ensures LastFirst(hs, book)
  {
    hide LastAt, MechanismOf;
    assert forall j :: 0 <= j < |book| ==> book[j] in book;
  }

  lemma {:induction false} JoinTells(hs: seq<Happening>, first: Entry, rest: seq<Entry>, mechanism: string)
    requires TellsOf(hs, first) && MechanismOf(first.report.problem) == mechanism && LastAt(hs, mechanism) == |hs|
    requires LastFirst(hs, rest) && forall e <- rest :: TellsOf(hs, e) && LastAt(hs, e.Mechanism()) < |hs|
    requires Mechanisms(hs) == Named(rest) + {mechanism}
    ensures Tells(hs, [first] + rest)
  {
    hide MechanismOf, LastAt, TellsOf, Mechanisms;
    assert forall j :: 0 <= j < |rest| ==> rest[j] in rest;
    assert first.Mechanism() == mechanism && first in [first] + rest;
    assert forall e <- rest :: e in [first] + rest;
    assert Named([first] + rest) == Named(rest) + {mechanism};
  }

  lemma {:induction false} SameTells(hs: seq<Happening>, book: seq<Entry>)
    requires hs != [] && (hs[|hs| - 1].FailedElsewhere? || hs[|hs| - 1].Otherwise?) && Tells(hs[..|hs| - 1], book)
    ensures Tells(hs, book)
  {
    hide MechanismOf;
    var before := hs[..|hs| - 1];
    forall m ensures LastAt(hs, m) == LastAt(before, m) && Recordings(hs, m) == Recordings(before, m) {
    }
  }

  /** If no recording finds more than ten mechanisms, the book tells the run. */
  lemma {:induction false} BookTells(hs: seq<Happening>)
    requires Few(hs)
    ensures Tells(hs, Book(hs)) && |Book(hs)| == |Mechanisms(hs)|
  {
    if hs != [] {
      var before := hs[..|hs| - 1];
      BookTells(before);
      hide Tells, Mechanisms, Renewed;
      match hs[|hs| - 1]
      case Failed(f, _) => RenewedTells(hs, Book(before));
      case Published(_, _, _) => NothingTold(hs);
      case _ => SameTells(hs, Book(before));
    }
    TellsSize(hs, Book(hs));
  }

  lemma {:induction false} NothingTold(hs: seq<Happening>)
    requires hs != [] && hs[|hs| - 1].Published?
    ensures Tells(hs, [])
  {
  }

  lemma {:induction false} TellsSize(hs: seq<Happening>, book: seq<Entry>)
    requires Tells(hs, book)
    ensures |book| == |Mechanisms(hs)|
  {
    DistinctlyNamed(hs, book);
  }

  // ---- The theorems ----

  /** Over any run in which no recording finds more than ten mechanisms, every mechanism's tally in the
      goal's scope is the number of its recordings since the last publish. */
  lemma {:induction false} TalliesCountRecordings(hs: seq<Happening>, tenant: string, subject: string, log: Log,
                                                  mechanism: string)
    requires Runs(hs, tenant, subject, log) && Few(hs)
    ensures OwnFailures(log) && Tallies(log, ScopeOf(tenant, subject), mechanism, Recordings(hs, mechanism))
    decreases |hs|
  {
    if hs != [] {
      hide Tallies, OwnFailures, Then, Fits, Recordings, Mechanisms, Book, Keeps;
      var init := hs[..|hs| - 1];
      var before :| LastStep(hs, tenant, subject, before, log) && Runs(init, tenant, subject, before);
      TalliesCountRecordings(init, tenant, subject, before, mechanism);
      BookIsKept(init, tenant, subject, before);
      BookTells(init);
      KeepsHolds(before, ScopeOf(tenant, subject), Book(init));
      StepKeepsOwnFailures(before, tenant, subject, hs[|hs| - 1]);
      StepTallies(before, tenant, subject, hs, mechanism);
    }
  }

  /** Right after a recording of a mechanism recorded before since the last publish, whatever else was
      written in between, the check blocks if and only if the retry is identical. */
  lemma {:induction false} RecordingBlocks(hs: seq<Happening>, tenant: string, subject: string, log: Log,
                                           context: Pairs, now: int)
    requires Runs(hs, tenant, subject, log) && Few(hs) && hs != [] && hs[|hs| - 1].Failed?
    requires Recordings(hs, MechanismOf(hs[|hs| - 1].report.problem)) >= 2
    ensures Checked(log, tenant, subject, context, now).blocked <==> Repeats(hs[|hs| - 1].report, context)
  {
    var init, g, at := hs[..|hs| - 1], hs[|hs| - 1].report, hs[|hs| - 1].now;
    var before :| LastStep(hs, tenant, subject, before, log) && Runs(init, tenant, subject, before);
    var mechanism, book := MechanismOf(g.problem), Book(init);
    assert log == FailureRecorded(before, tenant, subject, g, at) && Recordings(init, mechanism) >= 1;
    assert InView(before, ScopeOf(tenant, subject), at, RECALLED_FAILURES) && Few(init);
    assert |Mechanisms(init)| <= RECALLED_FAILURES;
    hide *;
    BookIsKept(init, tenant, subject, before);
    BookTells(init);
    PriorCount(before, tenant, subject, mechanism, at, init, book);
    RecordingBlocksExactly(before, tenant, subject, g, context, at, now);
  }

  lemma {:induction false} PriorCount(log: Log, tenant: string, subject: string, mechanism: string, now: int,
                                      hs: seq<Happening>, book: seq<Entry>)
    requires OwnFailures(log) && InView(log, ScopeOf(tenant, subject), now, RECALLED_FAILURES)
    requires Keeps(log, ScopeOf(tenant, subject), book) && Tells(hs, book) && |book| <= RECALLED_FAILURES
    ensures MostReproduced(log, Prior(log, tenant, subject, mechanism, now)) == Recordings(hs, mechanism)
  {
    var ids := Failures(log, ScopeOf(tenant, subject));
    assert Take(book, RECALLED_FAILURES) == book;
    RecordedOnce(hs, mechanism);
    assert forall e <- book :: TellsOf(hs, e);
    CountOfAll(book, mechanism, Recordings(hs, mechanism));
    assert Mechanisms(hs) == Named(book);
    hide *;
    KeepsHolds(log, ScopeOf(tenant, subject), book);
    HoldsParts(log, ids, book, RECALLED_FAILURES);
    SplitFailures(log, tenant, subject, mechanism, now);
    HoldsCount(log, Take(ids, RECALLED_FAILURES), book, mechanism);
  }

  /** The mechanisms recorded after this one last was. */
  function Since(hs: seq<Happening>, mechanism: string): set<string> {
    set m | m in Mechanisms(hs) && LastAt(hs, m) > LastAt(hs, mechanism)
  }

  /** Of the five mechanisms last recorded since the last publish, the newest recorded twice or more. */
  predicate Decides(hs: seq<Happening>, mechanism: string) {
    && mechanism in Mechanisms(hs) && Recordings(hs, mechanism) >= 2
    && |Since(hs, mechanism)| < CHECKED_FAILURES
    && forall m <- Since(hs, mechanism) :: Recordings(hs, m) < 2
  }

  lemma {:induction false} SinceIsBefore(hs: seq<Happening>, book: seq<Entry>, k: nat)
    requires Tells(hs, book) && k < |book|
    ensures Since(hs, book[k].Mechanism()) == Named(book[..k]) && |Named(book[..k])| == k
  {
    var mechanism := book[k].Mechanism();
    DistinctlyNamed(hs, book[..k]);
    hide LastAt, MechanismOf, Mechanisms, TellsOf;
    forall m ensures m in Since(hs, mechanism) <==> m in Named(book[..k]) {
      if m in Since(hs, mechanism) {
        var e :| e in book && e.Mechanism() == m;
        var i :| 0 <= i < |book| && book[i] == e;
        assert i < k;
        assert book[..k][i] == e;
      }
      if m in Named(book[..k]) {
        var e :| e in book[..k] && e.Mechanism() == m;
        assert e in book;
      }
    }
  }

  lemma {:induction false} DecidingEntry(hs: seq<Happening>, book: seq<Entry>, k: nat)
    requires Tells(hs, book) && k < |book|
    ensures NewestRepeated(Take(book, CHECKED_FAILURES), k) <==> Decides(hs, book[k].Mechanism())
  {
    SinceIsBefore(hs, book, k);
    hide LastAt, MechanismOf, Since, Recordings;
    assert book[k] in book && book[k].Mechanism() in Named(book);
    forall i | 0 <= i < k ensures book[i].count == Recordings(hs, book[i].Mechanism()) && book[..k][i] == book[i] {
      assert book[i] in book && TellsOf(hs, book[i]);
    }
    assert TellsOf(hs, book[k]);
    hide TellsOf, Tells, LastFirst;
    assert forall i :: 0 <= i < k ==> book[..k][i].Mechanism() in Named(book[..k]);
  }

  /** At any point of a run in which no recording finds more than ten mechanisms, with the five newest
      failures in view, the check blocks if and only if, of the five mechanisms last recorded since the
      last publish, the newest recorded twice or more last failed by a report this retry repeats. */
  lemma {:induction false} CheckBlocksExactly(hs: seq<Happening>, tenant: string, subject: string, log: Log,
                                              context: Pairs, now: int)
    requires Runs(hs, tenant, subject, log) && Few(hs)
    requires InView(log, ScopeOf(tenant, subject), now, CHECKED_FAILURES)
    ensures Checked(log, tenant, subject, context, now).blocked
      <==> exists m, f :: Decides(hs, m) && LastReport(hs, m, f) && Repeats(f, context)
  {
    hide *;
    CheckReadsTheBook(hs, tenant, subject, log, context, now);
    BookTells(hs);
    BookDecides(hs, Book(hs), context);
  }

  lemma {:induction false} BookDecides(hs: seq<Happening>, book: seq<Entry>, context: Pairs)
    requires Tells(hs, book)
    ensures NewestRepeats(Take(book, CHECKED_FAILURES), context)
      <==> exists m, f :: Decides(hs, m) && LastReport(hs, m, f) && Repeats(f, context)
  {
    var five := Take(book, CHECKED_FAILURES);
    forall k | 0 <= k < |book|
      ensures NewestRepeated(five, k) <==> Decides(hs, book[k].Mechanism())
      ensures LastReport(hs, book[k].Mechanism(), book[k].report)
    {
      DecidingEntry(hs, book, k);
      assert book[k] in book;
    }
    assert forall k :: NewestRepeated(five, k) ==> 0 <= k < |five|;
    assert forall k :: 0 <= k < |five| ==> five[k] == book[k];
    assert forall m :: Decides(hs, m) ==> m in Named(book);
    assert forall e <- book :: LastAt(hs, e.Mechanism()) >= 1 && LastReport(hs, e.Mechanism(), e.report);
    assert forall m, f, g :: LastReport(hs, m, f) && LastReport(hs, m, g) ==> f == g;
    hide LastReport, Decides, NewestRepeated, Repeats, LastAt, Tells;
    if NewestRepeats(five, context) {
      var k :| NewestRepeated(five, k) && Repeats(five[k].report, context);
      assert Decides(hs, book[k].Mechanism());
    }
    if m, f :| Decides(hs, m) && LastReport(hs, m, f) && Repeats(f, context) {
      var e :| e in book && e.Mechanism() == m;
      var k :| 0 <= k < |book| && book[k] == e;
      assert NewestRepeated(five, k);
    }
  }
}
