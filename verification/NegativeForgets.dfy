/** Beyond ten mechanisms a recording is forgotten: why counts need few mechanisms between publishes. */
module NegativeForgets {
  import opened Spine
  import opened Episodes
  import opened Negative
  import opened NegativeCounts
  import opened NegativeBook
  import Text

  function Plain(c: char): Report {
    Report([c], [], [], [])
  }

  /** One recording after another, of one-letter mechanisms. */
  function Spelled(w: string): seq<Happening> {
    seq(|w|, i requires 0 <= i < |w| => Failed(Plain(w[i]), 0))
  }

  predicate Letters(w: string) {
    forall i :: 0 <= i < |w| ==> 'a' <= w[i] <= 'z'
  }

  predicate DistinctLetters(w: string) {
    Letters(w) && forall i, j :: 0 <= i < j < |w| ==> w[i] != w[j]
  }

  lemma {:induction false} PlainMechanism(c: char)
    requires 'a' <= c <= 'z'
    ensures MechanismOf(Plain(c).problem) == [c]
  {
    assert Text.StripLeft([c]) == [c] && Text.StripRight([c]) == [c];
    assert [c][1..] == [] && Before([], '\n') == [];
    assert Before([c], '\n') == [c] && Text.Lower([c]) == [c];
  }

  lemma {:induction false} SpelledInit(w: string)
    requires w != []
    ensures var hs := Spelled(w);
      |hs| == |w| && hs[..|hs| - 1] == Spelled(w[..|w| - 1]) && hs[|hs| - 1] == Failed(Plain(w[|w| - 1]), 0)
  {
  }

  /** What one more letter does to the run and its book. */
  lemma {:induction false} SpelledMore(w: string, c: char)
    requires 'a' <= c <= 'z'
    ensures var hs, before := Spelled(w + [c]), Spelled(w);
      && |hs| == |w| + 1 && hs[..|w|] == before && hs[|w|] == Failed(Plain(c), 0)
      && Book(hs) == Renewed(Book(before), Plain(c))
      && forall m :: Recordings(hs, m) == Recordings(before, m) + if m == [c] then 1 else 0
  {
    assert (w + [c])[..|w|] == w;
    SpelledInit(w + [c]);
    PlainMechanism(c);
    hide MechanismOf, Spelled, Renewed;
  }

  lemma {:induction false} UnknownIsAdded(book: seq<Entry>, f: Report)
    requires MechanismOf(f.problem) !in Named(Take(book, RECALLED_FAILURES))
    ensures Renewed(book, f) == [Entry(f, 1)] + book
  {
    var seen, mechanism := Take(book, RECALLED_FAILURES), MechanismOf(f.problem);
    assert book == seen + book[|seen|..];
    CountOfAll(seen, mechanism, 0);
    NoneOfThem(seen, mechanism);
    hide MechanismOf;
  }

  lemma {:induction false} NoneOfThem(book: seq<Entry>, mechanism: string)
    requires mechanism !in Named(book)
    ensures Others(book, mechanism) == book && forall e <- book :: e.Mechanism() != mechanism
  {
    if book != [] {
      assert book[0] in book && book == [book[0]] + book[1..];
      assert Named(book) == {book[0].Mechanism()} + Named(book[1..]);
      NoneOfThem(book[1..], mechanism);
    }
  }

  /** The entries the letters of a text leave, counting one each, the last first. */
  function Once(w: string): seq<Entry> {
    if w == [] then [] else [Entry(Plain(w[|w| - 1]), 1)] + Once(w[..|w| - 1])
  }

  lemma {:induction false} OnceMore(w: string, c: char)
    ensures Once(w + [c]) == [Entry(Plain(c), 1)] + Once(w) && |Once(w)| == |w|
    decreases |w|
  {
    assert (w + [c])[..|w|] == w;
    if w != [] {
      assert w == w[..|w| - 1] + [w[|w| - 1]];
      OnceMore(w[..|w| - 1], w[|w| - 1]);
    }
  }

  lemma {:induction false} OnceTakes(w: string, n: nat)
    requires n <= |w|
    ensures |Once(w)| == |w| && Take(Once(w), n) == Once(w[|w| - n..])
    decreases n
  {
    if w != [] {
      var init, c := w[..|w| - 1], w[|w| - 1];
      assert w == init + [c];
      OnceMore(init, c);
      if n > 0 {
        OnceTakes(init, n - 1);
        assert w[|w| - n..] == init[|init| - (n - 1)..] + [c];
        OnceMore(init[|init| - (n - 1)..], c);
      }
    }
  }

  lemma {:induction false} OnceNames(w: string, c: char)
    requires Letters(w) && 'a' <= c <= 'z' && c !in w
    ensures [c] !in Named(Once(w))
    decreases |w|
  {
    if w != [] {
      var init, last := w[..|w| - 1], w[|w| - 1];
      OnceNames(init, c);
      PlainMechanism(last);
      assert last in w;
      hide MechanismOf;
      assert Named(Once(w)) == {[last]} + Named(Once(init)) by {
        assert Once(w) == [Entry(Plain(last), 1)] + Once(init);
        assert Entry(Plain(last), 1) in Once(w) && forall e <- Once(init) :: e in Once(w);
        assert Entry(Plain(last), 1).Mechanism() == [last];
      }
    }
  }

  /** A letter not among the last ten is entered anew. */
  lemma {:induction false} AnotherLetter(w: string, c: char)
    requires Letters(w) && 'a' <= c <= 'z' && Book(Spelled(w)) == Once(w)
    requires c !in (if |w| <= 10 then w else w[|w| - 10..])
    ensures Book(Spelled(w + [c])) == Once(w + [c])
  {
    var last := if |w| <= 10 then w else w[|w| - 10..];
    LastLetters(w, last);
    hide *;
    LastTen(w, last);
    OnceNames(last, c);
    PlainMechanism(c);
    SpelledMore(w, c);
    UnknownIsAdded(Once(w), Plain(c));
    OnceMore(w, c);
  }

  lemma {:induction false} LastLetters(w: string, last: string)
    requires Letters(w) && last == if |w| <= 10 then w else w[|w| - 10..]
    ensures |last| == (if |w| <= 10 then |w| else 10) && w[|w| - |last|..] == last && Letters(last)
  {
  }

  lemma {:induction false} LastTen(w: string, last: string)
    requires |last| == (if |w| <= 10 then |w| else 10) && w[|w| - |last|..] == last
    ensures Take(Once(w), RECALLED_FAILURES) == Once(last)
  {
    OnceTakes(w, |last|);
    hide Once;
  }

  lemma {:induction false} SpelledBook(w: string)
    requires DistinctLetters(w)
    ensures Book(Spelled(w)) == Once(w)
    decreases |w|
  {
    hide *;
    if w == [] {
      NothingSpelled("");
    } else {
      var init, c := w[..|w| - 1], w[|w| - 1];
      LastIsNew(w);
      SpelledBook(init);
      AnotherLetter(init, c);
    }
  }

  lemma {:induction false} LastIsNew(w: string)
    requires DistinctLetters(w) && w != []
    ensures var init, c := w[..|w| - 1], w[|w| - 1];
      && w == init + [c] && DistinctLetters(init) && Letters(init) && 'a' <= c <= 'z'
      && c !in if |init| <= 10 then init else init[|init| - 10..]
  {
    var init, c := w[..|w| - 1], w[|w| - 1];
    assert forall i :: 0 <= i < |init| ==> init[i] == w[i] != c;
    assert c !in init;
    if |init| > 10 {
      var last := init[|init| - 10..];
      assert forall x <- last :: x in init;
    }
  }

  lemma {:induction false} NothingSpelled(m: string)
    ensures Book(Spelled("")) == Once("") && Recordings(Spelled(""), m) == 0
  {
  }

  /** A mechanism is recorded as often as its letter occurs. */
  lemma {:induction false} SpelledCount(w: string, c: char)
    requires Letters(w) && 'a' <= c <= 'z'
    ensures Recordings(Spelled(w), [c]) == multiset(w)[c]
    decreases |w|
  {
    hide *;
    if w == [] {
      NothingSpelled([c]);
      assert multiset(w)[c] == 0;
    } else {
      var init, last := w[..|w| - 1], w[|w| - 1];
      LastLetter(w);
      SpelledCount(init, c);
      SpelledMore(init, last);
      assert multiset(w) == multiset(init) + multiset{last};
      assert [last] == [c] <==> last == c by {
        assert [last][0] == last;
      }
    }
  }

  lemma {:induction false} FewStanding(log: Log, scope: Scope, now: int)
    ensures |StandingIds(log, scope, now)| <= |log|
  {
    if log != [] {
      FewStanding(log[..|log| - 1], scope, now);
    }
  }

  lemma {:induction false} ShortIsInView(log: Log, scope: Scope, now: int, limit: int)
    requires OwnFailures(log) && |log| <= WINDOW
    ensures InView(log, scope, now, limit)
  {
    FewStanding(log, scope, now);
    forall id | id in Take(Failures(log, scope), limit) ensures id in Window(log, scope, now) {
      assert id in Failures(log, scope) && StandingId(log, id, scope, now);
    }
  }

  /** Short runs of recordings there are. */
  lemma {:induction false} SpelledRuns(w: string, tenant: string, subject: string) returns (log: Log)
    requires Letters(w) && 2 * |w| <= WINDOW && (subject == "" || subject[0] != 'm')
    ensures Runs(Spelled(w), tenant, subject, log) && OwnFailures(log) && |log| == 2 * |w|
    decreases |w|
  {
    hide *;
    if w == [] {
      log := [];
      NothingRuns(tenant, subject);
    } else {
      var init, c := w[..|w| - 1], w[|w| - 1];
      LastLetter(w);
      var before := SpelledRuns(init, tenant, subject);
      log := FailureRecorded(before, tenant, subject, Plain(c), 0);
      ShortIsInView(before, ScopeOf(tenant, subject), 0, RECALLED_FAILURES);
      RecordingKeepsOwnFailures(before, tenant, subject, Plain(c), 0);
      TwoRowsMore(before, tenant, subject, Plain(c));
      SpelledMore(init, c);
      RecordingRuns(Spelled(w), tenant, subject, before, Plain(c));
    }
  }

  lemma {:induction false} TwoRowsMore(log: Log, tenant: string, subject: string, f: Report)
    ensures |FailureRecorded(log, tenant, subject, f, 0)| == |log| + 2
  {
    RecordedRows(log, tenant, subject, f, 0);
    hide *;
  }

  lemma {:induction false} NoTwin(subject: string, mechanism: string)
    requires subject == "" || subject[0] != 'm'
    ensures subject != "mechanism:" + mechanism
  {
    assert ("mechanism:" + mechanism)[0] == 'm';
  }

  lemma {:induction false} RecordingRuns(hs: seq<Happening>, tenant: string, subject: string, before: Log, f: Report)
    requires hs != [] && hs[|hs| - 1] == Failed(f, 0) && Runs(hs[..|hs| - 1], tenant, subject, before)
    requires InView(before, ScopeOf(tenant, subject), 0, RECALLED_FAILURES) && (subject == "" || subject[0] != 'm')
    ensures Runs(hs, tenant, subject, FailureRecorded(before, tenant, subject, f, 0))
  {
    hide *;
    NoTwin(subject, MechanismOf(f.problem));
    RecordingFits(hs, tenant, subject, before, f);
    RunsMore(hs, tenant, subject, before, FailureRecorded(before, tenant, subject, f, 0));
  }

  lemma {:induction false} RecordingFits(hs: seq<Happening>, tenant: string, subject: string, before: Log, f: Report)
    requires hs != [] && hs[|hs| - 1] == Failed(f, 0) && subject != "mechanism:" + MechanismOf(f.problem)
    requires InView(before, ScopeOf(tenant, subject), 0, RECALLED_FAILURES)
    ensures LastStep(hs, tenant, subject, before, FailureRecorded(before, tenant, subject, f, 0))
  {
    hide FailureRecorded, InView, ScopeOf, MechanismOf;
  }

  lemma {:induction false} RunsMore(hs: seq<Happening>, tenant: string, subject: string, before: Log, log: Log)
    requires hs != [] && LastStep(hs, tenant, subject, before, log) && Runs(hs[..|hs| - 1], tenant, subject, before)
    ensures Runs(hs, tenant, subject, log)
  {
    hide LastStep;
  }

  lemma {:induction false} NothingRuns(tenant: string, subject: string)
    ensures Runs(Spelled(""), tenant, subject, []) && OwnFailures([])
  {
  }

  lemma {:induction false} LastLetter(w: string)
    requires Letters(w) && w != []
    ensures Letters(w[..|w| - 1]) && 'a' <= w[|w| - 1] <= 'z' && w == w[..|w| - 1] + [w[|w| - 1]]
  {
  }

  /** Eleven letters. */
  const ELEVEN: string := seq(11, i requires 0 <= i < 11 => ('a' as int + i) as char)

  lemma {:induction false} ElevenAreDistinct()
    ensures DistinctLetters(ELEVEN) && |ELEVEN| == 11 && ELEVEN[0] == 'a' && 'a' !in ELEVEN[1..]
  {
  }

  lemma {:induction false} NothingCounts(w: string, context: Pairs)
    ensures !NewestRepeats(Take(Once(w), CHECKED_FAILURES), context)
  {
    OnceCounts(w);
    assert forall k :: 0 <= k < |Take(Once(w), CHECKED_FAILURES)| ==> Take(Once(w), CHECKED_FAILURES)[k] == Once(w)[k];
    hide Once;
  }

  lemma {:induction false} OnceCounts(w: string)
    ensures forall k :: 0 <= k < |Once(w)| ==> Once(w)[k].count == 1
    decreases |w|
  {
    if w != [] {
      OnceCounts(w[..|w| - 1]);
    }
  }

  /** A mechanism recorded twice, with ten others in between, is counted anew, and its identical retry
      passes: eleven letters, and the first of them again. */
  lemma {:induction false} TenOthersForget(now: int) returns (log: Log)
    ensures var hs, f := Spelled(ELEVEN + "a"), Plain('a');
      && Runs(hs, "desk", "goal", log) && |hs| == 12 && hs[11] == Failed(f, 0)
      && Recordings(hs, MechanismOf(f.problem)) == 2 && Repeats(f, [])
      && !Checked(log, "desk", "goal", [], now).blocked
  {
    var w := ELEVEN + "a";
    assert Repeats(Plain('a'), []);
    hide *;
    ElevenAreDistinct();
    TwelveLetters();
    log := SpelledRuns(w, "desk", "goal");
    SpelledBook(ELEVEN);
    PlainMechanism('a');
    SpelledMore(ELEVEN, 'a');
    SpelledCount(w, 'a');
    AnotherLetter(ELEVEN, 'a');
    ShortIsInView(log, ScopeOf("desk", "goal"), now, CHECKED_FAILURES);
    NothingCounts(w, []);
    CheckReadsTheBook(Spelled(w), "desk", "goal", log, [], now);
  }

  lemma {:induction false} TwelveLetters()
    ensures Letters(ELEVEN) && Letters(ELEVEN + "a") && |ELEVEN + "a"| == 12 && 2 * 12 <= WINDOW
    ensures multiset(ELEVEN + "a")['a'] == 2 && ELEVEN[|ELEVEN| - 10..] == ELEVEN[1..]
  {
    var rest := ELEVEN[1..];
    assert ELEVEN + "a" == "a" + rest + "a" && 'a' !in rest;
    assert multiset(ELEVEN + "a") == multiset{'a'} + multiset(rest) + multiset{'a'};
  }
}
