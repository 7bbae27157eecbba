/** What an identical retry is, said of the context itself: which conditions its words meet and which
    values it gives the recorded keys. */
module NegativeRetries {
  import opened Occurrences
  import opened Spine
  import opened Episodes
  import opened Negative
  import opened Ledger
  import opened NegativeCounts
  import opened NegativeBook
  import Text
  import TextLaws

  /** A context is a dictionary: no key twice. */
  predicate Dictionary(pairs: Pairs) {
    forall i, j :: 0 <= i < j < |pairs| ==> pairs[i].0 != pairs[j].0
  }

  /** The values of a context, one space apart. */
  function Said(context: Pairs): string {
    if context == [] then ""
    else if |context| == 1 then context[0].1
    else Said(context[..|context| - 1]) + " " + context[|context| - 1].1
  }

  /** The condition is not empty, and its lower-cased text lies somewhere in the context's. */
  ghost predicate Mentions(context: Pairs, condition: string) {
    condition != ""
    && exists before, after :: Text.Lower(Said(context)) == before + Text.Lower(condition) + after
  }

  /** Wherever the context and the record share a key they give it one value. */
  ghost predicate Agrees(context: Pairs, applicability: Pairs) {
    forall given <- context, known <- applicability :: given.0 == known.0 ==> given.1 == known.1
  }

  function Values(context: Pairs): seq<string> {
    seq(|context|, i requires 0 <= i < |context| => context[i].1)
  }

  lemma {:induction false} SaidIsJoined(context: Pairs)
    ensures Text.Join(Values(context), " ") == Said(context)
    decreases |context|
  {
    if context != [] {
      var init, last := context[..|context| - 1], context[|context| - 1];
      assert Values(context) == Values(init) + [last.1];
      TextLaws.JoinExactly(Values(init), " ", last.1);
      SaidIsJoined(init);
      hide Text.Join;
      assert |context| == 1 ==> Values(init) == [] && [] + [last.1] == [last.1];
    }
  }

  /** A condition reopens exactly if the context mentions it. */
  lemma {:induction false} ReopensExactly(condition: string, context: Pairs)
    ensures Reopens(condition, context) <==> Mentions(context, condition)
  {
    SaidIsJoined(context);
    assert Words(context) == Text.Lower(Text.Join(Values(context), " "));
    TextLaws.ContainsExactly(Words(context), Text.Lower(condition));
    hide Words, Text.Lower, Text.Contains, Text.Join, Said, Values;
  }

  lemma {:induction false} LookupExactly(context: Pairs, key: string)
    requires Dictionary(context)
    ensures forall given <- context :: given.0 == key ==> Lookup(context, key) == Some(given.1)
    ensures Lookup(context, key).Some? ==> (key, Lookup(context, key).value) in context
  {
    if context != [] {
      assert context == [context[0]] + context[1..];
      if context[0].0 != key {
        LookupExactly(context[1..], key);
      } else {
        assert forall given <- context[1..] :: given.0 != key;
      }
    }
  }

  /** A recorded key differs exactly if the context gives it another value; a missing key does not. */
  lemma {:induction false} DiffersExactly(known: (string, string), context: Pairs)
    requires Dictionary(context)
    ensures Differs(known, context) <==> exists given <- context :: given.0 == known.0 && given.1 != known.1
  {
    LookupExactly(context, known.0);
    hide Lookup, Dictionary;
    if Differs(known, context) {
      assert (known.0, Lookup(context, known.0).value) in context;
    }
  }

  /** A retry is identical exactly if the context mentions no reopen condition and agrees with the record. */
  lemma {:induction false} RepeatsExactly(f: Report, context: Pairs)
    requires Dictionary(context)
    ensures Repeats(f, context)
      <==> (forall c <- f.reopen :: !Mentions(context, c)) && Agrees(context, f.applicability)
  {
    forall c ensures Reopens(c, context) <==> Mentions(context, c) {
      ReopensExactly(c, context);
    }
    forall known
      ensures Differs(known, context) <==> exists given <- context :: given.0 == known.0 && given.1 != known.1
    {
      DiffersExactly(known, context);
    }
    hide Mentions, Reopens, Differs, Dictionary;
  }

  lemma {:induction false} IdenticalExactly(v: Value, context: Pairs)
    requires Dictionary(context)
    ensures IdenticalRetry(v, context)
      <==> v.Failure? && v.reproductions >= 2 && (forall c <- v.reopenConditions :: !Mentions(context, c))
           && Agrees(context, v.applicability)
  {
    if v.Failure? {
      var f := Report("", v.applicability, [], v.reopenConditions);
      RepeatsExactly(f, context);
      assert (forall c <- f.reopen :: !Reopens(c, context)) <==> forall c <- v.reopenConditions :: !Reopens(c, context);
    }
    hide Mentions, Reopens, Differs, Dictionary, Agrees;
  }

  /** Over any run in which no recording finds more than ten mechanisms, right after a mechanism was
      recorded again: the very context recorded blocks, one that leaves out any of its keys blocks, one
      that adds others blocks, and one that gives any recorded key another value does not. */
  lemma {:induction false} OnlyAChangeHelps(hs: seq<Happening>, tenant: string, subject: string, log: Log,
                                            context: Pairs, now: int)
    requires Runs(hs, tenant, subject, log) && Few(hs) && hs != [] && hs[|hs| - 1].Failed?
    requires Recordings(hs, MechanismOf(hs[|hs| - 1].report.problem)) >= 2
    requires var g := hs[|hs| - 1].report; g.reopen == [] && Dictionary(g.applicability) && Dictionary(context)
    ensures var known := hs[|hs| - 1].report.applicability;
      && (Checked(log, tenant, subject, context, now).blocked <==> Agrees(context, known))
      && ((forall given <- context :: given in known) ==> Checked(log, tenant, subject, context, now).blocked)
      && ((exists given <- context, k <- known :: given.0 == k.0 && given.1 != k.1)
          ==> !Checked(log, tenant, subject, context, now).blocked)
  {
    var g := hs[|hs| - 1].report;
    assert Dictionary(g.applicability) && g.reopen == [];
    if forall given <- context :: given in g.applicability {
      SameKeyOneValue(context, g.applicability);
    }
    hide Checked, Runs, Few, Recordings, MechanismOf, Mentions, Dictionary;
    RecordingBlocks(hs, tenant, subject, log, context, now);
    RepeatsExactly(g, context);
  }

  lemma {:induction false} SameKeyOneValue(context: Pairs, applicability: Pairs)
    requires Dictionary(applicability) && forall given <- context :: given in applicability
    ensures Agrees(context, applicability)
  {
    forall given, known | given in context && known in applicability && given.0 == known.0
      ensures given.1 == known.1
    {
      var i :| 0 <= i < |applicability| && applicability[i] == given;
      var j :| 0 <= j < |applicability| && applicability[j] == known;
      assert i == j;
    }
  }

  // ---- What a failure is remembered by ----

  lemma {:induction false} BeforeExactly(before: string, stop: char, rest: string)
    requires stop !in before && (rest == "" || rest[0] == stop)
    ensures Before(before + rest, stop) == before
  {
    if before != "" {
      assert (before + rest)[1..] == before[1..] + rest;
      BeforeExactly(before[1..], stop, rest);
    } else {
      assert before + rest == rest;
    }
  }

  /** A report that begins with a classifier and a colon is remembered by the classifier, lower-cased and
      cut to 80 characters. */
  lemma {:induction false} ClassifierIsTheMechanism(problem: string, kind: string, rest: string)
    requires Text.Strip(problem) == kind + ":" + rest && ':' !in kind && '\n' !in kind
    ensures MechanismOf(problem) == Text.Cut(Text.Lower(Text.Strip(kind)), 80)
  {
    var line := Before(rest, '\n');
    LineOf(rest);
    var after := rest[|line|..];
    assert kind + ":" + rest == (kind + ":" + line) + after && '\n' !in kind + ":" + line;
    BeforeExactly(kind + ":" + line, '\n', after);
    var head := kind + ":" + line;
    assert head == kind + (":" + line) && head[|kind|] == ':';
    BeforeExactly(kind, ':', ":" + line);
    hide Text.Strip, Text.Lower, Text.Cut, Before;
  }

  lemma {:induction false} LineOf(s: string)
    ensures var line := Before(s, '\n');
      line <= s && '\n' !in line && (s[|line|..] == "" || s[|line|..][0] == '\n')
  {
    if s != "" && s[0] != '\n' {
      LineOf(s[1..]);
    }
  }

  /** One without is remembered by its first line, lower-cased and cut to 80 characters. */
  lemma {:induction false} LineIsTheMechanism(problem: string, line: string, rest: string)
    requires Text.Strip(problem) == line + rest && ':' !in line && '\n' !in line && (rest == "" || rest[0] == '\n')
    ensures MechanismOf(problem) == Text.Cut(Text.Lower(line), 80)
  {
    BeforeExactly(line, '\n', rest);
    hide Text.Strip, Text.Lower, Text.Cut, Before;
  }

  /** A recording keeps the report's own words, its first 400 characters, its applicability and its reopen
      conditions, in the goal's scope and its mechanism's. */
  lemma {:induction false} RecordingTells(log: Log, tenant: string, subject: string, f: Report, now: int)
    ensures var log' := FailureRecorded(log, tenant, subject, f, now);
      && |log'| == |log| + 2 && log'[|log|].memoryType == log'[|log| + 1].memoryType == "failure"
      && log'[|log|].scope == multiset{tenant, subject}
      && log'[|log| + 1].scope == multiset{tenant, "mechanism:" + MechanismOf(f.problem)}
      && log'[|log|].value == log'[|log| + 1].value && log'[|log|].value.Failure?
      && log'[|log|].value.applicability == f.applicability && log'[|log|].value.reopenConditions == f.reopen
      && Quotes(f.problem, log'[|log|].value.failureMode)
  {
    var value := ReportValue(log, tenant, subject, f, now);
    RecordedRows(log, tenant, subject, f, now);
    TextLaws.CutExactly(f.problem, 400);
    assert multiset([tenant, subject]) == multiset{tenant, subject};
    assert value.failureMode == Text.Cut(f.problem, 400);
    hide FailureRecorded, MechanismOf, Text.Cut, Prior, MostReproduced;
  }

  /** A verdict that blocks gives a reason, one that does not the difference: a condition met, if one is. */
  lemma {:induction false} VerdictSaysWhy(v: Value, context: Pairs)
    requires v.Failure?
    ensures var a := Judged(v, context);
      && (a.blocked <==> a.difference == "") && (a.blocked <==> a.reason != "")
      && ((exists c <- v.reopenConditions :: Mentions(context, c)) ==>
            exists c <- v.reopenConditions :: Mentions(context, c) && a.difference == "reopen condition met: " + c)
  {
    var reopened := Reopened(v.reopenConditions, context);
    forall c ensures Reopens(c, context) <==> Mentions(context, c) {
      ReopensExactly(c, context);
    }
    assert forall c :: c in reopened <==> c in v.reopenConditions && Mentions(context, c);
    hide *;
    JudgedSays(v, context);
    if reopened != [] {
      assert reopened[0] in reopened;
    }
  }

  lemma {:induction false} JudgedSays(v: Value, context: Pairs)
    requires v.Failure?
    ensures var a, reopened := Judged(v, context), Reopened(v.reopenConditions, context);
      && (a.blocked <==> a.difference == "") && (a.blocked <==> a.reason != "")
      && (reopened != [] ==> a.difference == "reopen condition met: " + reopened[0])
  {
    var reopened, differing := Reopened(v.reopenConditions, context), Differing(v.applicability, context);
    NotEmpty("reopen condition met: ", if reopened == [] then "" else reopened[0]);
    NotEmpty("materially different from the recorded failure: ", Text.Join(Changed(differing), ", "));
    NotEmpty("this goal already failed the same way ", Text.Decimal(v.reproductions) + " times — "
      + Text.Cut(v.failureMode, 160)
      + " — change something material (a different model, a revised goal) before retrying");
    hide Reopened, Differing, Text.Join, Text.Cut, Text.Decimal, Changed;
  }

  lemma {:induction false} NotEmpty(a: string, b: string)
    ensures a != "" ==> a + b != ""
  {
    assert |a + b| == |a| + |b|;
  }
}
