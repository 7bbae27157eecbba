/** The trace corpus, and what it means for a run to contain a motif. */
module Motifs {

  const MIN_SUPPORT := 5
  const MIN_CONTEXTS := 3
  const MIN_MOTIF_LEN := 2
  const MAX_MOTIF_LEN := 5

  type Motif = seq<string>

  datatype Step = Step(nodeKey: string, ok: bool)
  datatype Run = Run(goal: string, steps: seq<Step>, success: bool)
  datatype Trace = Trace(goal: string, keys: seq<string>)

  /** The keys of the steps that verified, in order. */
  function VerifiedKeys(steps: seq<Step>): seq<string> {
    if steps == [] then [] else
    var last := steps[|steps| - 1];
    VerifiedKeys(steps[..|steps| - 1]) + (if last.ok then [last.nodeKey] else [])
  }

  function AllKeys(steps: seq<Step>): (keys: seq<string>)
    ensures |keys| == |steps| && forall i :: 0 <= i < |steps| ==> keys[i] == steps[i].nodeKey
  {
    seq(|steps|, i requires 0 <= i < |steps| => steps[i].nodeKey)
  }

  predicate Teaches(run: Run) {
    run.success && |VerifiedKeys(run.steps)| >= MIN_MOTIF_LEN
  }

  /** Only successful runs with at least two verified steps teach. */
  function VerifiedSequences(runs: seq<Run>): seq<Trace> {
    if runs == [] then [] else
    var run := runs[|runs| - 1];
    VerifiedSequences(runs[..|runs| - 1])
    + (if Teaches(run) then [Trace(run.goal, VerifiedKeys(run.steps))] else [])
  }

  predicate StartsAt(keys: seq<string>, motif: Motif, i: int) {
    0 <= i <= |keys| - |motif| && keys[i..i + |motif|] == motif
  }

  /** The motif runs contiguously somewhere in the keys. */
  ghost predicate Occurs(keys: seq<string>, motif: Motif) {
    exists i :: StartsAt(keys, motif, i)
  }

  /** In how many sequences the motif occurs: one vote each, however often it repeats. */
  ghost function Support(traces: seq<Trace>, motif: Motif): (n: nat)
    ensures n <= |traces|
  {
    if traces == [] then 0 else
    Support(traces[..|traces| - 1], motif)
    + (if Occurs(traces[|traces| - 1].keys, motif) then 1 else 0)
  }

  /** The goals of the sequences in which the motif occurs. */
  ghost function Contexts(traces: seq<Trace>, motif: Motif): set<string> {
    set t | t in traces && Occurs(t.keys, motif) :: t.goal
  }

  // ---- What teaches ----

  function OkAt(steps: seq<Step>): set<int> {
    set i | 0 <= i < |steps| && steps[i].ok
  }

  lemma {:induction false} KeysJoin(a: seq<Step>, b: seq<Step>)
    ensures VerifiedKeys(a + b) == VerifiedKeys(a) + VerifiedKeys(b)
    decreases |b|
  {
    if b == [] {
      assert a + b == a;
    } else {
      var init := b[..|b| - 1];
      assert (a + b)[..|a + b| - 1] == a + init;
      KeysJoin(a, init);
    }
  }

  /** A failed step anywhere in a run teaches nothing; a verified one adds exactly its key in its place. */
  lemma {:induction false} StepsTeachAlone(a: seq<Step>, step: Step, b: seq<Step>)
    ensures VerifiedKeys(a + [step] + b)
      == VerifiedKeys(a) + (if step.ok then [step.nodeKey] else []) + VerifiedKeys(b)
    ensures !step.ok ==> VerifiedKeys(a + [step] + b) == VerifiedKeys(a + b)
  {
    KeysJoin(a + [step], b);
    KeysJoin(a, [step]);
    KeysJoin(a, b);
    assert [step][..0] == [];
  }

  /** Strictly increasing positions, all those of a set. */
  ghost predicate Positions(at: seq<int>, chosen: set<int>) {
    (forall i, j :: 0 <= i < j < |at| ==> at[i] < at[j]) && (forall i :: i in at <==> i in chosen)
  }

  lemma {:induction false} OnePositionMore(at: seq<int>, chosen: set<int>, n: int)
    requires Positions(at, chosen) && forall i <- chosen :: i < n
    ensures Positions(at + [n], chosen + {n}) && |chosen + {n}| == |chosen| + 1
  {
    assert forall i :: 0 <= i < |at| ==> at[i] in at;
  }

  /** The keys are those of the steps at the positions. */
  ghost predicate KeyedBy(steps: seq<Step>, at: seq<int>, keys: seq<string>) {
    |at| == |keys| && forall k :: 0 <= k < |at| ==> 0 <= at[k] < |steps| && keys[k] == steps[at[k]].nodeKey
  }

  lemma {:induction false} KeyedMore(init: seq<Step>, step: Step, at: seq<int>, keys: seq<string>)
    requires KeyedBy(init, at, keys)
    ensures KeyedBy(init + [step], at, keys) && KeyedBy(init + [step], at + [|init|], keys + [step.nodeKey])
  {
  }

  /** The keys sit at the positions of the verified steps, all of them, in order. */
  lemma {:induction false} KeysAreTheVerifiedSteps(steps: seq<Step>) returns (at: seq<int>)
    ensures Positions(at, OkAt(steps)) && |at| == |OkAt(steps)| && KeyedBy(steps, at, VerifiedKeys(steps))
  {
    if steps == [] {
      at := [];
    } else {
      hide *;
      var n, init := |steps| - 1, steps[..|steps| - 1];
      at := KeysAreTheVerifiedSteps(init);
      LastVerifies(steps);
      KeyedMore(init, steps[n], at, VerifiedKeys(init));
      if steps[n].ok {
        OnePositionMore(at, OkAt(init), n);
        at := at + [n];
      }
    }
  }

  lemma {:induction false} LastVerifies(steps: seq<Step>)
    requires steps != []
    ensures var n, init := |steps| - 1, steps[..|steps| - 1];
      && steps == init + [steps[n]] && (forall i <- OkAt(init) :: i < n)
      && OkAt(steps) == OkAt(init) + (if steps[n].ok then {n} else {})
      && VerifiedKeys(steps) == VerifiedKeys(init) + if steps[n].ok then [steps[n].nodeKey] else []
  {
  }

  /** The runs that succeeded with at least two verified steps. */
  function TeachingAt(runs: seq<Run>): set<int> {
    set i | 0 <= i < |runs| && runs[i].success && |OkAt(runs[i].steps)| >= 2
  }

  lemma {:induction false} TeachesExactly(run: Run)
    ensures Teaches(run) <==> run.success && |OkAt(run.steps)| >= 2
  {
    var at := KeysAreTheVerifiedSteps(run.steps);
    hide OkAt, VerifiedKeys, Positions;
  }

  ghost predicate TracedBy(runs: seq<Run>, at: seq<int>, traces: seq<Trace>) {
    |at| == |traces| && forall k :: 0 <= k < |at| ==>
      0 <= at[k] < |runs| && traces[k] == Trace(runs[at[k]].goal, VerifiedKeys(runs[at[k]].steps))
  }

  lemma {:induction false} TracedMore(init: seq<Run>, run: Run, at: seq<int>, traces: seq<Trace>)
    requires TracedBy(init, at, traces)
    ensures TracedBy(init + [run], at, traces)
    ensures TracedBy(init + [run], at + [|init|], traces + [Trace(run.goal, VerifiedKeys(run.steps))])
  {
    hide VerifiedKeys;
  }

  lemma {:induction false} LastTeaches(runs: seq<Run>)
    requires runs != []
    ensures var n, init := |runs| - 1, runs[..|runs| - 1];
      && runs == init + [runs[n]] && (forall i <- TeachingAt(init) :: i < n)
      && TeachingAt(runs) == TeachingAt(init) + (if Teaches(runs[n]) then {n} else {})
      && VerifiedSequences(runs) == VerifiedSequences(init)
           + if Teaches(runs[n]) then [Trace(runs[n].goal, VerifiedKeys(runs[n].steps))] else []
  {
    TeachesExactly(runs[|runs| - 1]);
    hide OkAt, VerifiedKeys, Teaches;
  }

  /** The sequences are those of the runs that succeeded with at least two verified steps, all of them, in
      order, each with its goal. */
  lemma {:induction false} SequencesAreTheTeachingRuns(runs: seq<Run>) returns (at: seq<int>)
    ensures Positions(at, TeachingAt(runs)) && TracedBy(runs, at, VerifiedSequences(runs))
  {
    if runs == [] {
      at := [];
    } else {
      hide *;
      var n, init := |runs| - 1, runs[..|runs| - 1];
      at := SequencesAreTheTeachingRuns(init);
      LastTeaches(runs);
      TracedMore(init, runs[n], at, VerifiedSequences(init));
      if Teaches(runs[n]) {
        OnePositionMore(at, TeachingAt(init), n);
        at := at + [n];
      }
    }
  }

  lemma {:induction false} SequencesJoin(a: seq<Run>, b: seq<Run>)
    ensures VerifiedSequences(a + b) == VerifiedSequences(a) + VerifiedSequences(b)
    decreases |b|
  {
    hide Teaches, VerifiedKeys;
    if b == [] {
      assert a + b == a;
    } else {
      var init := b[..|b| - 1];
      assert (a + b)[..|a + b| - 1] == a + init;
      SequencesJoin(a, init);
    }
  }

  /** An unsuccessful run anywhere in the corpus teaches nothing. */
  lemma {:induction false} FailedRunTeachesNothing(a: seq<Run>, run: Run, b: seq<Run>)
    requires !run.success
    ensures VerifiedSequences(a + [run] + b) == VerifiedSequences(a + b)
  {
    SequencesJoin(a + [run], b);
    SequencesJoin(a, [run]);
    SequencesJoin(a, b);
    assert [run][..0] == [];
  }

  // ---- Containment and support ----

  /** A motif occurs where the keys can be cut before and after it. */
  lemma {:induction false} OccursIsInfix(keys: seq<string>, motif: Motif)
    ensures Occurs(keys, motif) <==> exists before, after :: keys == before + motif + after
  {
    if Occurs(keys, motif) {
      var i :| StartsAt(keys, motif, i);
      assert keys == keys[..i] + motif + keys[i + |motif|..];
    }
    if before, after :| keys == before + motif + after {
      assert StartsAt(keys, motif, |before|);
    }
  }

  lemma {:induction false} SupportCounts(traces: seq<Trace>, motif: Motif)
    ensures Support(traces, motif) == |set k | 0 <= k < |traces| && Occurs(traces[k].keys, motif)|
  {
    var all := set k | 0 <= k < |traces| && Occurs(traces[k].keys, motif);
    if traces == [] {
      assert all == {};
    } else {
      var n, init := |traces| - 1, traces[..|traces| - 1];
      SupportCounts(init, motif);
      var fewer := set k | 0 <= k < |init| && Occurs(init[k].keys, motif);
      assert all == fewer + if Occurs(traces[n].keys, motif) then {n} else {};
    }
  }

  lemma {:induction false} OccursTransitive(keys: seq<string>, inner: Motif, outer: Motif)
    requires Occurs(keys, outer) && Occurs(outer, inner)
    ensures Occurs(keys, inner)
  {
    var i :| StartsAt(keys, outer, i);
    var j :| StartsAt(outer, inner, j);
    assert forall k :: 0 <= k < |outer| ==> keys[i + k] == keys[i..i + |outer|][k] == outer[k];
    assert forall k :: 0 <= k < |inner| ==> outer[j + k] == outer[j..j + |inner|][k] == inner[k];
    assert keys[i + j..i + j + |inner|] == inner;
    assert StartsAt(keys, inner, i + j);
  }

  /** Extending a motif never gains support. */
  lemma {:induction false} SupportFalls(traces: seq<Trace>, inner: Motif, outer: Motif)
    requires Occurs(outer, inner)
    ensures Support(traces, outer) <= Support(traces, inner)
  {
    if traces != [] {
      SupportFalls(traces[..|traces| - 1], inner, outer);
      if Occurs(traces[|traces| - 1].keys, outer) {
        OccursTransitive(traces[|traces| - 1].keys, inner, outer);
      }
    }
  }

  ghost predicate KnownKey(traces: seq<Trace>, key: string) {
    exists t :: t in traces && key in t.keys
  }

  lemma {:induction false} OccurrenceHasItsSteps(keys: seq<string>, motif: Motif, key: string)
    requires Occurs(keys, motif) && key in motif
    ensures key in keys
  {
    var i :| StartsAt(keys, motif, i);
    assert key in keys[i..i + |motif|];
  }

  /** A motif with a step no sequence has is supported by none. */
  lemma {:induction false} UnknownKeyHasNoSupport(traces: seq<Trace>, motif: Motif, key: string)
    requires key in motif && !KnownKey(traces, key)
    ensures Support(traces, motif) == 0
  {
    if traces != [] {
      var t := traces[|traces| - 1];
      assert t in traces;
      UnknownKeyHasNoSupport(traces[..|traces| - 1], motif, key);
      if Occurs(t.keys, motif) {
        OccurrenceHasItsSteps(t.keys, motif, key);
      }
    }
  }

  // ---- The queries as the code runs them ----

  method ReadVerifiedSequences(runs: seq<Run>) returns (sequences: seq<Trace>)
    ensures sequences == VerifiedSequences(runs)
  {
    sequences := [];
    for n := 0 to |runs|
      invariant sequences == VerifiedSequences(runs[..n])
    {
      var run := runs[n];
      assert runs[..n + 1][..n] == runs[..n];
      if run.success {
        var keys: seq<string> := [];
        for k := 0 to |run.steps|
          invariant keys == VerifiedKeys(run.steps[..k])
        {
          assert run.steps[..k + 1][..k] == run.steps[..k];
          if run.steps[k].ok {
            keys := keys + [run.steps[k].nodeKey];
          }
        }
        assert run.steps[..|run.steps|] == run.steps;
        if |keys| >= MIN_MOTIF_LEN {
          sequences := sequences + [Trace(run.goal, keys)];
        }
      }
    }
    assert runs[..|runs|] == runs;
  }

  method Appears(keys: seq<string>, motif: Motif) returns (found: bool)
    ensures found <==> Occurs(keys, motif)
  {
    var start := 0;
    while start + |motif| <= |keys|
      invariant forall i :: 0 <= i < start ==> !StartsAt(keys, motif, i)
    {
      if keys[start..start + |motif|] == motif {
        assert StartsAt(keys, motif, start);
        return true;
      }
      start := start + 1;
    }
    return false;
  }

  method SupportOf(motif: Motif, sequences: seq<Trace>) returns (count: nat)
    ensures count == Support(sequences, motif)
  {
    count := 0;
    for n := 0 to |sequences|
      invariant count == Support(sequences[..n], motif)
    {
      assert sequences[..n + 1][..n] == sequences[..n];
      var found := Appears(sequences[n].keys, motif);
      if found {
        count := count + 1;
      }
    }
    assert sequences[..|sequences|] == sequences;
  }
}
