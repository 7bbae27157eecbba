/** The promotion gate: replay against history, then the two mutations, and why testing one-step
    mutations settles the matter for motifs of every length. */
module ReplayGate {
  import opened Motifs
  import Text

  datatype Reason =
    | Contradicted(contradictions: nat, appearances: nat)
    | NotClosed(longer: Motif)
    | OrderInsignificant(step: nat)

  // ---- The three bars ----

  ghost function Appearances(runs: seq<Run>, motif: Motif): nat {
    if runs == [] then 0 else
    Appearances(runs[..|runs| - 1], motif)
    + (if Occurs(AllKeys(runs[|runs| - 1].steps), motif) then 1 else 0)
  }

  ghost function Contradictions(runs: seq<Run>, motif: Motif): (n: nat)
    ensures n <= Appearances(runs, motif)
  {
    if runs == [] then 0 else
    Contradictions(runs[..|runs| - 1], motif)
    + (if Occurs(AllKeys(runs[|runs| - 1].steps), motif) && !runs[|runs| - 1].success then 1 else 0)
  }

  /** At most 5% of the runs where the motif's steps all ran failed. */
  ghost predicate Consistent(runs: seq<Run>, motif: Motif) {
    20 * Contradictions(runs, motif) <= Appearances(runs, motif)
  }

  ghost predicate RidesParent(traces: seq<Trace>, motif: Motif, longer: Motif) {
    Support(traces, longer) >= Support(traces, motif) > 0
  }

  /** The bar as tested: no known step, put before or after, keeps the support. */
  ghost predicate LocallyClosed(traces: seq<Trace>, motif: Motif) {
    forall key :: KnownKey(traces, key) ==>
      !RidesParent(traces, motif, [key] + motif) && !RidesParent(traces, motif, motif + [key])
  }

  function Swapped(motif: Motif, i: nat): Motif
    requires i + 1 < |motif|
  {
    motif[i := motif[i + 1]][i + 1 := motif[i]]
  }

  ghost predicate OrderMatters(traces: seq<Trace>, motif: Motif) {
    forall i :: 0 <= i < |motif| - 1 ==> !RidesParent(traces, motif, Swapped(motif, i))
  }

  ghost predicate Passes(runs: seq<Run>, motif: Motif) {
    var traces := VerifiedSequences(runs);
    Consistent(runs, motif) && LocallyClosed(traces, motif) && OrderMatters(traces, motif)
  }

  // ---- What passing means ----

  /** A strictly longer motif around this one contains it together with a neighbouring step. */
  lemma {:induction false} NeighbouringStep(motif: Motif, longer: Motif) returns (key: string, before: bool)
    requires Occurs(longer, motif) && |motif| < |longer|
    ensures Occurs(longer, if before then [key] + motif else motif + [key])
  {
    var i :| StartsAt(longer, motif, i);
    if i > 0 {
      key, before := longer[i - 1], true;
      assert longer[i - 1..i + |motif|] == [key] + longer[i..i + |motif|];
      assert StartsAt(longer, [key] + motif, i - 1);
    } else {
      key, before := longer[|motif|], false;
      assert longer[0..|motif| + 1] == longer[0..|motif|] + [key];
      assert StartsAt(longer, motif + [key], 0);
    }
  }

  lemma {:induction false} ExtensionOccurs(motif: Motif, key: string)
    ensures Occurs([key] + motif, motif) && Occurs(motif + [key], motif)
  {
    assert ([key] + motif)[1..1 + |motif|] == motif;
    assert StartsAt([key] + motif, motif, 1);
    assert (motif + [key])[0..|motif|] == motif;
    assert StartsAt(motif + [key], motif, 0);
  }

  /** Testing one-step extensions by known steps decides closedness against every longer motif
      of any length. */
  lemma {:induction false} LocalClosednessIsGlobal(traces: seq<Trace>, motif: Motif)
    ensures LocallyClosed(traces, motif) <==>
      forall longer :: Occurs(longer, motif) && |motif| < |longer| ==> !RidesParent(traces, motif, longer)
  {
    if LocallyClosed(traces, motif) {
      forall longer | Occurs(longer, motif) && |motif| < |longer|
        ensures !RidesParent(traces, motif, longer)
      {
        var key, before := NeighbouringStep(motif, longer);
        var parent := if before then [key] + motif else motif + [key];
        SupportFalls(traces, parent, longer);
        if !KnownKey(traces, key) {
          UnknownKeyHasNoSupport(traces, parent, key);
        }
      }
    } else {
      var key :| KnownKey(traces, key) && (RidesParent(traces, motif, [key] + motif)
        || RidesParent(traces, motif, motif + [key]));
      ExtensionOccurs(motif, key);
    }
  }

  /** A motif that passes with support has strictly more support than every longer motif around
      it, repeats no step back to back, and strictly outranks each of its adjacent swaps. */
  lemma {:induction false} PassingMotif(runs: seq<Run>, motif: Motif)
    requires Passes(runs, motif) && Support(VerifiedSequences(runs), motif) > 0
    ensures var traces := VerifiedSequences(runs);
      && (forall longer :: Occurs(longer, motif) && |motif| < |longer| ==>
            Support(traces, longer) < Support(traces, motif))
      && (forall i :: 0 <= i < |motif| - 1 ==> motif[i] != motif[i + 1])
      && (forall i :: 0 <= i < |motif| - 1 ==>
            Support(traces, Swapped(motif, i)) < Support(traces, motif))
  {
    var traces := VerifiedSequences(runs);
    LocalClosednessIsGlobal(traces, motif);
    forall longer | Occurs(longer, motif) && |motif| < |longer|
      ensures Support(traces, longer) < Support(traces, motif)
    {
      assert !RidesParent(traces, motif, longer);
    }
    forall i | 0 <= i < |motif| - 1
      ensures motif[i] != motif[i + 1] && Support(traces, Swapped(motif, i)) < Support(traces, motif)
    {
      assert motif[i] == motif[i + 1] ==> Swapped(motif, i) == motif;
      assert !RidesParent(traces, motif, Swapped(motif, i));
    }
  }

  /** Of two motifs where one contains the other, both supported by the same runs, at most the
      longer one can pass. */
  lemma {:induction false} FragmentWaitsForParent(runs: seq<Run>, motif: Motif, parent: Motif)
    requires Occurs(parent, motif) && |motif| < |parent|
    requires Support(VerifiedSequences(runs), parent) == Support(VerifiedSequences(runs), motif) > 0
    ensures !Passes(runs, motif)
  {
    LocalClosednessIsGlobal(VerifiedSequences(runs), motif);
    assert RidesParent(VerifiedSequences(runs), motif, parent);
  }

  // ---- The gate as the code runs it ----

  ghost predicate StrictlySorted(keys: seq<string>) {
    forall i, j :: 0 <= i < j < |keys| ==> Text.Less(keys[i], keys[j])
  }

  /** One key into a sorted list without repetition. */
  function WithKey(keys: seq<string>, key: string): (r: seq<string>)
    ensures forall k :: k in r <==> k in keys || k == key
    ensures r != [] && (r[0] == key || (keys != [] && r[0] == keys[0]))
  {
    if keys == [] then [key]
    else if key == keys[0] then keys
    else if Text.Less(key, keys[0]) then [key] + keys
    else
      assert keys == [keys[0]] + keys[1..];
      [keys[0]] + WithKey(keys[1..], key)
  }

  lemma {:induction false} WithKeySorted(keys: seq<string>, key: string)
    requires StrictlySorted(keys)
    ensures StrictlySorted(WithKey(keys, key))
  {
    if keys != [] && key != keys[0] {
      if Text.Less(key, keys[0]) {
        forall k | 0 <= k < |keys| ensures Text.Less(key, keys[k]) {
          if k > 0 {
            Text.Transitive(key, keys[0], keys[k]);
          }
        }
      } else {
        Text.Trichotomy(key, keys[0]);
        WithKeySorted(keys[1..], key);
        var rest := WithKey(keys[1..], key);
        forall k | 0 <= k < |rest| ensures Text.Less(keys[0], rest[k]) {
          assert rest[k] in rest;
        }
      }
    }
  }

  method SortedStepKeys(traces: seq<Trace>) returns (keys: seq<string>)
    ensures forall key :: key in keys <==> KnownKey(traces, key)
    ensures StrictlySorted(keys)
  {
    keys := [];
    for n := 0 to |traces|
      invariant forall key :: key in keys <==> KnownKey(traces[..n], key)
      invariant StrictlySorted(keys)
    {
      var t := traces[n];
      assert traces[..n + 1] == traces[..n] + [t];
      ghost var before := keys;
      for k := 0 to |t.keys|
        invariant forall key :: key in keys <==> key in before || key in t.keys[..k]
        invariant StrictlySorted(keys)
      {
        assert t.keys[..k + 1] == t.keys[..k] + [t.keys[k]];
        WithKeySorted(keys, t.keys[k]);
        keys := WithKey(keys, t.keys[k]);
      }
      assert t.keys[..|t.keys|] == t.keys;
      forall key ensures key in keys <==> KnownKey(traces[..n + 1], key) {
        if key in t.keys {
          assert t in traces[..n + 1];
        }
      }
    }
    assert traces[..|traces|] == traces;
  }

  method Replay(runs: seq<Run>, motif: Motif) returns (contradicted: nat, appearances: nat)
    ensures contradicted == Contradictions(runs, motif) && appearances == Appearances(runs, motif)
  {
    contradicted, appearances := 0, 0;
    for n := 0 to |runs|
      invariant contradicted == Contradictions(runs[..n], motif)
      invariant appearances == Appearances(runs[..n], motif)
    {
      assert runs[..n + 1][..n] == runs[..n];
      var present := Appears(AllKeys(runs[n].steps), motif);
      if present {
        appearances := appearances + 1;
        if !runs[n].success {
          contradicted := contradicted + 1;
        }
      }
    }
    assert runs[..|runs|] == runs;
  }

  ghost predicate ExtensionRides(traces: seq<Trace>, motif: Motif, longer: Motif) {
    RidesParent(traces, motif, longer) && Occurs(longer, motif) && |longer| == |motif| + 1
  }

  ghost predicate SwapRides(traces: seq<Trace>, motif: Motif, step: nat) {
    1 <= step < |motif| && RidesParent(traces, motif, Swapped(motif, step - 1))
  }

  /** What a named reason asserts about the corpus. */
  ghost predicate Witnessed(runs: seq<Run>, motif: Motif, r: Reason) {
    match r
    case Contradicted(c, a) => c == Contradictions(runs, motif) && a == Appearances(runs, motif) && 20 * c > a
    case NotClosed(longer) => ExtensionRides(VerifiedSequences(runs), motif, longer)
    case OrderInsignificant(step) => SwapRides(VerifiedSequences(runs), motif, step)
  }

  /** Every failed bar is named once, with a witness; passing is having nothing to name. */
  method Gate(runs: seq<Run>, motif: Motif) returns (passed: bool, reasons: seq<Reason>)
    ensures passed <==> reasons == []
    ensures passed <==> Passes(runs, motif)
    ensures (exists r :: r in reasons && r.Contradicted?) <==> !Consistent(runs, motif)
    ensures (exists r :: r in reasons && r.NotClosed?) <==> !LocallyClosed(VerifiedSequences(runs), motif)
    ensures (exists r :: r in reasons && r.OrderInsignificant?) <==> !OrderMatters(VerifiedSequences(runs), motif)
    ensures forall r <- reasons :: Witnessed(runs, motif, r)
    ensures |reasons| <= 3
  {
    reasons := [];
    var verified := ReadVerifiedSequences(runs);
    var contradicted, appearances := Replay(runs, motif);
    if appearances > 0 && 20 * contradicted > appearances {
      reasons := [Contradicted(contradicted, appearances)];
    }
    var base := SupportOf(motif, verified);
    var closing := ClosednessTest(verified, motif, base);
    var ordering := OrderTest(verified, motif, base);
    ReasonsAreNamed(runs, motif, reasons, closing, ordering);
    reasons := reasons + closing + ordering;
    passed := reasons == [];
  }

  lemma {:induction false} ReasonsAreNamed(runs: seq<Run>, motif: Motif, first: seq<Reason>, closing: seq<Reason>,
                                           ordering: seq<Reason>)
    requires |first| <= 1 && forall r <- first :: r.Contradicted?
    requires |closing| <= 1 && forall r <- closing :: r.NotClosed?
    requires |ordering| <= 1 && forall r <- ordering :: r.OrderInsignificant?
    ensures var all := first + closing + ordering;
      && (all == [] <==> first == [] && closing == [] && ordering == []) && |all| <= 3
      && ((exists r :: r in all && r.Contradicted?) <==> first != [])
      && ((exists r :: r in all && r.NotClosed?) <==> closing != [])
      && ((exists r :: r in all && r.OrderInsignificant?) <==> ordering != [])
      && forall r <- all :: r in first || r in closing || r in ordering
  {
    var all := first + closing + ordering;
    assert first != [] ==> first[0] in first && first[0] in all;
    assert closing != [] ==> closing[0] in closing && closing[0] in all;
    assert ordering != [] ==> ordering[0] in ordering && ordering[0] in all;
  }

  method ClosednessTest(verified: seq<Trace>, motif: Motif, base: nat) returns (reasons: seq<Reason>)
    requires base == Support(verified, motif)
    ensures reasons == [] <==> LocallyClosed(verified, motif)
    ensures |reasons| <= 1
    ensures forall r <- reasons :: r.NotClosed? && ExtensionRides(verified, motif, r.longer)
  {
    var stepKeys := SortedStepKeys(verified);
    for n := 0 to |stepKeys|
      invariant forall k :: 0 <= k < n ==> !RidesParent(verified, motif, [stepKeys[k]] + motif)
      invariant forall k :: 0 <= k < n ==> !RidesParent(verified, motif, motif + [stepKeys[k]])
    {
      var extra := stepKeys[n];
      assert extra in stepKeys;
      ExtensionOccurs(motif, extra);
      var before := SupportOf([extra] + motif, verified);
      if before >= base > 0 {
        return [NotClosed([extra] + motif)];
      }
      var after := SupportOf(motif + [extra], verified);
      if after >= base > 0 {
        return [NotClosed(motif + [extra])];
      }
    }
    forall key | KnownKey(verified, key)
      ensures !RidesParent(verified, motif, [key] + motif) && !RidesParent(verified, motif, motif + [key])
    {
      var k :| 0 <= k < |stepKeys| && stepKeys[k] == key;
    }
    return [];
  }

  method OrderTest(verified: seq<Trace>, motif: Motif, base: nat) returns (reasons: seq<Reason>)
    requires base == Support(verified, motif)
    ensures reasons == [] <==> OrderMatters(verified, motif)
    ensures |reasons| <= 1
    ensures forall r <- reasons :: r.OrderInsignificant? && SwapRides(verified, motif, r.step)
  {
    for i := 0 to if |motif| == 0 then 0 else |motif| - 1
      invariant forall k :: 0 <= k < i ==> !RidesParent(verified, motif, Swapped(motif, k))
    {
      var support := SupportOf(Swapped(motif, i), verified);
      if support >= base > 0 {
        return [OrderInsignificant(i + 1)];
      }
    }
    return [];
  }

  // ---- The bars, counted ----

  /** The runs in which the motif's steps all ran, verified or not. */
  ghost function AppearsAt(runs: seq<Run>, motif: Motif): set<int> {
    set k | 0 <= k < |runs| && Occurs(AllKeys(runs[k].steps), motif)
  }

  /** And those of them that failed. */
  ghost function FailsAt(runs: seq<Run>, motif: Motif): set<int> {
    set k | 0 <= k < |runs| && Occurs(AllKeys(runs[k].steps), motif) && !runs[k].success
  }

  lemma {:induction false} LastRunCounts(init: seq<Run>, run: Run, motif: Motif)
    ensures var runs, occurs := init + [run], Occurs(AllKeys(run.steps), motif);
      && AppearsAt(runs, motif) == AppearsAt(init, motif) + (if occurs then {|init|} else {})
      && FailsAt(runs, motif) == FailsAt(init, motif) + (if occurs && !run.success then {|init|} else {})
      && |init| !in AppearsAt(init, motif) && |init| !in FailsAt(init, motif)
  {
    hide AllKeys, Occurs;
  }

  lemma {:induction false} LastRunAdds(init: seq<Run>, run: Run, motif: Motif)
    ensures var runs, occurs := init + [run], Occurs(AllKeys(run.steps), motif);
      && Appearances(runs, motif) == Appearances(init, motif) + (if occurs then 1 else 0)
      && Contradictions(runs, motif) == Contradictions(init, motif) + (if occurs && !run.success then 1 else 0)
  {
    assert (init + [run])[..|init|] == init;
    hide AllKeys, Occurs;
  }

  lemma {:induction false} RunsCount(runs: seq<Run>, motif: Motif)
    ensures Appearances(runs, motif) == |AppearsAt(runs, motif)|
    ensures Contradictions(runs, motif) == |FailsAt(runs, motif)|
  {
    if runs == [] {
      assert AppearsAt(runs, motif) == {} == FailsAt(runs, motif);
    } else {
      var init, run := runs[..|runs| - 1], runs[|runs| - 1];
      assert runs == init + [run];
      hide *;
      RunsCount(init, motif);
      LastRunCounts(init, run, motif);
      LastRunAdds(init, run, motif);
    }
  }

  lemma {:induction false} Share(c: real, a: real)
    requires a > 0.0
    ensures c / a <= 0.05 <==> 20.0 * c <= a
  {
    var rate := c / a;
    assert rate * a == c;
    if rate <= 0.05 {
      assert (0.05 - rate) * a >= 0.0;
    } else {
      assert (rate - 0.05) * a > 0.0;
    }
  }

  /** The budget is five in a hundred of the runs in which the motif's steps all ran. */
  lemma {:induction false} ConsistentExactly(runs: seq<Run>, motif: Motif)
    ensures Consistent(runs, motif)
      <==> Appearances(runs, motif) == 0
           || Contradictions(runs, motif) as real / Appearances(runs, motif) as real <= 0.05
  {
    var c, a := Contradictions(runs, motif), Appearances(runs, motif);
    hide Contradictions, Appearances;
    if a > 0 {
      Share(c as real, a as real);
      assert 20.0 * c as real == (20 * c) as real;
    }
  }

  /** A swap exchanges two neighbouring steps and nothing else. */
  lemma {:induction false} SwappedExactly(motif: Motif, i: nat)
    requires i + 1 < |motif|
    ensures var swapped := Swapped(motif, i);
      && swapped == motif[..i] + [motif[i + 1], motif[i]] + motif[i + 2..]
  {
  }
}
