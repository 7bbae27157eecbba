/** Mining the verified corpus for candidate skills. */
module Mining {
  import opened Motifs
  import Sorting

  datatype Entry = Entry(support: nat, contexts: set<string>)
  datatype Candidate = Candidate(steps: Motif, support: nat, contexts: set<string>)

  predicate Minable(motif: Motif) {
    MIN_MOTIF_LEN <= |motif| <= MAX_MOTIF_LEN
  }

  /** More support first, then longer motifs. */
  predicate Outranks(a: Candidate, b: Candidate) {
    a.support > b.support || (a.support == b.support && |a.steps| >= |b.steps|)
  }

  lemma {:induction false} OutranksIsTotalPreorder()
    ensures Sorting.TotalPreorder(Outranks)
  {
  }

  /** The counting table holds exactly the minable motifs of the traces, with their support and
      contexts. */
  ghost predicate Exact(counts: map<Motif, Entry>, traces: seq<Trace>) {
    forall m: Motif ::
      && (m in counts <==> Minable(m) && Support(traces, m) > 0)
      && (m in counts ==> counts[m] == Entry(Support(traces, m), Contexts(traces, m)))
  }

  /** One vote per run: the table after a trace in which exactly the motifs of `seen` occur. */
  ghost predicate Voted(before: map<Motif, Entry>, after: map<Motif, Entry>, seen: set<Motif>, goal: string) {
    && after.Keys == before.Keys + seen
    && forall m <- after.Keys ::
         var was := if m in before then before[m] else Entry(0, {});
         after[m] == if m in seen then Entry(was.support + 1, was.contexts + {goal}) else was
  }

  lemma {:induction false} CastVote(before: map<Motif, Entry>, counts: map<Motif, Entry>, seen: set<Motif>,
                                    motif: Motif, goal: string)
    requires Voted(before, counts, seen, goal) && motif !in seen
    ensures var entry := if motif in counts then counts[motif] else Entry(0, {});
      Voted(before, counts[motif := Entry(entry.support + 1, entry.contexts + {goal})], seen + {motif}, goal)
  {
  }

  function Window(keys: seq<string>, i: int, k: int): seq<string> {
    if 0 <= i <= i + k <= |keys| then keys[i..i + k] else []
  }

  method CountTrace(before: map<Motif, Entry>, order: seq<Motif>, trace: Trace)
    returns (counts: map<Motif, Entry>, order': seq<Motif>, ghost seen: set<Motif>)
    requires forall m :: m in order <==> m in before
    requires Sorting.Unrepeated(order)
    ensures forall m :: m in seen <==> Minable(m) && Occurs(trace.keys, m)
    ensures Voted(before, counts, seen, trace.goal)
    ensures forall m :: m in order' <==> m in counts
    ensures Sorting.Unrepeated(order')
  {
    var keys := trace.keys;
    counts, order' := before, order;
    var seenHere: set<Motif> := {};
    var top := if MAX_MOTIF_LEN <= |keys| then MAX_MOTIF_LEN else |keys|;
    var size := MIN_MOTIF_LEN;
    NoVotes(before, trace.goal);
    hide Voted, Sorting.Unrepeated, Occurs, Window;
    while size <= top
      invariant MIN_MOTIF_LEN <= size
      invariant forall m <- seenHere :: Minable(m) && Occurs(keys, m)
      invariant forall k, i :: MIN_MOTIF_LEN <= k < size && k <= top && 0 <= i <= |keys| - k ==>
        Window(keys, i, k) in seenHere
      invariant Voted(before, counts, seenHere, trace.goal)
      invariant (forall m :: m in order' <==> m in counts) && Sorting.Unrepeated(order')
      decreases top - size
    {
      for start := 0 to |keys| - size + 1
        invariant forall m <- seenHere :: Minable(m) && Occurs(keys, m)
        invariant forall k, i :: MIN_MOTIF_LEN <= k < size && k <= top && 0 <= i <= |keys| - k ==>
          Window(keys, i, k) in seenHere
        invariant forall i :: 0 <= i < start ==> Window(keys, i, size) in seenHere
        invariant Voted(before, counts, seenHere, trace.goal)
        invariant (forall m :: m in order' <==> m in counts) && Sorting.Unrepeated(order')
      {
        var motif := Window(keys, start, size);
        if motif !in seenHere {
          WindowOccurs(keys, start, size);
          Sorting.AppendUnrepeated(order', motif);
          ghost var was := counts;
          var entry := if motif in counts then counts[motif] else Entry(0, {});
          if motif !in counts {
            order' := order' + [motif];
          }
          counts := counts[motif := Entry(entry.support + 1, entry.contexts + {trace.goal})];
          CastVote(before, was, seenHere, motif, trace.goal);
          seenHere := seenHere + {motif};
        }
      }
      size := size + 1;
    }
    seen := seenHere;
    forall m | Minable(m) && Occurs(keys, m) ensures m in seen {
      var i := OccursInWindow(keys, m);
      assert Window(keys, i, |m|) in seenHere;
    }
  }

  lemma {:induction false} NoVotes(before: map<Motif, Entry>, goal: string)
    ensures Voted(before, before, {}, goal)
  {
  }

  lemma {:induction false} WindowOccurs(keys: seq<string>, i: nat, k: nat)
    requires i + k <= |keys|
    ensures |Window(keys, i, k)| == k && Occurs(keys, Window(keys, i, k))
  {
    assert StartsAt(keys, Window(keys, i, k), i);
  }

  lemma {:induction false} OccursInWindow(keys: seq<string>, m: Motif) returns (i: nat)
    requires Occurs(keys, m)
    ensures i + |m| <= |keys| && Window(keys, i, |m|) == m
  {
    i :| StartsAt(keys, m, i);
  }

  lemma {:induction false} VoteIsExact(before: map<Motif, Entry>, after: map<Motif, Entry>, seen: set<Motif>,
                                       traces: seq<Trace>, trace: Trace)
    requires Exact(before, traces) && Voted(before, after, seen, trace.goal)
    requires forall m :: m in seen <==> Minable(m) && Occurs(trace.keys, m)
    ensures Exact(after, traces + [trace])
  {
    var all := traces + [trace];
    assert all[..|all| - 1] == traces;
    forall m: Motif
      ensures m in after <==> Minable(m) && Support(all, m) > 0
      ensures m in after ==> after[m] == Entry(Support(all, m), Contexts(all, m))
    {
      assert Contexts(all, m) == Contexts(traces, m) + (if Occurs(trace.keys, m) then {trace.goal} else {}) by {
        ContextsGrow(traces, trace, m);
      }
      NoSupportNoContexts(traces, m);
    }
  }

  lemma {:induction false} ContextsGrow(traces: seq<Trace>, trace: Trace, m: Motif)
    ensures Contexts(traces + [trace], m)
      == Contexts(traces, m) + (if Occurs(trace.keys, m) then {trace.goal} else {})
  {
    var all := traces + [trace];
    var more := if Occurs(trace.keys, m) then {trace.goal} else {};
    forall g | g in Contexts(traces, m) + more ensures g in Contexts(all, m) {
      if g in Contexts(traces, m) {
        var t :| t in traces && Occurs(t.keys, m) && t.goal == g;
        assert t in all;
      } else {
        assert trace in all;
      }
    }
  }

  lemma {:induction false} NoSupportNoContexts(traces: seq<Trace>, m: Motif)
    ensures Support(traces, m) == 0 ==> Contexts(traces, m) == {}
  {
    if traces != [] {
      var init, t := traces[..|traces| - 1], traces[|traces| - 1];
      NoSupportNoContexts(init, m);
      ContextsGrow(init, t, m);
      assert traces == init + [t];
    }
  }

  /** Mining is exact: a motif is listed if and only if it has two to five steps and at least two
      verified sequences contain it; its support is the gate's own count and its contexts are
      those sequences' goals; nothing is listed twice; the best supported come first. */
  method MineCandidates(runs: seq<Run>) returns (candidates: seq<Candidate>)
    ensures forall m: Motif :: Lists(candidates, m) <==> Minable(m) && Support(VerifiedSequences(runs), m) >= 2
    ensures forall c <- candidates :: c.support == Support(VerifiedSequences(runs), c.steps)
    ensures forall c <- candidates :: c.contexts == Contexts(VerifiedSequences(runs), c.steps)
    ensures forall i, j :: 0 <= i < j < |candidates| ==> candidates[i].steps != candidates[j].steps
    ensures Sorting.Sorted(candidates, Outranks)
    ensures forall c <- candidates :: 2 <= |c.steps| <= 5 && c.support >= 2
    ensures forall i, j :: 0 <= i < j < |candidates| ==> candidates[i].support >= candidates[j].support
    ensures forall i, j :: 0 <= i < j < |candidates| && candidates[i].support == candidates[j].support ==>
      |candidates[i].steps| >= |candidates[j].steps|
  {
    hide Outranks;
    var traces := ReadVerifiedSequences(runs);
    var counts: map<Motif, Entry>, order: seq<Motif> := map[], [];
    for n := 0 to |traces|
      invariant Exact(counts, traces[..n])
      invariant (forall m :: m in order <==> m in counts) && Sorting.Unrepeated(order)
    {
      assert traces[..n + 1] == traces[..n] + [traces[n]];
      ghost var seen;
      ghost var before := counts;
      counts, order, seen := CountTrace(counts, order, traces[n]);
      VoteIsExact(before, counts, seen, traces[..n], traces[n]);
    }
    assert traces[..|traces|] == traces;
    var listed := Listed(counts, order);
    candidates := Sorting.Sort(listed, Outranks);
    OutranksIsTotalPreorder();
    Sorting.SortIsSorted(listed, Outranks);
    Sorting.SameElements(listed, candidates);
    ListedIsExact(counts, traces, candidates);
    Sorting.UnrepeatedSurvives(listed, candidates);
    BestFirst(candidates);
    hide Exact, Sorting.Sorted;
  }

  lemma {:induction false} BestFirst(candidates: seq<Candidate>)
    requires Sorting.Sorted(candidates, Outranks)
    ensures forall i, j :: 0 <= i < j < |candidates| ==> candidates[i].support >= candidates[j].support
    ensures forall i, j :: 0 <= i < j < |candidates| && candidates[i].support == candidates[j].support ==>
      |candidates[i].steps| >= |candidates[j].steps|
  {
    forall i, j | 0 <= i < j < |candidates| ensures Outranks(candidates[i], candidates[j]) {
    }
  }

  ghost predicate Lists(candidates: seq<Candidate>, motif: Motif) {
    exists c :: c in candidates && c.steps == motif
  }

  lemma {:induction false} ListedIsExact(counts: map<Motif, Entry>, traces: seq<Trace>, listed: seq<Candidate>)
    requires Exact(counts, traces)
    requires forall c :: c in listed <==>
      c.steps in counts && counts[c.steps].support >= 2
      && c == Candidate(c.steps, counts[c.steps].support, counts[c.steps].contexts)
    ensures forall m: Motif :: Lists(listed, m) <==> Minable(m) && Support(traces, m) >= 2
  {
    forall m: Motif | Minable(m) && Support(traces, m) >= 2
      ensures Lists(listed, m)
    {
      assert Candidate(m, counts[m].support, counts[m].contexts) in listed;
    }
  }

  method Listed(counts: map<Motif, Entry>, order: seq<Motif>) returns (listed: seq<Candidate>)
    requires (forall m :: m in order <==> m in counts) && Sorting.Unrepeated(order)
    ensures forall c :: c in listed <==>
      c.steps in counts && counts[c.steps].support >= 2
      && c == Candidate(c.steps, counts[c.steps].support, counts[c.steps].contexts)
    ensures Sorting.Unrepeated(listed)
  {
    listed := [];
    for n := 0 to |order|
      invariant forall c :: c in listed <==>
        c.steps in order[..n] && counts[c.steps].support >= 2
        && c == Candidate(c.steps, counts[c.steps].support, counts[c.steps].contexts)
      invariant Sorting.Unrepeated(listed)
    {
      assert order[..n + 1] == order[..n] + [order[n]];
      var entry := counts[order[n]];
      if entry.support >= 2 {
        listed := listed + [Candidate(order[n], entry.support, entry.contexts)];
      }
    }
    assert order[..|order|] == order;
  }
}
