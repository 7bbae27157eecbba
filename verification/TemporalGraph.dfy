/** Typed, time-scoped edges: an append-only table whose every read is scoped to a moment. An
    edge's id is its position in the table, counted from 1. */
module TemporalGraphs {
  import opened Occurrences

  const NEIGHBOR_LIMIT := 500

  datatype Edge = Edge(edgeType: string, source: string, target: string, validFrom: int,
                       validUntil: Option<int>, supersededBy: Option<int>)

  type Edges = seq<Edge>

  /** Valid at a moment: not superseded, begun, not yet ended. */
  predicate ValidAt(e: Edge, at: int) {
    e.supersededBy.None? && e.validFrom <= at && (e.validUntil.None? || e.validUntil.value > at)
  }

  predicate Joins(e: Edge, u: string, v: string) {
    (e.source == u && e.target == v) || (e.source == v && e.target == u)
  }

  predicate Touches(e: Edge, node: string) {
    e.source == node || e.target == node
  }

  predicate Listable(edges: Edges, id: int, node: string, at: int) {
    1 <= id <= |edges| && Touches(edges[id - 1], node) && ValidAt(edges[id - 1], at)
  }

  // ---- Reads ----

  /** The valid edges touching a node, newest first. */
  function Touching(edges: Edges, node: string, at: int): (ids: seq<int>)
    ensures forall id :: id in ids <==> Listable(edges, id, node, at)
  {
    if edges == [] then [] else
    var older := Touching(edges[..|edges| - 1], node, at);
    if Touches(edges[|edges| - 1], node) && ValidAt(edges[|edges| - 1], at) then [|edges|] + older else older
  }

  function Newest<T>(s: seq<T>, limit: nat): seq<T> {
    if |s| <= limit then s else s[..limit]
  }

  predicate IsOfType(edges: Edges, id: int, edgeTypes: seq<string>) {
    1 <= id <= |edges| && edges[id - 1].edgeType in edgeTypes
  }

  function OfTypes(edges: Edges, ids: seq<int>, edgeTypes: seq<string>): seq<int> {
    if ids == [] then [] else
    (if IsOfType(edges, ids[0], edgeTypes) then [ids[0]] else []) + OfTypes(edges, ids[1..], edgeTypes)
  }

  /** The newest 500 are taken before the types are filtered. */
  function Neighbors(edges: Edges, node: string, edgeTypes: seq<string>, at: int): seq<int> {
    var newest := Newest(Touching(edges, node, at), NEIGHBOR_LIMIT);
    if edgeTypes == [] then newest else OfTypes(edges, newest, edgeTypes)
  }

  predicate Depends(e: Edge, target: string, at: int) {
    e.target == target && (e.edgeType == "depends_on" || e.edgeType == "consumes") && ValidAt(e, at)
  }

  /** What depended on the target at the moment: every such edge, newest first. */
  function DependentsAt(edges: Edges, target: string, at: int): (ids: seq<int>)
    ensures forall id :: id in ids <==> 1 <= id <= |edges| && Depends(edges[id - 1], target, at)
  {
    if edges == [] then [] else
    var older := DependentsAt(edges[..|edges| - 1], target, at);
    if Depends(edges[|edges| - 1], target, at) then [|edges|] + older else older
  }

  // ---- Writes ----

  function Connected(edges: Edges, edgeType: string, source: string, target: string, validUntil: Option<int>,
                     now: int): Edges
  {
    edges + [Edge(edgeType, source, target, now, validUntil, None)]
  }

  /** Ending an edge that has no end yet; any other edge is left alone. */
  function Closed(edges: Edges, id: int, supersededBy: Option<int>, now: int): (r: Edges)
    ensures |r| == |edges|
  {
    if 1 <= id <= |edges| && edges[id - 1].validUntil.None?
    then edges[id - 1 := edges[id - 1].(validUntil := Some(now), supersededBy := supersededBy)]
    else edges
  }

  /** An edge is superseded only by being ended. */
  predicate EndedWhenSuperseded(edges: Edges) {
    forall i :: 0 <= i < |edges| && edges[i].supersededBy.Some? ==> edges[i].validUntil.Some?
  }

  // ---- Reachability over any step relation ----

  type Steps = (string, string) -> bool

  ghost predicate Walk(step: Steps, w: seq<string>) {
    w != [] && forall i :: 0 <= i < |w| - 1 ==> step(w[i], w[i + 1])
  }

  ghost predicate WalkTo(step: Steps, from: string, to: string, w: seq<string>, k: int) {
    Walk(step, w) && w[0] == from && w[|w| - 1] == to && |w| <= k + 1
  }

  /** Some walk of at most `k` steps leads there. */
  ghost predicate Within(step: Steps, from: string, to: string, k: int) {
    exists w :: WalkTo(step, from, to, w, k)
  }

  lemma {:induction false} WithinNone(step: Steps, from: string)
    ensures forall v :: Within(step, from, v, 0) <==> v == from
  {
    assert WalkTo(step, from, from, [from], 0);
  }

  ghost predicate ReachedThrough(step: Steps, from: string, v: string, u: string, k: int) {
    Within(step, from, u, k) && step(u, v)
  }

  lemma {:induction false} WithinStep(step: Steps, from: string, v: string, k: nat)
    ensures Within(step, from, v, k + 1) <==>
      Within(step, from, v, k) || exists u :: ReachedThrough(step, from, v, u, k)
  {
    if Within(step, from, v, k + 1) {
      var w :| WalkTo(step, from, v, w, k + 1);
      if |w| <= k + 1 {
        assert WalkTo(step, from, v, w, k);
      } else {
        var init := w[..|w| - 1];
        assert WalkTo(step, from, init[|init| - 1], init, k);
        assert ReachedThrough(step, from, v, init[|init| - 1], k);
      }
    }
    if Within(step, from, v, k) {
      var w :| WalkTo(step, from, v, w, k);
      assert WalkTo(step, from, v, w, k + 1);
    }
    if u :| ReachedThrough(step, from, v, u, k) {
      var w :| WalkTo(step, from, u, w, k);
      assert WalkTo(step, from, v, w + [v], k + 1);
    }
  }

  /** Two relations that differ only in staying put reach the same nodes. */
  lemma {:induction false} SameReach(step: Steps, other: Steps, from: string, v: string, k: nat)
    requires forall a, b :: a != b ==> (step(a, b) <==> other(a, b))
    ensures Within(step, from, v, k) <==> Within(other, from, v, k)
    decreases k
  {
    if k == 0 {
      WithinNone(step, from);
      WithinNone(other, from);
    } else {
      hide Within;
      var j := k - 1;
      WithinStep(step, from, v, j);
      WithinStep(other, from, v, j);
      SameReach(step, other, from, v, j);
      forall u | u != v
        ensures ReachedThrough(step, from, v, u, j) <==> ReachedThrough(other, from, v, u, j)
      {
        SameReach(step, other, from, u, j);
      }
      assert ReachedThrough(step, from, v, v, j) ==> Within(step, from, v, j);
      assert ReachedThrough(other, from, v, v, j) ==> Within(other, from, v, j);
    }
  }

  // ---- The graph ----

  predicate EndsAt(edges: Edges, id: int, v: string) {
    1 <= id <= |edges| && Touches(edges[id - 1], v)
  }

  /** What one listing shows as connected: an end of one of the edges listed for the node. */
  ghost predicate Adjacent(edges: Edges, at: int, u: string, v: string) {
    exists id :: id in Neighbors(edges, u, [], at) && EndsAt(edges, id, v)
  }

  ghost function Shown(edges: Edges, at: int): Steps {
    (u, v) => Adjacent(edges, at, u, v)
  }

  lemma {:induction false} ListedIsListable(edges: Edges, node: string, at: int)
    ensures forall id <- Neighbors(edges, node, [], at) :: Listable(edges, id, node, at)
  {
    var all := Touching(edges, node, at);
    assert forall id <- Newest(all, NEIGHBOR_LIMIT) :: id in all;
  }

  class TemporalGraph {
    var edges: Edges

    constructor ()
      ensures edges == [] && EndedWhenSuperseded(edges)
    {
      edges := [];
    }

    /** An edge without provenance is refused. */
    method Connect(edgeType: string, source: string, target: string, provenance: seq<string>,
                   validUntil: Option<int>, now: int) returns (id: Option<int>)
      requires EndedWhenSuperseded(edges)
      modifies this
      ensures EndedWhenSuperseded(edges)
      ensures id.Some? <==> provenance != []
      ensures id.Some? ==> id.value == |edges|
      ensures edges == if id.Some? then Connected(old(edges), edgeType, source, target, validUntil, now) else old(edges)
      ensures id.Some? ==> edges == old(edges) + [Edge(edgeType, source, target, now, validUntil, None)]
    {
      if provenance == [] {
        return None;
      }
      edges := edges + [Edge(edgeType, source, target, now, validUntil, None)];
      return Some(|edges|);
    }

    method Close(id: int, supersededBy: Option<int>, now: int)
      requires EndedWhenSuperseded(edges)
      modifies this
      ensures EndedWhenSuperseded(edges)
      ensures edges == Closed(old(edges), id, supersededBy, now)
      ensures |edges| == |old(edges)|
      ensures forall k :: 0 <= k < |edges| && (k != id - 1 || old(edges)[k].validUntil.Some?) ==>
        edges[k] == old(edges)[k]
      ensures 1 <= id <= |edges| && old(edges)[id - 1].validUntil.None? ==>
        edges[id - 1] == old(edges)[id - 1].(validUntil := Some(now), supersededBy := supersededBy)
    {
      if 1 <= id <= |edges| && edges[id - 1].validUntil.None? {
        edges := edges[id - 1 := edges[id - 1].(validUntil := Some(now), supersededBy := supersededBy)];
      }
    }

    /** Breadth-first, one round per hop, stopping early when a round grows nothing: exactly the
        nodes that a walk of at most max(1, hops) listed steps leads to, the seed left out. */
    method Neighborhood(node: string, hops: int, at: int) returns (found: set<string>)
      ensures forall v :: v in found <==>
        v != node && Within(Shown(edges, at), node, v, if hops < 1 then 1 else hops)
    {
      ghost var step := Shown(edges, at);
      var seen, frontier := {node}, {node};
      var limit := if hops < 1 then 1 else hops;
      var n := 0;
      WithinNone(step, node);
      hide Within;
      while n < limit
        invariant 0 <= n <= limit
        invariant forall v :: v in seen <==> Within(step, node, v, n)
        invariant frontier <= seen
        invariant forall v :: v in seen && v !in frontier ==> n > 0 && Within(step, node, v, n - 1)
      {
        var grown := Round(frontier, at);
        ghost var before := seen;
        OneHopMore(step, node, n, seen, frontier, grown);
        frontier := grown - seen;
        seen := seen + grown;
        n := n + 1;
        if frontier == {} {
          assert grown - before == {} && seen == before + grown;
          assert seen == before by {
            forall x | x in grown ensures x in before {
              assert x !in grown - before;
            }
          }
          NothingGrows(step, node, n, limit);
          break;
        }
      }
      found := seen - {node};
    }

    /** One round: both ends of every edge listed for a node of the frontier. */
    method Round(frontier: set<string>, at: int) returns (grown: set<string>)
      ensures forall v :: v in grown <==> GrowsFrom(Shown(edges, at), frontier, v)
    {
      grown := {};
      var todo := frontier;
      while todo != {}
        invariant todo <= frontier
        invariant forall v :: v in grown <==> GrowsFrom(Shown(edges, at), frontier - todo, v)
        decreases todo
      {
        var nid :| nid in todo;
        ghost var before, finished := grown, frontier - todo;
        var ends := EndsOfListed(nid, at);
        grown := grown + ends;
        todo := todo - {nid};
        assert frontier - todo == finished + {nid};
        forall v ensures GrowsFrom(Shown(edges, at), finished + {nid}, v)
          <==> GrowsFrom(Shown(edges, at), finished, v) || Shown(edges, at)(nid, v)
        {
          GrowsFromOneMore(Shown(edges, at), finished, nid, v);
        }
      }
      assert frontier - todo == frontier;
    }

    method EndsOfListed(node: string, at: int) returns (ends: set<string>)
      ensures forall v :: v in ends <==> Shown(edges, at)(node, v)
    {
      var listed := Neighbors(edges, node, [], at);
      ListedIsListable(edges, node, at);
      ends := {};
      for k := 0 to |listed|
        invariant forall v :: v in ends <==> exists i :: 0 <= i < k && EndsAt(edges, listed[i], v)
      {
        assert listed[k] in listed;
        ends := ends + {edges[listed[k] - 1].source, edges[listed[k] - 1].target};
      }
      forall v ensures v in ends <==> Adjacent(edges, at, node, v) {
        if v in ends {
          var i :| 0 <= i < |listed| && EndsAt(edges, listed[i], v);
          assert listed[i] in listed;
        }
        if Adjacent(edges, at, node, v) {
          var id :| id in listed && EndsAt(edges, id, v);
          var i :| 0 <= i < |listed| && listed[i] == id;
        }
      }
    }
  }

  ghost predicate GrowsFrom(step: Steps, frontier: set<string>, v: string) {
    exists u :: u in frontier && step(u, v)
  }

  lemma {:induction false} GrowsFromOneMore(step: Steps, frontier: set<string>, nid: string, v: string)
    ensures GrowsFrom(step, frontier + {nid}, v) <==> GrowsFrom(step, frontier, v) || step(nid, v)
  {
    if GrowsFrom(step, frontier, v) {
      var u :| u in frontier && step(u, v);
      assert u in frontier + {nid};
    }
    assert nid in frontier + {nid};
  }

  lemma {:induction false} OneHopMore(step: Steps, node: string, n: nat, seen: set<string>,
                                      frontier: set<string>, grown: set<string>)
    requires forall v :: v in seen <==> Within(step, node, v, n)
    requires frontier <= seen
    requires forall v :: v in seen && v !in frontier ==> n > 0 && Within(step, node, v, n - 1)
    requires forall v :: v in grown <==> GrowsFrom(step, frontier, v)
    ensures forall v :: v in seen + grown <==> Within(step, node, v, n + 1)
  {
    hide Within;
    forall v ensures v in seen + grown <==> Within(step, node, v, n + 1) {
      WithinStep(step, node, v, n);
      if v in grown {
        var u :| u in frontier && step(u, v);
        assert ReachedThrough(step, node, v, u, n);
      }
      if u :| ReachedThrough(step, node, v, u, n) {
        if u !in frontier {
          assert ReachedThrough(step, node, v, u, n - 1);
          WithinStep(step, node, v, n - 1);
        }
      }
    }
  }

  /** A round that grows nothing new closes the neighborhood for every later hop. */
  lemma {:induction false} NothingGrows(step: Steps, node: string, n: nat, limit: nat)
    requires 0 < n <= limit
    requires forall v :: Within(step, node, v, n) <==> Within(step, node, v, n - 1)
    ensures forall v :: Within(step, node, v, limit) <==> Within(step, node, v, n)
    decreases limit - n
  {
    hide Within;
    if n < limit {
      forall v ensures Within(step, node, v, n + 1) <==> Within(step, node, v, n) {
        WithinStep(step, node, v, n);
        WithinStep(step, node, v, n - 1);
        if u :| ReachedThrough(step, node, v, u, n) {
          assert ReachedThrough(step, node, v, u, n - 1);
        }
      }
      NothingGrows(step, node, n + 1, limit);
    }
  }

  // ---- Exactness when no node has more edges than a listing shows ----

  predicate LinkedBy(edges: Edges, id: int, at: int, u: string, v: string) {
    1 <= id <= |edges| && ValidAt(edges[id - 1], at) && Joins(edges[id - 1], u, v)
  }

  /** Joined by some edge valid at the moment, in either direction. */
  ghost predicate Linked(edges: Edges, at: int, u: string, v: string) {
    exists id :: LinkedBy(edges, id, at, u, v)
  }

  ghost function Links(edges: Edges, at: int): Steps {
    (u, v) => Linked(edges, at, u, v)
  }

  ghost predicate ListingsComplete(edges: Edges, at: int) {
    forall node :: |Touching(edges, node, at)| <= NEIGHBOR_LIMIT
  }

  lemma {:induction false} ListedIsLinked(edges: Edges, at: int, u: string, v: string)
    requires u != v
    ensures Adjacent(edges, at, u, v) ==> Linked(edges, at, u, v)
    ensures ListingsComplete(edges, at) ==> (Linked(edges, at, u, v) ==> Adjacent(edges, at, u, v))
  {
    ListedIsListable(edges, u, at);
    if Linked(edges, at, u, v) && ListingsComplete(edges, at) {
      var id :| LinkedBy(edges, id, at, u, v);
      assert Listable(edges, id, u, at);
      assert id in Neighbors(edges, u, [], at);
    }
    if Adjacent(edges, at, u, v) {
      var id :| id in Neighbors(edges, u, [], at) && EndsAt(edges, id, v);
      assert LinkedBy(edges, id, at, u, v);
    }
  }

  /** With at most 500 valid edges at each node, the neighborhood is exactly the nodes at undirected
      distance 1 to max(1, hops). */
  lemma {:induction false} NeighborhoodIsUndirectedDistance(edges: Edges, at: int, node: string, v: string, k: nat)
    requires ListingsComplete(edges, at)
    ensures Within(Shown(edges, at), node, v, k) <==> Within(Links(edges, at), node, v, k)
  {
    forall a, b | a != b ensures Shown(edges, at)(a, b) <==> Links(edges, at)(a, b) {
      ListedIsLinked(edges, at, a, b);
    }
    hide Shown, Links, Within;
    SameReach(Shown(edges, at), Links(edges, at), node, v, k);
  }

  // ---- The past stays read ----

  datatype Change =
    | Connecting(edgeType: string, source: string, target: string, validUntil: Option<int>, now: int)
    | Ending(id: int, now: int)

  function Changed(edges: Edges, c: Change): Edges {
    match c
    case Connecting(edgeType, source, target, validUntil, now) =>
      Connected(edges, edgeType, source, target, validUntil, now)
    case Ending(id, now) => Closed(edges, id, None, now)
  }

  function AllChanged(edges: Edges, cs: seq<Change>): Edges
    decreases |cs|
  {
    if cs == [] then edges else AllChanged(Changed(edges, cs[0]), cs[1..])
  }

  /** Nothing a past read looks at has moved: same rows then valid, each the same edge. */
  ghost predicate SamePast(edges: Edges, later: Edges, at: int) {
    && |edges| <= |later|
    && (forall i :: 0 <= i < |edges| ==>
          && ValidAt(later[i], at) == ValidAt(edges[i], at)
          && later[i].(validUntil := None, supersededBy := None) == edges[i].(validUntil := None, supersededBy := None))
    && forall i :: |edges| <= i < |later| ==> !ValidAt(later[i], at)
  }

  lemma {:induction false} ChangesKeepThePast(edges: Edges, cs: seq<Change>, at: int)
    requires EndedWhenSuperseded(edges) && forall c <- cs :: at < c.now
    ensures SamePast(edges, AllChanged(edges, cs), at)
    decreases |cs|
  {
    if cs != [] {
      assert at < cs[0].now;
      var next := Changed(edges, cs[0]);
      ChangeKeepsThePast(edges, cs[0], at);
      ChangesKeepThePast(next, cs[1..], at);
      SamePastTransitive(edges, next, AllChanged(edges, cs), at);
    }
  }

  lemma {:induction false} ChangeKeepsThePast(edges: Edges, c: Change, at: int)
    requires EndedWhenSuperseded(edges) && at < c.now
    ensures SamePast(edges, Changed(edges, c), at) && EndedWhenSuperseded(Changed(edges, c))
  {
  }

  lemma {:induction false} SamePastTransitive(a: Edges, b: Edges, c: Edges, at: int)
    requires SamePast(a, b, at) && SamePast(b, c, at)
    ensures SamePast(a, c, at)
  {
    hide ValidAt;
    forall i | 0 <= i < |a|
      ensures c[i].(validUntil := None, supersededBy := None) == a[i].(validUntil := None, supersededBy := None)
    {
      assert c[i].(validUntil := None, supersededBy := None) == b[i].(validUntil := None, supersededBy := None);
    }
  }

  lemma {:induction false} PastReadsAgree(edges: Edges, later: Edges, node: string, at: int)
    requires SamePast(edges, later, at)
    ensures Touching(later, node, at) == Touching(edges, node, at)
    decreases |later|
  {
    if |later| > |edges| {
      var before := later[..|later| - 1];
      assert SamePast(edges, before, at) && !ValidAt(later[|later| - 1], at);
      hide *;
      TouchingStep(later, node, at);
      PastReadsAgree(edges, before, node, at);
    } else if edges != [] {
      var n := |edges| - 1;
      assert |later| == |edges| && SamePast(edges[..n], later[..n], at);
      assert ValidAt(later[n], at) == ValidAt(edges[n], at);
      SameEnds(edges, later, at, |edges|, node);
      assert Touches(later[n], node) == Touches(edges[n], node);
      hide *;
      TouchingStep(later, node, at);
      TouchingStep(edges, node, at);
      PastReadsAgree(edges[..n], later[..n], node, at);
    }
  }

  lemma {:induction false} TouchingStep(edges: Edges, node: string, at: int)
    requires edges != []
    ensures var older, last := Touching(edges[..|edges| - 1], node, at), edges[|edges| - 1];
      Touching(edges, node, at) == if Touches(last, node) && ValidAt(last, at) then [|edges|] + older else older
  {
  }

  lemma {:induction false} PastDependentsAgree(edges: Edges, later: Edges, node: string, at: int)
    requires SamePast(edges, later, at)
    ensures DependentsAt(later, node, at) == DependentsAt(edges, node, at)
    decreases |later|
  {
    if |later| > |edges| {
      PastDependentsAgree(edges, later[..|later| - 1], node, at);
    } else if edges != [] {
      PastDependentsAgree(edges[..|edges| - 1], later[..|later| - 1], node, at);
    }
  }

  lemma {:induction false} SameTypesKept(edges: Edges, later: Edges, ids: seq<int>, edgeTypes: seq<string>, at: int)
    requires SamePast(edges, later, at) && forall id <- ids :: 1 <= id <= |edges|
    ensures OfTypes(later, ids, edgeTypes) == OfTypes(edges, ids, edgeTypes)
  {
    if ids != [] {
      assert ids[0] in ids && forall id <- ids[1..] :: id in ids;
      SameTypesKept(edges, later, ids[1..], edgeTypes, at);
    }
  }

  /** A read at a past moment is unchanged by every later connection and plain close: neighbors,
      dependents and neighborhoods alike. */
  lemma {:induction false} PastReadsAreStable(edges: Edges, cs: seq<Change>, node: string, edgeTypes: seq<string>,
                                              at: int, v: string, k: nat)
    requires EndedWhenSuperseded(edges) && forall c <- cs :: at < c.now
    ensures var later := AllChanged(edges, cs);
      && Neighbors(later, node, edgeTypes, at) == Neighbors(edges, node, edgeTypes, at)
      && DependentsAt(later, node, at) == DependentsAt(edges, node, at)
      && (Within(Shown(later, at), node, v, k) <==> Within(Shown(edges, at), node, v, k))
  {
    var later := AllChanged(edges, cs);
    ChangesKeepThePast(edges, cs, at);
    hide AllChanged, Within;
    PastReadsAgree(edges, later, node, at);
    PastDependentsAgree(edges, later, node, at);
    var listed := Newest(Touching(edges, node, at), NEIGHBOR_LIMIT);
    assert forall id <- listed :: id in Touching(edges, node, at);
    SameTypesKept(edges, later, listed, edgeTypes, at);
    forall a, b ensures Shown(later, at)(a, b) <==> Shown(edges, at)(a, b) {
      SameAdjacency(edges, later, at, a, b);
    }
    SameReach(Shown(later, at), Shown(edges, at), node, v, k);
  }

  lemma {:induction false} SameAdjacency(edges: Edges, later: Edges, at: int, a: string, b: string)
    requires SamePast(edges, later, at)
    ensures Adjacent(later, at, a, b) <==> Adjacent(edges, at, a, b)
  {
    PastReadsAgree(edges, later, a, at);
    ListedIsListable(edges, a, at);
    assert Neighbors(later, a, [], at) == Neighbors(edges, a, [], at);
    forall id | id in Neighbors(edges, a, [], at) ensures EndsAt(later, id, b) == EndsAt(edges, id, b) {
      assert Listable(edges, id, a, at);
      SameEnds(edges, later, at, id, b);
    }
    hide Neighbors, SamePast, EndsAt;
  }

  lemma {:induction false} SameEnds(edges: Edges, later: Edges, at: int, id: int, v: string)
    requires SamePast(edges, later, at) && 1 <= id <= |edges|
    ensures EndsAt(later, id, v) == EndsAt(edges, id, v)
  {
    var was, since := edges[id - 1], later[id - 1];
    assert since.(validUntil := None, supersededBy := None) == was.(validUntil := None, supersededBy := None);
    assert since.source == was.source && since.target == was.target;
  }

  // ---- A superseding close rewrites the past ----

  function Without(ids: seq<int>, id: int): seq<int> {
    if ids == [] then [] else (if ids[0] == id then [] else [ids[0]]) + Without(ids[1..], id)
  }

  lemma {:induction false} WithoutMembers(ids: seq<int>, id: int)
    ensures forall other :: other in Without(ids, id) <==> other != id && other in ids
  {
    if ids != [] {
      assert ids == [ids[0]] + ids[1..];
      WithoutMembers(ids[1..], id);
    }
  }

  lemma {:induction false} WithoutJoin(a: seq<int>, b: seq<int>, id: int)
    ensures Without(a + b, id) == Without(a, id) + Without(b, id)
  {
    if a == [] {
      assert a + b == b;
    } else {
      assert (a + b)[0] == a[0] && (a + b)[1..] == a[1..] + b;
      WithoutJoin(a[1..], b, id);
    }
  }

  lemma {:induction false} FirstOfType(edges: Edges, id: int, ids: seq<int>, edgeTypes: seq<string>)
    ensures OfTypes(edges, [id] + ids, edgeTypes)
      == (if IsOfType(edges, id, edgeTypes) then [id] else []) + OfTypes(edges, ids, edgeTypes)
  {
    assert ([id] + ids)[1..] == ids;
  }

  lemma {:induction false} OfTypesJoin(edges: Edges, a: seq<int>, b: seq<int>, edgeTypes: seq<string>)
    ensures OfTypes(edges, a + b, edgeTypes) == OfTypes(edges, a, edgeTypes) + OfTypes(edges, b, edgeTypes)
  {
    if a == [] {
      assert a + b == b;
    } else {
      assert a == [a[0]] + a[1..] && a + b == [a[0]] + (a[1..] + b);
      hide *;
      FirstOfType(edges, a[0], a[1..], edgeTypes);
      FirstOfType(edges, a[0], a[1..] + b, edgeTypes);
      OfTypesJoin(edges, a[1..], b, edgeTypes);
    }
  }

  predicate Wanted(edges: Edges, id: int, edgeTypes: seq<string>) {
    edgeTypes == [] || IsOfType(edges, id, edgeTypes)
  }

  /** The listing of a node cut to what the types ask for. */
  function Filtered(edges: Edges, ids: seq<int>, edgeTypes: seq<string>): seq<int> {
    if edgeTypes == [] then ids else OfTypes(edges, ids, edgeTypes)
  }

  lemma {:induction false} OfTypesMembers(edges: Edges, ids: seq<int>, edgeTypes: seq<string>)
    ensures forall id :: id in OfTypes(edges, ids, edgeTypes) <==> id in ids && IsOfType(edges, id, edgeTypes)
  {
    if ids != [] {
      assert ids == [ids[0]] + ids[1..];
      hide IsOfType;
      OfTypesMembers(edges, ids[1..], edgeTypes);
    }
  }

  lemma {:induction false} FilteredMembers(edges: Edges, ids: seq<int>, edgeTypes: seq<string>)
    ensures forall id :: id in Filtered(edges, ids, edgeTypes) <==> id in ids && Wanted(edges, id, edgeTypes)
  {
    OfTypesMembers(edges, ids, edgeTypes);
    hide OfTypes, IsOfType;
  }

  lemma {:induction false} FilteredJoin(edges: Edges, a: seq<int>, b: seq<int>, edgeTypes: seq<string>)
    ensures Filtered(edges, a + b, edgeTypes) == Filtered(edges, a, edgeTypes) + Filtered(edges, b, edgeTypes)
  {
    OfTypesJoin(edges, a, b, edgeTypes);
  }

  lemma {:induction false} OfTypesWithout(edges: Edges, ids: seq<int>, id: int, edgeTypes: seq<string>)
    ensures OfTypes(edges, Without(ids, id), edgeTypes) == Without(OfTypes(edges, ids, edgeTypes), id)
  {
    if ids != [] {
      var first, rest := [ids[0]], ids[1..];
      assert ids == first + rest;
      OfTypesWithout(edges, rest, id, edgeTypes);
      OfTypesJoin(edges, first, rest, edgeTypes);
      WithoutJoin(first, rest, id);
      WithoutJoin(OfTypes(edges, first, edgeTypes), OfTypes(edges, rest, edgeTypes), id);
      OfTypesJoin(edges, Without(first, id), Without(rest, id), edgeTypes);
      OneOfTypesWithout(edges, ids[0], id, edgeTypes);
      hide *;
    }
  }

  lemma {:induction false} OneOfTypesWithout(edges: Edges, only: int, id: int, edgeTypes: seq<string>)
    ensures OfTypes(edges, Without([only], id), edgeTypes) == Without(OfTypes(edges, [only], edgeTypes), id)
  {
    assert [only][1..] == [];
  }

  lemma {:induction false} ClosedKeepsTypes(edges: Edges, id: int, heir: int, now: int, k: int, edgeTypes: seq<string>)
    ensures IsOfType(Closed(edges, id, Some(heir), now), k, edgeTypes) == IsOfType(edges, k, edgeTypes)
  {
  }

  lemma {:induction false} ClosedOfTypesAlike(edges: Edges, id: int, heir: int, now: int, ids: seq<int>,
                                              edgeTypes: seq<string>)
    ensures OfTypes(Closed(edges, id, Some(heir), now), ids, edgeTypes) == OfTypes(edges, ids, edgeTypes)
  {
    if ids != [] {
      hide Closed, IsOfType;
      ClosedKeepsTypes(edges, id, heir, now, ids[0], edgeTypes);
      ClosedOfTypesAlike(edges, id, heir, now, ids[1..], edgeTypes);
    }
  }

  /** Types never change, so later tables filter alike. */
  lemma {:induction false} ClosedFiltersAlike(edges: Edges, id: int, heir: int, now: int, ids: seq<int>,
                                              edgeTypes: seq<string>)
    ensures Filtered(Closed(edges, id, Some(heir), now), ids, edgeTypes) == Filtered(edges, ids, edgeTypes)
  {
    ClosedOfTypesAlike(edges, id, heir, now, ids, edgeTypes);
    hide Closed, OfTypes;
  }

  /** Whether the close takes effect: only an edge without an end is closed at all. */
  predicate Open(edges: Edges, id: int) {
    1 <= id <= |edges| && edges[id - 1].validUntil.None?
  }

  lemma {:induction false} ClosedInit(edges: Edges, id: int, heir: int, now: int, at: int)
    requires Open(edges, id)
    ensures var later, n := Closed(edges, id, Some(heir), now), |edges|;
      && (id == n ==> later[..n - 1] == edges[..n - 1] && !ValidAt(later[n - 1], at))
      && (id < n ==> Open(edges[..n - 1], id) && later[n - 1] == edges[n - 1])
      && (id < n ==> later[..n - 1] == Closed(edges[..n - 1], id, Some(heir), now))
  {
  }

  lemma {:induction false} TouchingAfterClose(edges: Edges, id: int, heir: int, now: int, node: string, at: int)
    requires Open(edges, id)
    ensures Touching(Closed(edges, id, Some(heir), now), node, at) == Without(Touching(edges, node, at), id)
  {
    var n, init := |edges|, edges[..|edges| - 1];
    ClosedInit(edges, id, heir, now, at);
    WithoutJoin([n], Touching(init, node, at), id);
    hide Closed, Open, ValidAt;
    if id < n {
      TouchingAfterClose(init, id, heir, now, node, at);
    } else {
      WithoutAbsent(Touching(init, node, at), id);
    }
  }

  lemma {:induction false} DependentsStep(edges: Edges, target: string, at: int)
    requires edges != []
    ensures var older := DependentsAt(edges[..|edges| - 1], target, at);
      DependentsAt(edges, target, at) == if Depends(edges[|edges| - 1], target, at) then [|edges|] + older else older
  {
  }

  /** One row more of a listing, with and without an edge. */
  lemma {:induction false} RowMoreWithout(older: seq<int>, n: int, kept: bool, keptLater: bool, id: int)
    requires keptLater <==> kept && n != id
    ensures Without(if kept then [n] + older else older, id)
      == if keptLater then [n] + Without(older, id) else Without(older, id)
  {
    OneMoreWithout(n, older, id);
  }

  lemma {:induction false} DependentsAfterClose(edges: Edges, id: int, heir: int, now: int, node: string, at: int)
    requires Open(edges, id)
    ensures DependentsAt(Closed(edges, id, Some(heir), now), node, at) == Without(DependentsAt(edges, node, at), id)
  {
    hide *;
    ClosedDepends(edges, id, heir, now, node, at);
    var n, init, later := |edges|, edges[..|edges| - 1], Closed(edges, id, Some(heir), now);
    var kept, keptLater := Depends(edges[n - 1], node, at), Depends(later[n - 1], node, at);
    var older, olderLater := DependentsAt(init, node, at), DependentsAt(later[..n - 1], node, at);
    DependentsStep(edges, node, at);
    DependentsStep(later, node, at);
    if id < n {
      DependentsAfterClose(init, id, heir, now, node, at);
    } else {
      WithoutAbsent(older, id);
    }
    ListMoreWithout(older, olderLater, n, kept, keptLater, id);
  }

  /** What the close leaves of the newest row and of the rows before it. */
  lemma {:induction false} ClosedDepends(edges: Edges, id: int, heir: int, now: int, node: string, at: int)
    requires Open(edges, id)
    ensures var later, n := Closed(edges, id, Some(heir), now), |edges|;
      && 1 <= id <= n && |later| == n && n !in DependentsAt(edges[..n - 1], node, at)
      && (Depends(later[n - 1], node, at) <==> Depends(edges[n - 1], node, at) && n != id)
      && (id == n ==> later[..n - 1] == edges[..n - 1])
      && (id < n ==> Open(edges[..n - 1], id) && later[..n - 1] == Closed(edges[..n - 1], id, Some(heir), now))
  {
    ClosedInit(edges, id, heir, now, at);
    hide Closed, DependentsAt;
  }

  lemma {:induction false} ListMoreWithout(older: seq<int>, olderLater: seq<int>, n: int, kept: bool, keptLater: bool,
                                           id: int)
    requires olderLater == Without(older, id) && (keptLater <==> kept && n != id)
    ensures Without(if kept then [n] + older else older, id) == if keptLater then [n] + olderLater else olderLater
  {
    RowMoreWithout(older, n, kept, keptLater, id);
  }

  lemma {:induction false} OneMoreWithout(n: int, ids: seq<int>, id: int)
    ensures Without([n] + ids, id) == if n == id then Without(ids, id) else [n] + Without(ids, id)
  {
    assert ([n] + ids)[1..] == ids;
  }

  /** What moves up into a listing cut at the limit when one of its edges goes. */
  function MovesUp(edges: Edges, id: int, node: string, at: int): seq<int> {
    var all := Touching(edges, node, at);
    if |all| > NEIGHBOR_LIMIT && id in all[..NEIGHBOR_LIMIT] then [all[NEIGHBOR_LIMIT]] else []
  }

  lemma {:induction false} RemoveOne(ids: seq<int>, id: int)
    requires id in ids && Descending(ids)
    ensures |Without(ids, id)| == |ids| - 1
  {
    assert ids == [ids[0]] + ids[1..];
    if ids[0] == id {
      assert id !in ids[1..];
      hide Descending;
      WithoutAbsent(ids[1..], id);
    } else {
      assert Descending(ids[1..]);
      hide Descending;
      RemoveOne(ids[1..], id);
    }
  }

  predicate Descending(ids: seq<int>) {
    forall i, j :: 0 <= i < j < |ids| ==> ids[i] > ids[j]
  }

  lemma {:induction false} DescendingMore(id: int, ids: seq<int>)
    requires Descending(ids) && forall k <- ids :: k < id
    ensures Descending([id] + ids)
  {
    assert forall k :: 0 <= k < |ids| ==> ids[k] in ids;
  }

  lemma {:induction false} TouchingDescends(edges: Edges, node: string, at: int)
    ensures Descending(Touching(edges, node, at))
  {
    if edges != [] {
      var init := edges[..|edges| - 1];
      TouchingDescends(init, node, at);
      assert forall k <- Touching(init, node, at) :: Listable(init, k, node, at);
      hide Descending;
      DescendingMore(|edges|, Touching(init, node, at));
    }
  }

  /** The newest 500 after an edge goes: without it, and with the 501st moved up if it was listed. */
  lemma {:induction false} ListingAfterClose(edges: Edges, id: int, heir: int, now: int, node: string, at: int)
    requires Open(edges, id)
    ensures Neighbors(Closed(edges, id, Some(heir), now), node, [], at)
      == Without(Neighbors(edges, node, [], at), id) + MovesUp(edges, id, node, at)
  {
    var all := Touching(edges, node, at);
    TouchingAfterClose(edges, id, heir, now, node, at);
    TouchingDescends(edges, node, at);
    hide Touching, Closed, Without;
    if |all| > NEIGHBOR_LIMIT {
      CutWithout(all, id, NEIGHBOR_LIMIT);
    } else {
      ShorterWithout(all, id);
    }
  }

  lemma {:induction false} ShorterWithout(ids: seq<int>, id: int)
    ensures |Without(ids, id)| <= |ids|
  {
    if ids != [] {
      ShorterWithout(ids[1..], id);
    }
  }

  lemma {:induction false} CutWithout(ids: seq<int>, id: int, limit: nat)
    requires |ids| > limit && Descending(ids)
    ensures Newest(Without(ids, id), limit)
      == Without(ids[..limit], id) + (if id in ids[..limit] then [ids[limit]] else [])
  {
    var kept, cut := ids[..limit], ids[limit..];
    assert ids == kept + cut && Descending(kept);
    WithoutJoin(kept, cut, id);
    if id in kept {
      var i :| 0 <= i < limit && kept[i] == id;
      assert ids[i] == id;
      assert id !in cut;
      WithoutAbsent(cut, id);
      hide Without, Descending;
      RemoveOne(kept, id);
    } else {
      WithoutAbsent(kept, id);
      hide Without, Descending;
    }
  }

  /** A superseding close takes its own edge out of every read of every moment, past ones included, and
      nothing else; only where a listing was cut at 500 does the 501st move up in its place. */
  lemma {:induction false} SupersedingCloseRemovesItsEdge(edges: Edges, id: int, heir: int, now: int, node: string,
                                                          edgeTypes: seq<string>, at: int)
    requires Open(edges, id)
    ensures var later := Closed(edges, id, Some(heir), now);
      && Neighbors(later, node, edgeTypes, at)
         == Without(Neighbors(edges, node, edgeTypes, at), id)
            + Filtered(edges, MovesUp(edges, id, node, at), edgeTypes)
      && DependentsAt(later, node, at) == Without(DependentsAt(edges, node, at), id)
  {
    var later := Closed(edges, id, Some(heir), now);
    var listed, up := Neighbors(edges, node, [], at), MovesUp(edges, id, node, at);
    ListingAfterClose(edges, id, heir, now, node, at);
    DependentsAfterClose(edges, id, heir, now, node, at);
    assert Neighbors(later, node, edgeTypes, at) == Filtered(later, Neighbors(later, node, [], at), edgeTypes);
    assert Neighbors(edges, node, edgeTypes, at) == Filtered(edges, listed, edgeTypes);
    ClosedFiltersAlike(edges, id, heir, now, Without(listed, id) + up, edgeTypes);
    FilteredJoin(edges, Without(listed, id), up, edgeTypes);
    OfTypesWithout(edges, listed, id, edgeTypes);
    assert Filtered(edges, Without(listed, id), edgeTypes) == Without(Filtered(edges, listed, edgeTypes), id);
    hide *;
  }

  /** So a read of neighbors, at whatever moment, changes if and only if the edge was then listed for the
      node, and it or the edge that moves up is of a wanted type. */
  lemma {:induction false} PastReadChangesExactly(edges: Edges, id: int, heir: int, now: int, node: string,
                                                  edgeTypes: seq<string>, at: int)
    requires Open(edges, id)
    ensures Neighbors(Closed(edges, id, Some(heir), now), node, edgeTypes, at) != Neighbors(edges, node, edgeTypes, at)
      <==> id in Neighbors(edges, node, [], at)
           && (Wanted(edges, id, edgeTypes)
               || exists up <- MovesUp(edges, id, node, at) :: Wanted(edges, up, edgeTypes))
  {
    var listed, up := Neighbors(edges, node, [], at), MovesUp(edges, id, node, at);
    var before := Neighbors(edges, node, edgeTypes, at);
    SupersedingCloseRemovesItsEdge(edges, id, heir, now, node, edgeTypes, at);
    assert before == Filtered(edges, listed, edgeTypes);
    FilteredMembers(edges, listed, edgeTypes);
    FilteredMembers(edges, up, edgeTypes);
    assert up != [] ==> id in listed;
    hide *;
    var after := Without(before, id) + Filtered(edges, up, edgeTypes);
    if id in before {
      NotMovedUp(edges, id, node, at);
      WithoutMembers(before, id);
      assert id !in after;
    } else {
      WithoutAbsent(before, id);
      assert after == before <==> Filtered(edges, up, edgeTypes) == [];
    }
    EmptyFilter(edges, up, edgeTypes);
  }

  lemma {:induction false} WithoutAbsent(ids: seq<int>, id: int)
    requires id !in ids
    ensures Without(ids, id) == ids
  {
    if ids != [] {
      assert ids == [ids[0]] + ids[1..];
      WithoutAbsent(ids[1..], id);
    }
  }

  lemma {:induction false} EmptyFilter(edges: Edges, ids: seq<int>, edgeTypes: seq<string>)
    ensures Filtered(edges, ids, edgeTypes) == [] <==> forall up <- ids :: !Wanted(edges, up, edgeTypes)
  {
    if ids != [] {
      assert ids == [ids[0]] + ids[1..];
      EmptyFilter(edges, ids[1..], edgeTypes);
      assert ids[0] in ids;
    }
  }

  lemma {:induction false} NotMovedUp(edges: Edges, id: int, node: string, at: int)
    ensures id !in MovesUp(edges, id, node, at)
  {
    var all := Touching(edges, node, at);
    TouchingDescends(edges, node, at);
    hide Touching;
    if |all| > NEIGHBOR_LIMIT && id in all[..NEIGHBOR_LIMIT] {
      var i :| 0 <= i < NEIGHBOR_LIMIT && all[..NEIGHBOR_LIMIT][i] == id;
      assert all[i] == id && all[i] > all[NEIGHBOR_LIMIT];
    }
  }

  // ---- and the neighborhoods with it ----

  /** Joined by some other edge valid at the moment. */
  ghost predicate LinkedElse(edges: Edges, id: int, at: int, u: string, v: string) {
    exists other :: other != id && LinkedBy(edges, other, at, u, v)
  }

  ghost function LinksElse(edges: Edges, id: int, at: int): Steps {
    (u, v) => LinkedElse(edges, id, at, u, v)
  }

  lemma {:induction false} CompleteAfterClose(edges: Edges, id: int, heir: int, now: int, at: int)
    requires Open(edges, id) && ListingsComplete(edges, at)
    ensures ListingsComplete(Closed(edges, id, Some(heir), now), at)
  {
    forall node ensures |Touching(Closed(edges, id, Some(heir), now), node, at)| <= NEIGHBOR_LIMIT {
      TouchingAfterClose(edges, id, heir, now, node, at);
      ShorterWithout(Touching(edges, node, at), id);
    }
  }

  lemma {:induction false} LinkedAfterClose(edges: Edges, id: int, heir: int, now: int, at: int, u: string, v: string)
    requires Open(edges, id)
    ensures Linked(Closed(edges, id, Some(heir), now), at, u, v) <==> LinkedElse(edges, id, at, u, v)
  {
    var later := Closed(edges, id, Some(heir), now);
    forall other ensures LinkedBy(later, other, at, u, v) <==> other != id && LinkedBy(edges, other, at, u, v) {
    }
  }

  /** With complete listings, the neighborhood after a superseding close, of whatever moment, is what the
      remaining edges reach. */
  lemma {:induction false} NeighborhoodAfterClose(edges: Edges, id: int, heir: int, now: int, at: int, node: string,
                                                  v: string, k: nat)
    requires Open(edges, id) && ListingsComplete(edges, at)
    ensures Within(Shown(Closed(edges, id, Some(heir), now), at), node, v, k)
      <==> Within(LinksElse(edges, id, at), node, v, k)
  {
    var later := Closed(edges, id, Some(heir), now);
    CompleteAfterClose(edges, id, heir, now, at);
    forall a, b ensures Links(later, at)(a, b) <==> LinksElse(edges, id, at)(a, b) {
      LinkedAfterClose(edges, id, heir, now, at, a, b);
    }
    hide Shown, Links, LinksElse, Within, ListingsComplete, Closed;
    NeighborhoodIsUndirectedDistance(later, at, node, v, k);
    SameReach(Links(later, at), LinksElse(edges, id, at), node, v, k);
  }

  // ---- What a listing holds ----

  function NewerListable(edges: Edges, id: int, node: string, at: int): set<int> {
    set other | id < other <= |edges| && Listable(edges, other, node, at)
  }

  function Members(ids: seq<int>): set<int> {
    set x | x in ids
  }

  lemma {:induction false} CountMembers(ids: seq<int>)
    requires Descending(ids)
    ensures |Members(ids)| == |ids|
  {
    if ids != [] {
      var first, rest := ids[0], ids[1..];
      assert ids == [first] + rest && first !in rest && Descending(rest);
      hide Descending;
      assert Members([first] + rest) == Members(rest) + {first} && first !in Members(rest);
      CountMembers(rest);
      hide Members;
    }
  }

  lemma {:induction false} RankIsPosition(edges: Edges, node: string, at: int, p: nat)
    requires p < |Touching(edges, node, at)|
    ensures |NewerListable(edges, Touching(edges, node, at)[p], node, at)| == p
  {
    var ids := Touching(edges, node, at);
    TouchingDescends(edges, node, at);
    CountMembers(ids[..p]);
    forall other | other in NewerListable(edges, ids[p], node, at) ensures other in ids[..p] {
      assert other in ids;
      var i :| 0 <= i < |ids| && ids[i] == other;
      assert ids[..p][i] == other;
    }
    forall other | other in ids[..p] ensures other in NewerListable(edges, ids[p], node, at) {
      assert other in ids && Listable(edges, other, node, at);
    }
    assert NewerListable(edges, ids[p], node, at) == Members(ids[..p]);
  }

  /** Exactly what a read of neighbors lists: the edges at the node valid at the moment, of a wanted type,
      that have fewer than 500 newer ones, of whatever type, beside them. */
  lemma {:induction false} NeighborsExactly(edges: Edges, node: string, edgeTypes: seq<string>, at: int, id: int)
    ensures id in Neighbors(edges, node, edgeTypes, at)
      <==> Listable(edges, id, node, at) && Wanted(edges, id, edgeTypes)
           && |NewerListable(edges, id, node, at)| < NEIGHBOR_LIMIT
  {
    var ids, listed := Touching(edges, node, at), Neighbors(edges, node, [], at);
    assert Neighbors(edges, node, edgeTypes, at) == Filtered(edges, listed, edgeTypes);
    FilteredMembers(edges, listed, edgeTypes);
    assert forall x <- listed :: x in ids;
    assert forall q :: 0 <= q < |listed| ==> listed[q] == ids[q];
    TouchingDescends(edges, node, at);
    hide Filtered, Wanted, OfTypes, NewerListable, Touching;
    if id in ids {
      var p :| 0 <= p < |ids| && ids[p] == id;
      RankIsPosition(edges, node, at, p);
      assert id in listed <==> p < NEIGHBOR_LIMIT by {
        assert p < NEIGHBOR_LIMIT ==> listed[p] == id;
      }
    }
  }

  // ---- The life of an edge ----

  /** An edge just connected is listed at both its ends, where its type is asked for, at every moment from
      now until its end, if it has one, and at no other node or moment; and as a dependency at its target
      alone, if it is one. */
  lemma {:induction false} ConnectedIsListed(edges: Edges, edgeType: string, source: string, target: string,
                                             validUntil: Option<int>, now: int, node: string,
                                             edgeTypes: seq<string>, at: int)
    ensures var later, id := Connected(edges, edgeType, source, target, validUntil, now), |edges| + 1;
      && (id in Neighbors(later, node, edgeTypes, at)
          <==> (node == source || node == target) && (edgeTypes == [] || edgeType in edgeTypes) && now <= at
               && (validUntil.Some? ==> at < validUntil.value))
      && (id in DependentsAt(later, node, at)
          <==> node == target && edgeType in ["depends_on", "consumes"] && now <= at
               && (validUntil.Some? ==> at < validUntil.value))
  {
    var later, id := Connected(edges, edgeType, source, target, validUntil, now), |edges| + 1;
    NeighborsExactly(later, node, edgeTypes, at, id);
    assert NewerListable(later, id, node, at) == {};
    hide Neighbors, NewerListable, DependentsAt;
  }

  /** Closing it plainly ends it now: from then on it is listed nowhere, and before as it was. */
  lemma {:induction false} ClosedIsGone(edges: Edges, id: int, now: int, node: string, at: int)
    requires Open(edges, id) && edges[id - 1].supersededBy.None?
    ensures var later := Closed(edges, id, None, now);
      && (at >= now ==> id !in Neighbors(later, node, [], at) && id !in DependentsAt(later, node, at))
      && (at < now ==> (id in DependentsAt(later, node, at) <==> id in DependentsAt(edges, node, at)))
  {
    var later := Closed(edges, id, None, now);
    NeighborsExactly(later, node, [], at, id);
    assert later[id - 1] == edges[id - 1].(validUntil := Some(now), supersededBy := None);
    assert ValidAt(later[id - 1], at) <==> edges[id - 1].validFrom <= at < now;
    assert at < now ==> (ValidAt(edges[id - 1], at) <==> edges[id - 1].validFrom <= at);
    hide Neighbors, NewerListable, Closed, ValidAt;
  }
}
