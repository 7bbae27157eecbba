/** The authoring order of a program's modules: rounds of everything whose dependencies are
    already written. */
module Topology {
  import opened Occurrences
  import opened Sorting
  import Text

  datatype ModuleSpec = ModuleSpec(path: string, depends: seq<string>, check: Option<string>)

  function Paths(ms: seq<ModuleSpec>): set<string> {
    set m | m in ms :: m.path
  }

  predicate DistinctPaths(ms: seq<ModuleSpec>) {
    forall i, j :: 0 <= i < j < |ms| ==> ms[i].path != ms[j].path
  }

  function PathIndex(ms: seq<ModuleSpec>, path: string): (k: nat)
    ensures k <= |ms| && (k < |ms| ==> ms[k].path == path)
    ensures forall i :: 0 <= i < k ==> ms[i].path != path
  {
    if ms == [] || ms[0].path == path then 0 else
    var k := PathIndex(ms[1..], path);
    assert forall i :: 0 < i < |ms| ==> ms[1..][i - 1] == ms[i];
    k + 1
  }

  /** Keyed by path: a repeated path keeps its first place and takes its last module. */
  function ByPath(ms: seq<ModuleSpec>): (r: seq<ModuleSpec>)
    ensures DistinctPaths(r)
    ensures DistinctPaths(ms) ==> r == ms
  {
    if ms == [] then [] else
    var init, last := ByPath(ms[..|ms| - 1]), ms[|ms| - 1];
    var k := PathIndex(init, last.path);
    assert DistinctPaths(ms) ==> init == ms[..|ms| - 1] && k == |init| && ms == init + [last];
    if k < |init| then init[k := last] else init + [last]
  }

  predicate IsReady(m: ModuleSpec, done: set<string>) {
    forall d <- m.depends :: d in done
  }

  function Ready(ms: seq<ModuleSpec>, done: set<string>): (r: seq<ModuleSpec>)
    ensures forall m :: m in r <==> m in ms && IsReady(m, done)
  {
    if ms == [] then []
    else
      assert ms == [ms[0]] + ms[1..];
      (if IsReady(ms[0], done) then [ms[0]] else []) + Ready(ms[1..], done)
  }

  function Waiting(ms: seq<ModuleSpec>, done: set<string>): (r: seq<ModuleSpec>)
    ensures forall m :: m in r <==> m in ms && !IsReady(m, done)
  {
    if ms == [] then []
    else
      assert ms == [ms[0]] + ms[1..];
      (if IsReady(ms[0], done) then [] else [ms[0]]) + Waiting(ms[1..], done)
  }

  predicate PathAtMost(a: ModuleSpec, b: ModuleSpec) {
    Text.AtMost(a.path, b.path)
  }

  lemma {:induction false} RoundSplits(ms: seq<ModuleSpec>, done: set<string>)
    ensures multiset(Ready(ms, done)) + multiset(Waiting(ms, done)) == multiset(ms)
    ensures |Ready(ms, done)| + |Waiting(ms, done)| == |ms|
  {
    if ms != [] {
      RoundSplits(ms[1..], done);
      assert ms == [ms[0]] + ms[1..];
    }
  }

  /** The order: round after round; a round in which nothing is ready appends the rest by path. */
  function Rounds(remaining: seq<ModuleSpec>, done: set<string>): seq<ModuleSpec>
    decreases |remaining|
  {
    if remaining == [] then []
    else
      var ready := Ready(remaining, done);
      RoundSplits(remaining, done);
      if ready == [] then Sort(remaining, PathAtMost)
      else ready + Rounds(Waiting(remaining, done), done + Paths(ready))
  }

  function Order(ms: seq<ModuleSpec>): seq<ModuleSpec> {
    Rounds(ByPath(ms), {})
  }

  function Without(ms: seq<ModuleSpec>, paths: set<string>): (r: seq<ModuleSpec>)
    ensures forall m :: m in r <==> m in ms && m.path !in paths
  {
    if ms == [] then []
    else
      assert ms == [ms[0]] + ms[1..];
      (if ms[0].path in paths then [] else [ms[0]]) + Without(ms[1..], paths)
  }

  lemma {:induction false} WithoutFirst(m: ModuleSpec, rest: seq<ModuleSpec>, paths: set<string>)
    ensures Without([m] + rest, paths) == (if m.path in paths then [] else [m]) + Without(rest, paths)
  {
    assert ([m] + rest)[1..] == rest;
  }

  lemma {:induction false} WithoutNone(ms: seq<ModuleSpec>)
    ensures Without(ms, {}) == ms
  {
    if ms != [] {
      WithoutNone(ms[1..]);
    }
  }

  lemma {:induction false} WithoutOneMore(ms: seq<ModuleSpec>, paths: set<string>, path: string)
    ensures Without(Without(ms, paths), {path}) == Without(ms, paths + {path})
  {
    if ms != [] {
      var m, rest := ms[0], ms[1..];
      assert ms == [m] + rest;
      WithoutOneMore(rest, paths, path);
      WithoutFirst(m, rest, paths);
      WithoutFirst(m, rest, paths + {path});
      WithoutFirst(m, Without(rest, paths), {path});
      hide Without;
      assert [] + Without(rest, paths) == Without(rest, paths);
    }
  }

  lemma {:induction false} WithoutIsWaiting(ms: seq<ModuleSpec>, paths: set<string>, done: set<string>)
    requires forall m <- ms :: m.path in paths <==> IsReady(m, done)
    ensures Without(ms, paths) == Waiting(ms, done)
  {
    if ms != [] {
      assert forall m :: m in ms[1..] ==> m in ms;
      WithoutIsWaiting(ms[1..], paths, done);
    }
  }

  lemma {:induction false} WithoutReady(ms: seq<ModuleSpec>, done: set<string>)
    requires DistinctPaths(ms)
    ensures Without(ms, Paths(Ready(ms, done))) == Waiting(ms, done)
  {
    var ready := Ready(ms, done);
    forall m | m in ms ensures m.path in Paths(ready) <==> IsReady(m, done) {
      if m.path in Paths(ready) {
        var other :| other in ready && other.path == m.path;
        assert other == m;
      }
    }
    WithoutIsWaiting(ms, Paths(ready), done);
  }

  lemma {:induction false} WithoutKeepsDistinct(ms: seq<ModuleSpec>, paths: set<string>)
    requires DistinctPaths(ms)
    ensures DistinctPaths(Without(ms, paths))
  {
    if ms != [] {
      WithoutKeepsDistinct(ms[1..], paths);
      var rest := Without(ms[1..], paths);
      forall k | 0 <= k < |rest| ensures rest[k].path != ms[0].path {
        assert rest[k] in rest;
        var i :| 0 <= i < |ms[1..]| && ms[1..][i] == rest[k];
      }
    }
  }

  /** One round: the ready modules move, one by one, from what remains to the order. */
  method PlaceReady(ready: seq<ModuleSpec>, remaining: seq<ModuleSpec>, done: set<string>, order: seq<ModuleSpec>)
    returns (remaining': seq<ModuleSpec>, done': set<string>, order': seq<ModuleSpec>)
    ensures order' == order + ready && done' == done + Paths(ready) && remaining' == Without(remaining, Paths(ready))
  {
    remaining', done', order' := remaining, done, order;
    assert Paths(ready[..0]) == {};
    WithoutNone(remaining);
    for n := 0 to |ready|
      invariant order' == order + ready[..n]
      invariant done' == done + Paths(ready[..n])
      invariant remaining' == Without(remaining, Paths(ready[..n]))
    {
      var m := ready[n];
      assert ready[..n + 1] == ready[..n] + [m];
      assert Paths(ready[..n + 1]) == Paths(ready[..n]) + {m.path};
      WithoutOneMore(remaining, Paths(ready[..n]), m.path);
      order' := order' + [m];
      remaining' := Without(remaining', {m.path});
      done' := done' + {m.path};
    }
    assert ready[..|ready|] == ready;
  }

  /** The builder's loop: it terminates on every input, cyclic or not, and loses no module. */
  method Topological(ms: seq<ModuleSpec>) returns (order: seq<ModuleSpec>)
    ensures order == Order(ms)
    ensures multiset(order) == multiset(ByPath(ms))
  {
    var remaining, done: set<string> := ByPath(ms), {};
    order := [];
    while remaining != []
      invariant order + Rounds(remaining, done) == Order(ms)
      invariant DistinctPaths(remaining)
      decreases |remaining|
    {
      var ready := Ready(remaining, done);
      if ready == [] {
        order := order + Sort(remaining, PathAtMost);
        break;
      }
      RoundSplits(remaining, done);
      WithoutReady(remaining, done);
      WithoutKeepsDistinct(remaining, Paths(ready));
      ghost var next := Rounds(Waiting(remaining, done), done + Paths(ready));
      assert order + ready + next == order + (ready + next);
      remaining, done, order := PlaceReady(ready, remaining, done, order);
    }
    RoundsPermute(ByPath(ms), {});
  }

  /** Every module comes out exactly once, whatever the dependencies. */
  lemma {:induction false} RoundsPermute(remaining: seq<ModuleSpec>, done: set<string>)
    ensures multiset(Rounds(remaining, done)) == multiset(remaining)
    decreases |remaining|
  {
    if remaining != [] {
      RoundSplits(remaining, done);
      if Ready(remaining, done) != [] {
        RoundsPermute(Waiting(remaining, done), done + Paths(Ready(remaining, done)));
      }
    }
  }

  // ---- Specs with closed, acyclic dependencies ----

  /** A rank under which every dependency is declared and lies strictly lower. */
  ghost predicate Ranked(ms: seq<ModuleSpec>, rank: map<string, nat>) {
    && (forall m <- ms :: m.path in rank)
    && forall m <- ms :: forall d <- m.depends :: d in Paths(ms) && d in rank && rank[d] < rank[m.path]
  }

  function ModuleAt(ms: seq<ModuleSpec>, path: string): (m: ModuleSpec)
    requires path in Paths(ms)
    ensures m in ms && m.path == path
  {
    var k := PathIndex(ms, path);
    assert k < |ms| by {
      var m :| m in ms && m.path == path;
      var i :| 0 <= i < |ms| && ms[i] == m;
    }
    ms[k]
  }

  /** The longest chain of dependencies below a module. */
  ghost function Depth(ms: seq<ModuleSpec>, rank: map<string, nat>, path: string): nat
    requires Ranked(ms, rank) && path in Paths(ms)
    decreases rank[path], 1, 0
  {
    var m := ModuleAt(ms, path);
    Above(ms, rank, m.depends, rank[path])
  }

  /** One more than the greatest depth among some dependencies; zero for none. */
  ghost function Above(ms: seq<ModuleSpec>, rank: map<string, nat>, deps: seq<string>, below: nat): (n: nat)
    requires Ranked(ms, rank) && forall d <- deps :: d in Paths(ms) && d in rank && rank[d] < below
    ensures deps == [] ==> n == 0
    ensures forall d <- deps :: Depth(ms, rank, d) < n
    ensures deps != [] ==> exists d :: d in deps && n == Depth(ms, rank, d) + 1
    decreases below, 0, |deps|
  {
    if deps == [] then 0
    else
      assert deps == [deps[0]] + deps[1..] && deps[0] in deps;
      assert forall d :: d in deps[1..] ==> d in deps;
      var first, rest := Depth(ms, rank, deps[0]) + 1, Above(ms, rank, deps[1..], below);
      if first >= rest then first else rest
  }

  predicate Ascending(ms: seq<ModuleSpec>, s: seq<ModuleSpec>) {
    forall i, j :: 0 <= i < j < |s| ==> PathIndex(ms, s[i].path) < PathIndex(ms, s[j].path)
  }

  lemma {:induction false} DeclaredAscends(ms: seq<ModuleSpec>)
    requires DistinctPaths(ms)
    ensures Ascending(ms, ms)
  {
    forall i | 0 <= i < |ms| ensures PathIndex(ms, ms[i].path) == i {
    }
  }

  lemma {:induction false} AscendingFirst(ms: seq<ModuleSpec>, m: ModuleSpec, rest: seq<ModuleSpec>)
    requires Ascending(ms, rest) && forall x <- rest :: PathIndex(ms, m.path) < PathIndex(ms, x.path)
    ensures Ascending(ms, [m] + rest)
  {
    hide PathIndex;
    assert forall k :: 0 <= k < |rest| ==> rest[k] in rest;
  }

  lemma {:induction false} RoundAscends(ms: seq<ModuleSpec>, s: seq<ModuleSpec>, done: set<string>)
    requires Ascending(ms, s)
    ensures Ascending(ms, Ready(s, done)) && Ascending(ms, Waiting(s, done))
  {
    hide PathIndex, IsReady;
    if s != [] {
      var rest := s[1..];
      RoundAscends(ms, rest, done);
      forall m | m in rest ensures PathIndex(ms, s[0].path) < PathIndex(ms, m.path) {
        var i :| 0 <= i < |rest| && rest[i] == m;
        assert s[i + 1] == m;
      }
      AscendingFirst(ms, s[0], Ready(rest, done));
      AscendingFirst(ms, s[0], Waiting(rest, done));
      assert Ready(s, done) == if IsReady(s[0], done) then [s[0]] + Ready(rest, done) else Ready(rest, done);
      assert Waiting(s, done) == if IsReady(s[0], done) then Waiting(rest, done) else [s[0]] + Waiting(rest, done);
      hide Ascending;
    }
  }

  /** Every depth below an attained one is attained. */
  lemma {:induction false} DepthsAreAttained(ms: seq<ModuleSpec>, rank: map<string, nat>, path: string, k: nat)
    returns (m: ModuleSpec)
    requires Ranked(ms, rank) && DistinctPaths(ms) && path in Paths(ms) && k <= Depth(ms, rank, path)
    ensures m in ms && Depth(ms, rank, m.path) == k
    decreases Depth(ms, rank, path)
  {
    m := ModuleAt(ms, path);
    if k < Depth(ms, rank, path) {
      var d :| d in m.depends && Depth(ms, rank, path) == Depth(ms, rank, d) + 1;
      m := DepthsAreAttained(ms, rank, d, k);
    }
  }

  /** A module is ready once everything shallower than `k` is written exactly if its depth is at
      most `k`. */
  lemma {:induction false} ReadyIsDepth(ms: seq<ModuleSpec>, rank: map<string, nat>, m: ModuleSpec,
                                        done: set<string>, k: nat)
    requires Ranked(ms, rank) && DistinctPaths(ms) && m in ms
    requires forall p :: p in done <==> p in Paths(ms) && Depth(ms, rank, p) < k
    ensures IsReady(m, done) <==> Depth(ms, rank, m.path) <= k
  {
    assert ModuleAt(ms, m.path) == m;
    assert m.path in Paths(ms);
  }

  ghost predicate Precedes(ms: seq<ModuleSpec>, rank: map<string, nat>, a: ModuleSpec, b: ModuleSpec)
    requires Ranked(ms, rank) && a.path in Paths(ms) && b.path in Paths(ms)
  {
    var x, y := Depth(ms, rank, a.path), Depth(ms, rank, b.path);
    x < y || (x == y && PathIndex(ms, a.path) < PathIndex(ms, b.path))
  }

  ghost predicate InOrder(ms: seq<ModuleSpec>, rank: map<string, nat>, s: seq<ModuleSpec>)
    requires Ranked(ms, rank)
  {
    && (forall m <- s :: m in ms)
    && forall i, j :: 0 <= i < j < |s| ==>
         s[i].path in Paths(ms) && s[j].path in Paths(ms) && Precedes(ms, rank, s[i], s[j])
  }

  lemma {:induction false} LevelByLevel(ms: seq<ModuleSpec>, rank: map<string, nat>, k: nat,
                                        remaining: seq<ModuleSpec>, done: set<string>)
    requires Ranked(ms, rank) && DistinctPaths(ms) && Ascending(ms, remaining)
    requires forall m :: m in remaining <==> m in ms && m.path in Paths(ms) && Depth(ms, rank, m.path) >= k
    requires forall p :: p in done <==> p in Paths(ms) && Depth(ms, rank, p) < k
    ensures InOrder(ms, rank, Rounds(remaining, done))
    ensures forall m <- Rounds(remaining, done) :: m.path in Paths(ms) && Depth(ms, rank, m.path) >= k
    decreases |remaining|
  {
    if remaining != [] {
      var ready, waiting := Ready(remaining, done), Waiting(remaining, done);
      forall m | m in remaining ensures IsReady(m, done) <==> Depth(ms, rank, m.path) == k {
        ReadyIsDepth(ms, rank, m, done, k);
      }
      var m := DepthsAreAttained(ms, rank, remaining[0].path, k);
      assert m in ready;
      RoundSplits(remaining, done);
      RoundAscends(ms, remaining, done);
      var done' := done + Paths(ready);
      forall p ensures p in done' <==> p in Paths(ms) && Depth(ms, rank, p) < k + 1 {
        if p in Paths(ms) && Depth(ms, rank, p) == k {
          assert ModuleAt(ms, p) in ready;
        }
      }
      LevelByLevel(ms, rank, k + 1, waiting, done');
      LevelThenDeeper(ms, rank, k, ready, Rounds(waiting, done'));
    }
  }

  lemma {:induction false} LevelThenDeeper(ms: seq<ModuleSpec>, rank: map<string, nat>, k: nat,
                                           level: seq<ModuleSpec>, deeper: seq<ModuleSpec>)
    requires Ranked(ms, rank) && Ascending(ms, level) && InOrder(ms, rank, deeper)
    requires forall m <- level :: m in ms && m.path in Paths(ms) && Depth(ms, rank, m.path) == k
    requires forall m <- deeper :: m.path in Paths(ms) && Depth(ms, rank, m.path) > k
    ensures InOrder(ms, rank, level + deeper)
  {
    var all := level + deeper;
    forall i, j | 0 <= i < j < |all|
      ensures all[i].path in Paths(ms) && all[j].path in Paths(ms) && Precedes(ms, rank, all[i], all[j])
    {
      assert i < |level| ==> all[i] in level;
      assert j < |level| ==> all[j] in level;
      assert j >= |level| ==> all[j] in deeper;
      assert i >= |level| ==> all[i] == deeper[i - |level|] && all[j] == deeper[j - |level|];
    }
  }

  /** On a closed, acyclic spec the order is exactly by longest dependency chain, then by place of
      declaration. */
  lemma {:induction false} OrderIsByDepthThenDeclaration(ms: seq<ModuleSpec>, rank: map<string, nat>)
    requires DistinctPaths(ms) && Ranked(ms, rank)
    ensures InOrder(ms, rank, Order(ms)) && multiset(Order(ms)) == multiset(ms)
  {
    DeclaredAscends(ms);
    RoundsPermute(ms, {});
    assert forall m :: m in ms ==> m.path in Paths(ms);
    LevelByLevel(ms, rank, 0, ms, {});
  }

  /** So every dependency is written before the module that imports it. */
  lemma {:induction false} DependenciesComeFirst(ms: seq<ModuleSpec>, rank: map<string, nat>, j: nat, d: string)
    returns (i: nat)
    requires DistinctPaths(ms) && Ranked(ms, rank) && j < |Order(ms)| && d in Order(ms)[j].depends
    ensures i < j && Order(ms)[i].path == d
  {
    hide Order, InOrder, Depth, DistinctPaths;
    OrderIsByDepthThenDeclaration(ms, rank);
    var order := Order(ms);
    SameElements(ms, order);
    var m := order[j];
    assert m in order && m in ms;
    DependencyIsShallower(ms, rank, m, d);
    hide Ranked, Paths;
    assert ModuleAt(ms, d) in order;
    i :| 0 <= i < |order| && order[i] == ModuleAt(ms, d);
    ShallowerIsEarlier(ms, rank, order, i, j);
  }

  lemma {:induction false} DependencyIsShallower(ms: seq<ModuleSpec>, rank: map<string, nat>, m: ModuleSpec, d: string)
    requires DistinctPaths(ms) && Ranked(ms, rank) && m in ms && d in m.depends
    ensures d in Paths(ms) && m.path in Paths(ms) && Depth(ms, rank, d) < Depth(ms, rank, m.path)
  {
    assert m.path in Paths(ms);
    assert ModuleAt(ms, m.path) == m;
  }

  lemma {:induction false} ShallowerIsEarlier(ms: seq<ModuleSpec>, rank: map<string, nat>, s: seq<ModuleSpec>,
                                              i: nat, j: nat)
    requires Ranked(ms, rank) && InOrder(ms, rank, s) && i < |s| && j < |s|
    requires s[i].path in Paths(ms) && s[j].path in Paths(ms)
    requires Depth(ms, rank, s[i].path) < Depth(ms, rank, s[j].path)
    ensures i < j
  {
    assert !Precedes(ms, rank, s[j], s[i]);
    hide Ranked, Depth;
  }

  // ---- The parser's cycle check ----

  /** The parser resolves round by round and refuses when a round resolves nothing. */
  predicate Resolves(remaining: seq<ModuleSpec>, resolved: set<string>)
    decreases |remaining|
  {
    if remaining == [] then true
    else
      var ready := Ready(remaining, resolved);
      RoundSplits(remaining, resolved);
      ready != [] && Resolves(Waiting(remaining, resolved), resolved + Paths(ready))
  }

  predicate Closed(ms: seq<ModuleSpec>) {
    forall m <- ms :: forall d <- m.depends :: d in Paths(ms)
  }

  /** The round each module resolves in. */
  ghost function RoundRanks(remaining: seq<ModuleSpec>, resolved: set<string>, k: nat): map<string, nat>
    requires Resolves(remaining, resolved)
    decreases |remaining|
  {
    if remaining == [] then map[]
    else
      var ready := Ready(remaining, resolved);
      RoundSplits(remaining, resolved);
      RoundRanks(Waiting(remaining, resolved), resolved + Paths(ready), k + 1) + AllAt(Paths(ready), k)
  }

  /** Ranks from `k` up, for exactly the remaining modules, with every unresolved dependency lower. */
  ghost predicate Layered(remaining: seq<ModuleSpec>, resolved: set<string>, rank: map<string, nat>, k: nat) {
    && rank.Keys == Paths(remaining)
    && (forall p <- rank :: rank[p] >= k)
    && forall m <- remaining :: LiesAbove(m, resolved, rank)
  }

  ghost predicate LiesAbove(m: ModuleSpec, resolved: set<string>, rank: map<string, nat>) {
    && m.path in rank
    && forall d <- m.depends :: d in resolved || (d in rank && rank[d] < rank[m.path])
  }

  lemma {:induction false} RoundRanksRank(remaining: seq<ModuleSpec>, resolved: set<string>, k: nat)
    requires Resolves(remaining, resolved) && DistinctPaths(remaining)
    ensures Layered(remaining, resolved, RoundRanks(remaining, resolved, k), k)
    decreases |remaining|
  {
    if remaining != [] {
      var ready, waiting := Ready(remaining, resolved), Waiting(remaining, resolved);
      RoundSplits(remaining, resolved);
      WaitingApart(remaining, resolved);
      RoundRanksRank(waiting, resolved + Paths(ready), k + 1);
      OneLayerMore(remaining, resolved, RoundRanks(waiting, resolved + Paths(ready), k + 1), k);
    }
  }

  lemma {:induction false} OneLayerMore(remaining: seq<ModuleSpec>, resolved: set<string>, later: map<string, nat>,
                                        k: nat)
    requires DistinctPaths(remaining)
    requires Layered(Waiting(remaining, resolved), resolved + Paths(Ready(remaining, resolved)), later, k + 1)
    ensures Layered(remaining, resolved, later + AllAt(Paths(Ready(remaining, resolved)), k), k)
  {
    WaitingApart(remaining, resolved);
    forall m | m in remaining
      ensures LiesAbove(m, resolved, later + AllAt(Paths(Ready(remaining, resolved)), k))
    {
      ModuleLiesAbove(remaining, resolved, later, k, m);
    }
    hide DistinctPaths, LiesAbove, Ready, Waiting, Paths;
  }

  lemma {:induction false} ModuleLiesAbove(remaining: seq<ModuleSpec>, resolved: set<string>, later: map<string, nat>,
                                           k: nat, m: ModuleSpec)
    requires DistinctPaths(remaining) && m in remaining
    requires Layered(Waiting(remaining, resolved), resolved + Paths(Ready(remaining, resolved)), later, k + 1)
    ensures LiesAbove(m, resolved, later + AllAt(Paths(Ready(remaining, resolved)), k))
  {
    var ready, waiting := Ready(remaining, resolved), Waiting(remaining, resolved);
    WaitingApart(remaining, resolved);
    hide DistinctPaths, LiesAbove, Ready, Waiting;
    if IsReady(m, resolved) {
      assert m in ready && m.path in Paths(ready);
      ReadyLiesAbove(m, resolved, later + AllAt(Paths(ready), k));
    } else {
      hide IsReady;
      assert m in waiting && m.path in Paths(waiting) && m.path !in Paths(ready);
      WaitingLiesAbove(m, resolved, Paths(ready), later, k);
    }
  }

  lemma {:induction false} ReadyLiesAbove(m: ModuleSpec, resolved: set<string>, rank: map<string, nat>)
    requires IsReady(m, resolved) && m.path in rank
    ensures LiesAbove(m, resolved, rank)
  {
  }

  lemma {:induction false} WaitingLiesAbove(m: ModuleSpec, resolved: set<string>, level: set<string>,
                                            later: map<string, nat>, k: nat)
    requires LiesAbove(m, resolved + level, later) && m.path !in level && later[m.path] > k
    ensures LiesAbove(m, resolved, later + AllAt(level, k))
  {
  }

  ghost function AllAt(paths: set<string>, k: nat): (r: map<string, nat>)
    ensures r.Keys == paths && forall p <- r :: r[p] == k
  {
    map p | p in paths :: k
  }

  lemma {:induction false} WaitingApart(remaining: seq<ModuleSpec>, resolved: set<string>)
    requires DistinctPaths(remaining)
    ensures DistinctPaths(Waiting(remaining, resolved))
    ensures Paths(remaining) == Paths(Ready(remaining, resolved)) + Paths(Waiting(remaining, resolved))
    ensures Paths(Ready(remaining, resolved)) !! Paths(Waiting(remaining, resolved))
  {
    var ready, waiting := Ready(remaining, resolved), Waiting(remaining, resolved);
    WithoutReady(remaining, resolved);
    WithoutKeepsDistinct(remaining, Paths(ready));
    forall m | m in waiting ensures m.path !in Paths(ready) {
      assert m in Without(remaining, Paths(ready));
    }
  }

  lemma {:induction false} LowestIsReady(ms: seq<ModuleSpec>, rank: map<string, nat>, remaining: seq<ModuleSpec>,
                                         resolved: set<string>, m: ModuleSpec)
    requires Ranked(ms, rank) && m in remaining && forall x <- remaining :: x in ms
    requires Paths(ms) == resolved + Paths(remaining)
    ensures Ready(remaining, resolved) != []
    decreases rank[m.path]
  {
    if IsReady(m, resolved) {
      assert m in Ready(remaining, resolved);
    } else {
      var d :| d in m.depends && d !in resolved;
      var lower :| lower in remaining && lower.path == d;
      LowestIsReady(ms, rank, remaining, resolved, lower);
    }
  }

  lemma {:induction false} RankedResolves(ms: seq<ModuleSpec>, rank: map<string, nat>, remaining: seq<ModuleSpec>,
                                          resolved: set<string>)
    requires Ranked(ms, rank) && (forall x <- remaining :: x in ms) && Paths(ms) == resolved + Paths(remaining)
    ensures Resolves(remaining, resolved)
    decreases |remaining|
  {
    if remaining != [] {
      var ready, waiting := Ready(remaining, resolved), Waiting(remaining, resolved);
      LowestIsReady(ms, rank, remaining, resolved, remaining[0]);
      RoundSplits(remaining, resolved);
      assert Paths(remaining) == Paths(ready) + Paths(waiting);
      RankedResolves(ms, rank, waiting, resolved + Paths(ready));
    }
  }

  /** The parser resolves exactly the specs whose dependencies are declared and acyclic, so the builder's
      fallback order never runs on a spec the parser accepted. */
  lemma {:induction false} ParserAcceptsAcyclic(ms: seq<ModuleSpec>)
    requires DistinctPaths(ms)
    ensures Resolves(ms, {}) <==> exists rank :: Ranked(ms, rank)
    ensures Resolves(ms, {}) ==> Closed(ms) && forall m <- ms, d <- m.depends :: exists n <- ms :: n.path == d
  {
    if Resolves(ms, {}) {
      RoundRanksRank(ms, {}, 0);
      LayeredIsRanked(ms, RoundRanks(ms, {}, 0));
      RankedIsDeclared(ms, RoundRanks(ms, {}, 0));
    }
    hide Layered, RoundRanks;
    if rank :| Ranked(ms, rank) {
      hide Resolves;
      RankedResolves(ms, rank, ms, {});
    }
  }

  lemma {:induction false} RankedIsDeclared(ms: seq<ModuleSpec>, rank: map<string, nat>)
    requires Ranked(ms, rank)
    ensures Closed(ms) && forall m <- ms, d <- m.depends :: exists n <- ms :: n.path == d
  {
    forall m, d | m in ms && d in m.depends ensures exists n <- ms :: n.path == d {
      assert d in Paths(ms);
    }
  }

  lemma {:induction false} LayeredIsRanked(ms: seq<ModuleSpec>, rank: map<string, nat>)
    requires Layered(ms, {}, rank, 0)
    ensures Ranked(ms, rank)
  {
    assert forall m <- ms :: LiesAbove(m, {}, rank);
  }
}
