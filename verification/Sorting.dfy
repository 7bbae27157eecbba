/** Stable sorting by a total preorder, as the language's own `sort` performs it. */
module Sorting {

  ghost predicate TotalPreorder<T(!new)>(leq: (T, T) -> bool) {
    && (forall x, y :: leq(x, y) || leq(y, x))
    && (forall x, y, z :: leq(x, y) && leq(y, z) ==> leq(x, z))
  }

  ghost predicate Sorted<T>(s: seq<T>, leq: (T, T) -> bool) {
    forall i, j :: 0 <= i < j < |s| ==> leq(s[i], s[j])
  }

  function Insert<T>(x: T, s: seq<T>, leq: (T, T) -> bool): (r: seq<T>)
    ensures multiset(r) == multiset(s) + multiset{x}
    ensures |r| == |s| + 1
  {
    if s == [] then [x]
    else if leq(x, s[0]) then
      assert multiset([x] + s) == multiset(s) + multiset{x};
      [x] + s
    else
      assert s == [s[0]] + s[1..];
      [s[0]] + Insert(x, s[1..], leq)
  }

  /** A stable sort: equals keep their order. */
  function Sort<T>(s: seq<T>, leq: (T, T) -> bool): (r: seq<T>)
    ensures multiset(r) == multiset(s)
    ensures |r| == |s|
  {
    if s == [] then []
    else
      assert s == [s[0]] + s[1..];
      Insert(s[0], Sort(s[1..], leq), leq)
  }

  lemma {:induction false} InsertKeepsSorted<T(!new)>(x: T, s: seq<T>, leq: (T, T) -> bool)
    requires TotalPreorder(leq) && Sorted(s, leq)
    ensures Sorted(Insert(x, s, leq), leq)
  {
    if s != [] && !leq(x, s[0]) {
      InsertKeepsSorted(x, s[1..], leq);
      var r := Insert(x, s[1..], leq);
      forall k | 0 <= k < |r| ensures leq(s[0], r[k]) {
        assert r[k] in multiset(r);
        assert r[k] == x || r[k] in s[1..];
      }
    }
  }

  lemma {:induction false} SortIsSorted<T(!new)>(s: seq<T>, leq: (T, T) -> bool)
    requires TotalPreorder(leq)
    ensures Sorted(Sort(s, leq), leq)
  {
    if s != [] {
      SortIsSorted(s[1..], leq);
      InsertKeepsSorted(s[0], Sort(s[1..], leq), leq);
    }
  }

  function Filter<T>(s: seq<T>, p: T -> bool): seq<T> {
    if s == [] then [] else Kept(s[0], p) + Filter(s[1..], p)
  }

  function Kept<T>(x: T, p: T -> bool): seq<T> {
    if p(x) then [x] else []
  }

  /** `p` picks out the elements that tie with `key`. */
  ghost predicate PicksTies<T(!new)>(p: T -> bool, key: T, leq: (T, T) -> bool) {
    forall y :: p(y) <==> leq(key, y) && leq(y, key)
  }

  lemma {:induction false} FilterFirst<T>(x: T, s: seq<T>, p: T -> bool)
    ensures Filter([x] + s, p) == Kept(x, p) + Filter(s, p)
  {
    assert ([x] + s)[1..] == s;
  }

  lemma {:induction false} TiesAreOrdered<T(!new)>(x: T, y: T, leq: (T, T) -> bool, key: T, p: T -> bool)
    requires TotalPreorder(leq) && PicksTies(p, key, leq)
    ensures p(x) && p(y) ==> leq(x, y)
  {
  }

  lemma {:induction false} InsertKeepsTies<T(!new)>(x: T, s: seq<T>, leq: (T, T) -> bool, key: T, p: T -> bool)
    requires TotalPreorder(leq) && PicksTies(p, key, leq)
    ensures Filter(Insert(x, s, leq), p) == Kept(x, p) + Filter(s, p)
  {
    if s == [] {
      assert [x] + s == [x];
      FilterFirst(x, s, p);
    } else if leq(x, s[0]) {
      FilterFirst(x, s, p);
      hide TotalPreorder, PicksTies;
    } else {
      var y, rest := s[0], s[1..];
      assert s == [y] + rest && Insert(x, s, leq) == [y] + Insert(x, rest, leq);
      InsertKeepsTies(x, rest, leq, key, p);
      FilterFirst(y, Insert(x, rest, leq), p);
      FilterFirst(y, rest, p);
      TiesAreOrdered(x, y, leq, key, p);
      hide *;
      KeptCommute(x, y, p, Filter(rest, p));
    }
  }

  /** Of two elements not both kept, the order does not matter. */
  lemma {:induction false} KeptCommute<T>(x: T, y: T, p: T -> bool, s: seq<T>)
    requires !(p(x) && p(y))
    ensures Kept(y, p) + (Kept(x, p) + s) == Kept(x, p) + (Kept(y, p) + s)
  {
    assert [] + s == s;
  }

  /** Elements that tie come out in the order they went in. */
  lemma {:induction false} SortIsStable<T(!new)>(s: seq<T>, leq: (T, T) -> bool, key: T, p: T -> bool)
    requires TotalPreorder(leq) && PicksTies(p, key, leq)
    ensures Filter(Sort(s, leq), p) == Filter(s, p)
  {
    if s != [] {
      SortIsStable(s[1..], leq, key, p);
      InsertKeepsTies(s[0], Sort(s[1..], leq), leq, key, p);
    }
  }

  // ---- Lists without repetition ----

  ghost predicate Unrepeated<T>(s: seq<T>) {
    forall i, j :: 0 <= i < j < |s| ==> s[i] != s[j]
  }

  lemma {:induction false} AppendUnrepeated<T>(s: seq<T>, x: T)
    requires Unrepeated(s)
    ensures Unrepeated(s + [x]) <==> x !in s
  {
    if x in s {
      var i :| 0 <= i < |s| && s[i] == x;
      assert (s + [x])[i] == (s + [x])[|s|];
    }
  }

  lemma {:induction false} SameElements<T>(s: seq<T>, t: seq<T>)
    requires multiset(s) == multiset(t)
    ensures forall x :: x in s <==> x in t
  {
    assert forall x :: x in s <==> x in multiset(s);
    assert forall x :: x in t <==> x in multiset(t);
  }

  lemma {:induction false} UnrepeatedCount<T>(s: seq<T>)
    ensures Unrepeated(s) <==> forall x :: multiset(s)[x] <= 1
  {
    if s != [] {
      var init, last := s[..|s| - 1], s[|s| - 1];
      assert s == init + [last];
      UnrepeatedCount(init);
      if Unrepeated(s) {
        assert last !in init;
        assert multiset(init)[last] == 0;
      } else if Unrepeated(init) {
        assert last in init;
        assert multiset(s)[last] >= 2;
      } else {
        var x :| multiset(init)[x] > 1;
        assert multiset(s)[x] > 1;
      }
    }
  }

  lemma {:induction false} UnrepeatedSurvives<T>(s: seq<T>, t: seq<T>)
    requires multiset(s) == multiset(t) && Unrepeated(s)
    ensures Unrepeated(t)
  {
    UnrepeatedCount(s);
    UnrepeatedCount(t);
  }
}
