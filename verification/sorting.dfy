/** Strictly sorted sequences: what `sort` makes of distinct elements. */
module Sorting {
  ghost predicate StrictTotal<T(!new)>(less: (T, T) -> bool) {
    && (forall a :: !less(a, a))
    && (forall a, b :: a == b || less(a, b) || less(b, a))
    && (forall a, b, c :: less(a, b) && less(b, c) ==> less(a, c))
  }

  ghost predicate Sorted<T>(less: (T, T) -> bool, xs: seq<T>) {
    forall i, j :: 0 <= i < j < |xs| ==> less(xs[i], xs[j])
  }

  /** `xs` lists the elements of `elems` in strictly increasing order. */
  ghost predicate SortedListOf<T(!new)>(less: (T, T) -> bool, xs: seq<T>, elems: set<T>) {
    Sorted(less, xs) && forall x :: x in xs <==> x in elems
  }

  /** A set has only one sorted list. */
  lemma {:induction false} SortedListUnique<T(!new)>(less: (T, T) -> bool, xs: seq<T>, ys: seq<T>, elems: set<T>)
    requires StrictTotal(less)
    requires SortedListOf(less, xs, elems) && SortedListOf(less, ys, elems)
    ensures xs == ys
    decreases |xs|
  {
    EmptyListOf(less, xs, elems);
    EmptyListOf(less, ys, elems);
    if xs == [] {
    } else {
      HeadIsLeast(less, xs, elems);
      HeadIsLeast(less, ys, elems);
      assert xs[0] == ys[0];
      var x := xs[0];
      TailIsSortedList(less, xs, elems);
      TailIsSortedList(less, ys, elems);
      SortedListUnique(less, xs[1..], ys[1..], elems - {x});
      assert xs == [x] + xs[1..] && ys == [x] + ys[1..];
    }
  }

  lemma EmptyListOf<T(!new)>(less: (T, T) -> bool, xs: seq<T>, elems: set<T>)
    requires SortedListOf(less, xs, elems)
    ensures xs == [] <==> elems == {}
  {
    if xs != [] { assert xs[0] in elems; }
  }

  lemma HeadIsLeast<T(!new)>(less: (T, T) -> bool, xs: seq<T>, elems: set<T>)
    requires SortedListOf(less, xs, elems) && xs != []
    ensures xs[0] in elems && forall x :: x in elems ==> x == xs[0] || less(xs[0], x)
  {
    forall x | x in elems ensures x == xs[0] || less(xs[0], x) {
      assert x in xs;
    }
  }

  lemma TailIsSortedList<T(!new)>(less: (T, T) -> bool, xs: seq<T>, elems: set<T>)
    requires StrictTotal(less) && SortedListOf(less, xs, elems) && xs != []
    ensures SortedListOf(less, xs[1..], elems - {xs[0]})
  {
    forall y ensures y in xs[1..] <==> y in elems - {xs[0]} {
      if y in xs[1..] {
        var k :| 0 <= k < |xs| - 1 && xs[1..][k] == y;
        assert less(xs[0], xs[k + 1]);
        assert y in xs;
      }
      if y in elems && y != xs[0] {
        var k :| 0 <= k < |xs| && xs[k] == y;
        assert xs[1..][k - 1] == y;
      }
    }
  }

  /** Inserts `x`, which is not in the sorted list `xs`, at its place. */
  method Insert<T(!new)>(less: (T, T) -> bool, xs: seq<T>, x: T) returns (ys: seq<T>)
    requires StrictTotal(less) && Sorted(less, xs) && x !in xs
    ensures Sorted(less, ys) && forall y :: y in ys <==> y == x || y in xs
  {
    var i := 0;
    while i < |xs| && less(xs[i], x)
      invariant 0 <= i <= |xs|
      invariant forall k :: 0 <= k < i ==> less(xs[k], x)
    {
      i := i + 1;
    }
    BehindPlace(less, xs, i, x);
    ys := xs[..i] + [x] + xs[i..];
    InsertedAt(less, xs, i, x, ys);
  }

  lemma BehindPlace<T(!new)>(less: (T, T) -> bool, xs: seq<T>, i: nat, x: T)
    requires StrictTotal(less) && Sorted(less, xs) && x !in xs
    requires i <= |xs| && (i < |xs| ==> !less(xs[i], x))
    ensures forall k :: i <= k < |xs| ==> less(x, xs[k])
  {
    if i < |xs| {
      assert less(x, xs[i]);
      assert forall k :: i < k < |xs| ==> less(xs[i], xs[k]);
    }
  }

  /** Between smaller and larger elements, `x` is at its place. */
  lemma InsertedAt<T>(less: (T, T) -> bool, xs: seq<T>, i: nat, x: T, ys: seq<T>)
    requires Sorted(less, xs) && i <= |xs| && ys == xs[..i] + [x] + xs[i..]
    requires forall k :: 0 <= k < i ==> less(xs[k], x)
    requires forall k :: i <= k < |xs| ==> less(x, xs[k])
    ensures Sorted(less, ys) && forall y :: y in ys <==> y == x || y in xs
  {
    assert ys[i] == x && forall k :: 0 <= k < |xs| ==> ys[if k < i then k else k + 1] == xs[k];
    forall a, b | 0 <= a < b < |ys| ensures less(ys[a], ys[b]) {
      assert a != i ==> ys[a] == xs[if a < i then a else a - 1];
      assert b != i ==> ys[b] == xs[if b < i then b else b - 1];
    }
    assert xs == xs[..i] + xs[i..];
  }

  /** The sorted list of a set. */
  method Sort<T(!new, ==)>(less: (T, T) -> bool, elems: set<T>) returns (xs: seq<T>)
    requires StrictTotal(less)
    ensures SortedListOf(less, xs, elems)
  {
    var rest := elems;
    xs := [];
    while rest != {}
      invariant rest <= elems
      invariant Sorted(less, xs) && forall x :: x in xs <==> x in elems - rest
      decreases rest
    {
      var x :| x in rest;
      xs := Insert(less, xs, x);
      rest := rest - {x};
    }
  }

  /** Every set has a sorted list. */
  lemma {:induction false} SortedListExists<T(!new)>(less: (T, T) -> bool, elems: set<T>) returns (xs: seq<T>)
    requires StrictTotal(less)
    ensures SortedListOf(less, xs, elems)
    decreases elems
  {
    if elems == {} {
      xs := [];
    } else {
      var x :| x in elems;
      var ys := SortedListExists(less, elems - {x});
      xs := InsertSorted(less, ys, x);
    }
  }

  lemma {:induction false} InsertSorted<T(!new)>(less: (T, T) -> bool, xs: seq<T>, x: T) returns (ys: seq<T>)
    requires StrictTotal(less) && Sorted(less, xs) && x !in xs
    ensures Sorted(less, ys) && forall y :: y in ys <==> y == x || y in xs
    decreases |xs|
  {
    if xs == [] || less(x, xs[0]) {
      ys := [x] + xs;
      assert forall k :: 0 < k < |xs| ==> less(xs[0], xs[k]);
    } else {
      assert xs[0] in xs;
      var tail := InsertSorted(less, xs[1..], x);
      ys := [xs[0]] + tail;
      assert xs == [xs[0]] + xs[1..];
      forall k | 0 <= k < |tail| ensures less(xs[0], tail[k]) {
        assert tail[k] in tail;
        if tail[k] != x {
          var m :| 0 <= m < |xs| - 1 && xs[1..][m] == tail[k];
          assert less(xs[0], xs[m + 1]);
        }
      }
    }
  }

  // ---- lexicographic order -----------------------------------------------------------

  predicate LexLess(a: seq<int>, b: seq<int>) {
    b != [] && (a == [] || a[0] < b[0] || (a[0] == b[0] && LexLess(a[1..], b[1..])))
  }

  /** The first `k` elements agree, and then `a` ends or has the smaller element. */
  predicate SmallerAt(a: seq<int>, b: seq<int>, k: nat) {
    k <= |a| && k < |b| && a[..k] == b[..k] && (k == |a| || a[k] < b[k])
  }

  /** The order is decided at the first difference. */
  lemma {:induction false} LexIsFirstDifference(a: seq<int>, b: seq<int>)
    ensures LexLess(a, b) <==> exists k :: SmallerAt(a, b, k)
    decreases |a|
  {
    if a == [] || b == [] {
      assert b != [] ==> SmallerAt(a, b, 0);
    } else {
      LexIsFirstDifference(a[1..], b[1..]);
      if a[0] < b[0] {
        assert SmallerAt(a, b, 0);
      }
      if k: nat :| SmallerAt(a[1..], b[1..], k) && a[0] == b[0] {
        assert a[..k + 1] == [a[0]] + a[1..][..k] && b[..k + 1] == [b[0]] + b[1..][..k];
        assert SmallerAt(a, b, k + 1);
      }
      if k: nat :| SmallerAt(a, b, k) && k > 0 {
        assert a[..k][0] == a[0] && b[..k][0] == b[0];
        assert a[1..][..k - 1] == a[..k][1..] && b[1..][..k - 1] == b[..k][1..];
        assert SmallerAt(a[1..], b[1..], k - 1);
      }
    }
  }

  lemma {:induction false} LexIrreflexive(a: seq<int>)
    ensures !LexLess(a, a)
  {
    if a == [] {
    } else {
      LexIrreflexive(a[1..]);
    }
  }

  lemma {:induction false} LexTrichotomy(a: seq<int>, b: seq<int>)
    ensures a == b || LexLess(a, b) || LexLess(b, a)
  {
    if a != [] && b != [] && a[0] == b[0] {
      LexTrichotomy(a[1..], b[1..]);
      if a[1..] == b[1..] { assert a == [a[0]] + a[1..] && b == [b[0]] + b[1..]; }
    }
  }

  lemma {:induction false} LexTransitive(a: seq<int>, b: seq<int>, c: seq<int>)
    requires LexLess(a, b) && LexLess(b, c)
    ensures LexLess(a, c)
  {
    if a != [] && a[0] == b[0] == c[0] { LexTransitive(a[1..], b[1..], c[1..]); }
  }
}
