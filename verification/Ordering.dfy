/** The order Rust's `sort` puts strings in, and sorted listings of sets. */
module Ordering {
  import opened Text

  predicate LexLess(a: string, b: string) {
    if b == "" then false
    else if a == "" then true
    else a[0] < b[0] || (a[0] == b[0] && LexLess(a[1..], b[1..]))
  }

  lemma {:induction false} LexTotal(a: string, b: string)
    ensures a == b || LexLess(a, b) || LexLess(b, a)
  {
    if a != "" && b != "" && a[0] == b[0] {
      LexTotal(a[1..], b[1..]);
      if a[1..] == b[1..] {
        assert a == [a[0]] + a[1..];
        assert b == [b[0]] + b[1..];
      }
    }
  }

  lemma {:induction false} LexAsymmetric(a: string, b: string)
    requires LexLess(a, b)
    ensures a != b && !LexLess(b, a)
  {
    if a != "" && a[0] == b[0] {
      LexAsymmetric(a[1..], b[1..]);
    }
  }

  lemma {:induction false} LexTransitive(a: string, b: string, c: string)
    requires LexLess(a, b) && LexLess(b, c)
    ensures LexLess(a, c)
  {
    if a != "" && a[0] == b[0] == c[0] {
      LexTransitive(a[1..], b[1..], c[1..]);
    }
  }

  ghost predicate IsLeast(s: set<string>, m: string) {
    m in s && forall x :: x in s ==> x == m || LexLess(m, x)
  }

  lemma {:induction false} LeastExists(s: set<string>)
    requires s != {}
    ensures exists m :: IsLeast(s, m)
  {
    var x :| x in s;
    if s == {x} {
      assert IsLeast(s, x);
    } else {
      LeastExists(s - {x});
      var m :| IsLeast(s - {x}, m);
      LexTotal(x, m);
      if LexLess(x, m) {
        forall y | y in s
          ensures y == x || LexLess(x, y)
        {
          if y != x && y != m {
            LexTransitive(x, m, y);
          }
        }
        assert IsLeast(s, x);
      } else {
        assert IsLeast(s, m);
      }
    }
  }

  ghost function Least(s: set<string>): (m: string)
    requires s != {}
    ensures IsLeast(s, m)
  {
    LeastExists(s);
    var m :| IsLeast(s, m);
    m
  }

  ghost predicate Increasing(xs: seq<string>) {
    forall i, j :: 0 <= i < j < |xs| ==> LexLess(xs[i], xs[j])
  }

  /** The elements of `s` in increasing order. */
  ghost function Sorted(s: set<string>): (xs: seq<string>)
    ensures forall x :: x in xs <==> x in s
    ensures Increasing(xs)
  {
    if s == {} then [] else [Least(s)] + Sorted(s - {Least(s)})
  }

  /** There is only one increasing listing. */
  lemma {:induction false} SortedUnique(xs: seq<string>, ys: seq<string>)
    requires Increasing(xs) && Increasing(ys)
    requires forall x :: x in xs <==> x in ys
    ensures xs == ys
  {
    FirstIsMember(xs);
    FirstIsMember(ys);
    if xs != [] {
      FirstIsNotAfter(xs, ys);
      FirstIsNotAfter(ys, xs);
      LexTotal(xs[0], ys[0]);
      SortedTails(xs, ys);
      SortedTails(ys, xs);
      SortedUnique(xs[1..], ys[1..]);
      assert xs == [xs[0]] + xs[1..];
      assert ys == [ys[0]] + ys[1..];
    }
  }

  lemma FirstIsNotAfter(xs: seq<string>, ys: seq<string>)
    requires Increasing(xs) && xs != [] && ys != [] && ys[0] in xs
    ensures !LexLess(ys[0], xs[0])
  {
    var i :| 0 <= i < |xs| && xs[i] == ys[0];
    if i > 0 {
      assert LexLess(xs[0], xs[i]);
      LexAsymmetric(xs[0], ys[0]);
    } else if LexLess(xs[0], xs[0]) {
      LexAsymmetric(xs[0], xs[0]);
    }
  }

  lemma SortedTails(xs: seq<string>, ys: seq<string>)
    requires Increasing(xs) && xs != [] && ys != [] && xs[0] == ys[0]
    requires forall x :: x in xs ==> x in ys
    ensures forall x :: x in xs[1..] ==> x in ys[1..]
  {
    forall x | x in xs[1..]
      ensures x in ys[1..]
    {
      var i :| 1 <= i < |xs| && xs[i] == x;
      LexAsymmetric(xs[0], x);
      assert x in ys;
    }
  }

  // ----- sorting ------------------------------------------------------------------

  /** A strict total order. */
  ghost predicate IsOrder<T(!new)>(less: (T, T) -> bool) {
    && (forall a, b :: a == b || less(a, b) || less(b, a))
    && (forall a, b :: less(a, b) ==> !less(b, a))
    && (forall a, b, c :: less(a, b) && less(b, c) ==> less(a, c))
  }

  ghost predicate IncreasingBy<T>(xs: seq<T>, less: (T, T) -> bool) {
    forall i, j :: 0 <= i < j < |xs| ==> less(xs[i], xs[j])
  }

  lemma LexIsOrder()
    ensures IsOrder(LexLess)
  {
    hide LexLess;
    forall a, b
      ensures a == b || LexLess(a, b) || LexLess(b, a)
      ensures LexLess(a, b) ==> !LexLess(b, a)
    {
      LexTotal(a, b);
      if LexLess(a, b) {
        LexAsymmetric(a, b);
      }
    }
    forall a, b, c | LexLess(a, b) && LexLess(b, c)
      ensures LexLess(a, c)
    {
      LexTransitive(a, b, c);
    }
  }

  /** `sort_by` on a duplicate-free collection: insertion into a growing prefix. */
  method SortBy<T(!new, ==)>(names: set<T>, less: (T, T) -> bool) returns (xs: seq<T>)
    requires IsOrder(less)
    ensures IncreasingBy(xs, less)
    ensures forall x :: x in xs <==> x in names
  {
    hide IsOrder, IncreasingBy;
    xs := [];
    NothingIncreases<T>(less);
    var rest := names;
    while rest != {}
      invariant rest <= names && IncreasingBy(xs, less)
      invariant forall x :: x in xs <==> x in names - rest
      decreases rest
    {
      var x :| x in rest;
      xs := Insert(xs, x, less);
      rest := rest - {x};
    }
  }

  lemma NothingIncreases<T>(less: (T, T) -> bool)
    ensures IncreasingBy([], less)
  {
  }

  /** `sort` on a duplicate-free collection of strings. */
  method SortNames(names: set<string>) returns (xs: seq<string>)
    ensures xs == Sorted(names)
  {
    LexIsOrder();
    xs := SortBy(names, LexLess);
    SortedUnique(xs, Sorted(names));
  }

  method Insert<T(!new, ==)>(xs: seq<T>, x: T, less: (T, T) -> bool) returns (ys: seq<T>)
    requires IsOrder(less) && IncreasingBy(xs, less) && x !in xs
    ensures IncreasingBy(ys, less)
    ensures forall y :: y in ys <==> y == x || y in xs
  {
    hide IsOrder;
    var k := 0;
    while k < |xs| && less(xs[k], x)
      invariant 0 <= k <= |xs|
      invariant forall i :: 0 <= i < k ==> less(xs[i], x)
    {
      k := k + 1;
    }
    ys := xs[..k] + [x] + xs[k..];
    InsertedInOrder(xs, x, k, less);
    forall y
      ensures y in ys <==> y == x || y in xs
    {
      if y in xs {
        var i :| 0 <= i < |xs| && xs[i] == y;
        assert ys[if i < k then i else i + 1] == y;
      }
      if y == x {
        assert ys[k] == x;
      }
    }
  }

  lemma InsertedInOrder<T(!new)>(xs: seq<T>, x: T, k: nat, less: (T, T) -> bool)
    requires IsOrder(less) && IncreasingBy(xs, less) && x !in xs && k <= |xs|
    requires forall i :: 0 <= i < k ==> less(xs[i], x)
    requires k == |xs| || !less(xs[k], x)
    ensures IncreasingBy(xs[..k] + [x] + xs[k..], less)
  {
    var ys := xs[..k] + [x] + xs[k..];
    if k < |xs| {
      assert xs[k] in xs;
      assert less(x, xs[k]);
    }
    forall i, j | 0 <= i < j < |ys|
      ensures less(ys[i], ys[j])
    {
      if i == k {
        assert ys[j] == xs[j - 1];
        assert j - 1 == k || less(xs[k], xs[j - 1]);
      }
    }
  }
}
