/** Sums over sequences of numbers. */
module Totals {

  /** Sum of `f` over the entries of `c`. */
  ghost function Total(c: seq<int>, f: int -> int): int {
    if c == [] then 0 else Total(c[..|c| - 1], f) + f(c[|c| - 1])
  }

  lemma TotalOneMore(a: seq<int>, x: int, f: int -> int)
    ensures Total(a + [x], f) == Total(a, f) + f(x)
  {
    assert (a + [x])[..|a|] == a;
  }

  lemma {:induction false} TotalAppend(c: seq<int>, d: seq<int>, f: int -> int)
    ensures Total(c + d, f) == Total(c, f) + Total(d, f)
  {
    if d == [] {
      assert c + d == c;
    } else {
      assert (c + d)[..|c + d| - 1] == c + d[..|d| - 1];
      TotalAppend(c, d[..|d| - 1], f);
    }
  }

  lemma {:induction false} TotalUpdate(c: seq<int>, f: int -> int, i: nat, x: int)
    requires i < |c|
    ensures Total(c[i := x], f) == Total(c, f) - f(c[i]) + f(x)
  {
    var last := |c| - 1;
    if i < last {
      TotalUpdate(c[..last], f, i, x);
      assert c[i := x][..last] == c[..last][i := x];
    } else {
      assert c[i := x][..last] == c[..last];
    }
  }

  lemma {:induction false} TotalSplit(c: seq<int>, f: int -> int, g: int -> int, h: int -> int, m: int)
    requires forall i :: 0 <= i < |c| ==> f(c[i]) == g(c[i]) + m * h(c[i])
    ensures Total(c, f) == Total(c, g) + m * Total(c, h)
  {
    if c != [] {
      TotalSplit(c[..|c| - 1], f, g, h, m);
    }
  }

  lemma {:induction false} TotalSame(order: seq<int>, f: int -> int, g: int -> int)
    requires forall i :: 0 <= i < |order| ==> f(order[i]) == g(order[i])
    ensures Total(order, f) == Total(order, g)
  {
    if order != [] {
      TotalSame(order[..|order| - 1], f, g);
    }
  }

  lemma {:induction false} TotalScales(order: seq<int>, f: int -> int, g: int -> int, m: int)
    requires forall i :: 0 <= i < |order| ==> g(order[i]) == f(order[i]) * m
    ensures Total(order, g) == Total(order, f) * m
  {
    if order != [] {
      TotalScales(order[..|order| - 1], f, g, m);
    }
  }

  lemma {:induction false} TotalAtMost(order: seq<int>, f: int -> int, g: int -> int)
    requires forall i :: 0 <= i < |order| ==> f(order[i]) <= g(order[i])
    ensures Total(order, f) <= Total(order, g)
  {
    if order != [] {
      TotalAtMost(order[..|order| - 1], f, g);
    }
  }

  lemma {:induction false} TotalMonotone(c: seq<int>, d: seq<int>, f: int -> int)
    requires |c| == |d| && forall i :: 0 <= i < |c| ==> f(c[i]) <= f(d[i])
    ensures Total(c, f) <= Total(d, f)
  {
    if c != [] {
      TotalMonotone(c[..|c| - 1], d[..|d| - 1], f);
    }
  }

  lemma {:induction false} TotalAtLeast(order: seq<int>, f: int -> int)
    requires forall i :: 0 <= i < |order| ==> 1 <= f(order[i])
    ensures |order| <= Total(order, f)
  {
    if order != [] {
      TotalAtLeast(order[..|order| - 1], f);
    }
  }

  lemma {:induction false} TotalNonNegative(c: seq<int>, f: int -> int)
    requires forall i :: 0 <= i < |c| ==> 0 <= f(c[i])
    ensures 0 <= Total(c, f)
    ensures forall i :: 0 <= i < |c| ==> f(c[i]) <= Total(c, f)
  {
    if c != [] {
      TotalNonNegative(c[..|c| - 1], f);
    }
  }

  lemma {:induction false} TotalConstant(c: seq<int>, f: int -> int, m: int)
    requires forall i :: 0 <= i < |c| ==> f(c[i]) == m
    ensures Total(c, f) == |c| * m
  {
    if c != [] {
      TotalConstant(c[..|c| - 1], f, m);
    }
  }

  lemma Cancel(m: multiset<int>, n: multiset<int>, x: int)
    requires m + multiset{x} == n + multiset{x}
    ensures m == n
  {
    forall y ensures m[y] == n[y] {
      assert (m + multiset{x})[y] == (n + multiset{x})[y];
    }
  }

  /** Where the last entry of `a` stands in a permutation of it. */
  lemma PairedPlace(a: seq<int>, b: seq<int>) returns (i: nat)
    requires a != [] && multiset(a) == multiset(b)
    ensures i < |b| && b[i] == a[|a| - 1] && multiset(a[..|a| - 1]) == multiset(b[..i] + b[i + 1..])
  {
    var x := a[|a| - 1];
    assert x in multiset(b);
    i :| 0 <= i < |b| && b[i] == x;
    assert b == b[..i] + [x] + b[i + 1..];
    assert a == a[..|a| - 1] + [x];
    Cancel(multiset(a[..|a| - 1]), multiset(b[..i] + b[i + 1..]), x);
  }

  /** A total does not depend on the order. */
  lemma {:induction false} TotalPermutes(a: seq<int>, b: seq<int>, f: int -> int)
    requires multiset(a) == multiset(b)
    ensures Total(a, f) == Total(b, f)
    decreases |a|
  {
    if a == [] {
      assert |multiset(a)| == |multiset(b)|;
    } else {
      var i := PairedPlace(a, b);
      TotalPermutes(a[..|a| - 1], b[..i] + b[i + 1..], f);
      TotalAround(b, i, f);
    }
  }

  lemma TotalAround(b: seq<int>, i: nat, f: int -> int)
    requires i < |b|
    ensures Total(b, f) == Total(b[..i] + b[i + 1..], f) + f(b[i])
  {
    hide Total;
    assert b == b[..i] + [b[i]] + b[i + 1..];
    TotalAppend(b[..i], b[i + 1..], f);
    TotalAppend(b[..i] + [b[i]], b[i + 1..], f);
    TotalOneMore(b[..i], b[i], f);
  }
}
