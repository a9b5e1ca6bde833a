/** What a prefix code can at best achieve. */
module PrefixCodes {
  // Kraft's inequality, the lower bound on the weighted length that merging the two lightest weights again and again
  // attains, and the least depth among all codes that attain it.

  function Pow2(n: nat): (r: nat)
    ensures 0 < r
  {
    if n == 0 then 1 else 2 * Pow2(n - 1)
  }

  lemma {:induction false} Pow2Add(m: nat, n: nat)
    ensures Pow2(m + n) == Pow2(m) * Pow2(n)
  {
    if m != 0 {
      Pow2Add(m - 1, n);
      assert Pow2(m + n) == 2 * Pow2(m - 1 + n);
    }
  }

  lemma PowNext(n: nat)
    ensures Pow2(n + 1) == 2 * Pow2(n)
  {
  }

  lemma PowZero()
    ensures Pow2(0) == 1
  {
  }

  lemma Pow8()
    ensures Pow2(8) == 0x100
  {
  }

  lemma Pow16()
    ensures Pow2(16) == 0x10000 && Pow2(15) == 0x8000
  {
    hide Pow2;
    Pow8();
    Pow2Add(8, 8);
    PowNext(15);
  }

  lemma Pow32()
    ensures Pow2(32) == 0x100000000
  {
    hide Pow2;
    Pow16();
    Pow2Add(16, 16);
  }

  lemma OneMore(c: int, p: int)
    ensures (c + 1) * p == c * p + p
  {
  }

  lemma {:induction false} Pow2Monotone(m: nat, n: nat)
    requires m <= n
    ensures Pow2(m) <= Pow2(n)
  {
    if m < n {
      Pow2Monotone(m, n - 1);
    }
  }

  /** The weight of a tree: the frequency of all its leaves and, to decide between equal frequencies, its height. */
  datatype Weight = Weight(freq: nat, height: nat)

  predicate NoHeavier(a: Weight, b: Weight) {
    a.freq < b.freq || (a.freq == b.freq && a.height <= b.height)
  }

  /** The weight of the tree with these two sons. */
  function United(a: Weight, b: Weight): Weight {
    Weight(a.freq + b.freq, 1 + if a.height <= b.height then b.height else a.height)
  }

  /** A tree, a single symbol as a rule, with its weight and the length of its codeword. */
  datatype Leaf = Leaf(weight: Weight, length: nat)

  ghost function Sum(c: seq<Leaf>, f: Leaf -> int): int {
    if c == [] then 0 else Sum(c[..|c| - 1], f) + f(c[|c| - 1])
  }

  /** The number of strings of `top` bits that begin with a codeword of `length` bits. */
  function ShareOf(top: nat, length: nat): nat {
    if length <= top then Pow2(top - length) else 0
  }

  ghost function Share(top: nat): Leaf -> int {
    (x: Leaf) => ShareOf(top, x.length)
  }

  ghost function Bits(): Leaf -> int {
    (x: Leaf) => x.weight.freq * x.length
  }

  ghost function Kraft(c: seq<Leaf>, top: nat): int { Sum(c, Share(top)) }

  ghost function PathLength(c: seq<Leaf>): int { Sum(c, Bits()) }

  ghost predicate Within(c: seq<Leaf>, top: nat) {
    forall i :: 0 <= i < |c| ==> c[i].length <= top
  }

  /** No leaf ends below level `depth`. */
  ghost predicate Reaches(c: seq<Leaf>, depth: nat) {
    forall i :: 0 <= i < |c| ==> c[i].weight.height + c[i].length <= depth
  }

  ghost function Weights(c: seq<Leaf>): (w: seq<Weight>)
    ensures |w| == |c| && forall i :: 0 <= i < |c| ==> w[i] == c[i].weight
  {
    seq(|c|, i requires 0 <= i < |c| => c[i].weight)
  }

  // ----- sums under update and removal -----

  lemma {:induction false} SumUpdate(c: seq<Leaf>, f: Leaf -> int, i: nat, x: Leaf)
    requires i < |c|
    ensures Sum(c[i := x], f) == Sum(c, f) - f(c[i]) + f(x)
  {
    var last := |c| - 1;
    if i < last {
      SumUpdate(c[..last], f, i, x);
      assert c[i := x][..last] == c[..last][i := x];
    } else {
      assert c[i := x][..last] == c[..last];
    }
  }

  ghost function Without<T>(c: seq<T>, i: nat): seq<T>
    requires i < |c|
  {
    c[..i] + c[i + 1..]
  }

  lemma {:induction false} SumWithout(c: seq<Leaf>, f: Leaf -> int, i: nat)
    requires i < |c|
    ensures Sum(Without(c, i), f) == Sum(c, f) - f(c[i])
  {
    var last := |c| - 1;
    if i < last {
      SumWithout(c[..last], f, i);
      assert Without(c, i)[..last - 1] == Without(c[..last], i);
      assert Without(c, i)[last - 1] == c[last];
    } else {
      assert Without(c, i) == c[..last];
    }
  }

  lemma {:induction false} SumAtLeastEach(c: seq<Leaf>, f: Leaf -> int, m: int)
    requires forall i :: 0 <= i < |c| ==> m <= f(c[i])
    ensures |c| * m <= Sum(c, f)
  {
    if c != [] {
      SumAtLeastEach(c[..|c| - 1], f, m);
    }
  }

  lemma {:induction false} KraftScales(c: seq<Leaf>, low: nat, high: nat)
    requires Within(c, low) && low <= high
    ensures Kraft(c, high) == Kraft(c, low) * Pow2(high - low)
  {
    if c != [] {
      var last := |c| - 1;
      KraftScales(c[..last], low, high);
      Pow2Add(low - c[last].length, high - low);
    }
  }

  // ----- Huffman's cost -----

  ghost predicate IsMin(m: multiset<Weight>, x: Weight) {
    x in m && forall y :: y in m ==> NoHeavier(x, y)
  }

  lemma {:induction false} MinExists(m: multiset<Weight>)
    requires |m| > 0
    ensures exists x :: IsMin(m, x)
    decreases |m|
  {
    var z :| z in m;
    var rest := m - multiset{z};
    assert forall y :: y in m ==> y == z || y in rest;
    if |rest| == 0 {
      assert rest == multiset{};
      assert IsMin(m, z);
    } else {
      MinExists(rest);
      var x :| IsMin(rest, x);
      assert IsMin(m, if NoHeavier(z, x) then z else x);
    }
  }

  ghost function MinOf(m: multiset<Weight>): (x: Weight)
    requires |m| > 0
    ensures IsMin(m, x)
  {
    MinExists(m);
    var x :| IsMin(m, x);
    x
  }

  lemma MinUnique(m: multiset<Weight>, x: Weight)
    requires |m| > 0 && IsMin(m, x)
    ensures MinOf(m) == x
  {
  }

  ghost function Less(m: multiset<Weight>, x: Weight): multiset<Weight> { m - multiset{x} }

  ghost function More(m: multiset<Weight>, x: Weight): multiset<Weight> { m + multiset{x} }

  lemma LessFacts(m: multiset<Weight>, x: Weight)
    requires x in m
    ensures |Less(m, x)| == |m| - 1
    ensures forall z :: z in Less(m, x) ==> z in m
  {
  }

  lemma MoreFacts(m: multiset<Weight>, x: Weight)
    ensures |More(m, x)| == |m| + 1
    ensures forall z :: z in More(m, x) <==> z in m || z == x
  {
  }

  /** `m` with `x` and `y` replaced by their union. */
  ghost function Fused(m: multiset<Weight>, x: Weight, y: Weight): multiset<Weight> {
    More(Less(Less(m, x), y), United(x, y))
  }

  /** The second lightest weight. */
  ghost function SecondOf(m: multiset<Weight>): (y: Weight)
    requires |m| > 1
    ensures IsMin(Less(m, MinOf(m)), y)
  {
    LessFacts(m, MinOf(m));
    MinOf(Less(m, MinOf(m)))
  }

  /** `m` with its two lightest weights replaced by their union. */
  ghost function Merged(m: multiset<Weight>): (r: multiset<Weight>)
    requires |m| > 1
    ensures |r| == |m| - 1
  {
    var x, y := MinOf(m), SecondOf(m);
    LessFacts(m, x);
    LessFacts(Less(m, x), y);
    MoreFacts(Less(Less(m, x), y), United(x, y));
    Fused(m, x, y)
  }

  ghost function LightestTwo(m: multiset<Weight>): nat
    requires |m| > 1
  {
    MinOf(m).freq + SecondOf(m).freq
  }

  /** The total frequency of all merges. */
  ghost function HuffmanCost(m: multiset<Weight>): nat
    decreases |m|
  {
    if |m| <= 1 then 0 else LightestTwo(m) + HuffmanCost(Merged(m))
  }

  /** The height of the tree that the merges build. */
  ghost function HuffmanHeight(m: multiset<Weight>): nat
    decreases |m|
  {
    if |m| == 0 then 0 else if |m| == 1 then MinOf(m).height else HuffmanHeight(Merged(m))
  }

  // ----- the lower bound -----

  /** Lengths of two symbols exchanged. */
  ghost function Exchanged(c: seq<Leaf>, i: nat, p: nat): seq<Leaf>
    requires i < |c| && p < |c|
  {
    c[i := Leaf(c[i].weight, c[p].length)][p := Leaf(c[p].weight, c[i].length)]
  }

  lemma Rearrangement(w: nat, v: nat, short: nat, long: nat)
    requires w <= v && short <= long
    ensures w * long + v * short <= w * short + v * long
    ensures w < v && short < long ==> w * long + v * short < w * short + v * long
  {
    var d, e := v - w, long - short;
    assert w * long == w * short + w * e && v * long == v * short + v * e;
    assert v * e == w * e + d * e;
    if 0 < d && 0 < e {
      assert 0 < d * e;
    }
  }

  /** Giving the lighter symbol the longer codeword does not cost anything. */
  lemma ExchangeHelps(c: seq<Leaf>, i: nat, p: nat, top: nat)
    requires i < |c| && p < |c| && NoHeavier(c[i].weight, c[p].weight) && c[i].length <= c[p].length
    ensures var d := Exchanged(c, i, p);
            && |d| == |c| && Weights(d) == Weights(c) && PathLength(d) <= PathLength(c)
            && Kraft(d, top) == Kraft(c, top)
            && (Within(c, top) ==> Within(d, top))
    ensures c[i].weight.freq < c[p].weight.freq && c[i].length < c[p].length ==>
              PathLength(Exchanged(c, i, p)) < PathLength(c)
  {
    var b := c[i := Leaf(c[i].weight, c[p].length)];
    SumUpdate(c, Bits(), i, Leaf(c[i].weight, c[p].length));
    SumUpdate(b, Bits(), p, Leaf(c[p].weight, c[i].length));
    SumUpdate(c, Share(top), i, Leaf(c[i].weight, c[p].length));
    SumUpdate(b, Share(top), p, Leaf(c[p].weight, c[i].length));
    Rearrangement(c[i].weight.freq, c[p].weight.freq, c[i].length, c[p].length);
  }

  /** If it does not save anything either, no leaf gets below the depth that was reached. */
  lemma ExchangeReaches(c: seq<Leaf>, i: nat, p: nat, depth: nat)
    requires i < |c| && p < |c| && NoHeavier(c[i].weight, c[p].weight) && c[i].length <= c[p].length
             && Reaches(c, depth)
    requires PathLength(Exchanged(c, i, p)) == PathLength(c)
    ensures Reaches(Exchanged(c, i, p), depth)
  {
    hide PathLength;
    ExchangeHelps(c, i, p, 0);
    assert c[i].length < c[p].length ==> c[i].weight.height <= c[p].weight.height;
  }

  lemma MultisetWithout(w: seq<Weight>, i: nat)
    requires i < |w|
    ensures multiset(Without(w, i)) == Less(multiset(w), w[i])
  {
    assert w == w[..i] + [w[i]] + w[i + 1..];
  }

  lemma ItemsWithout<T>(w: seq<T>, i: nat)
    requires i < |w|
    ensures |Without(w, i)| == |w| - 1
    ensures forall t :: 0 <= t < |w| - 1 ==> Without(w, i)[t] == w[if t < i then t else t + 1]
    ensures forall k :: 0 <= k < |w| && k != i ==> Without(w, i)[if k < i then k else k - 1] == w[k]
  {
  }

  /** A place that holds the lightest weight. */
  lemma LightestPlace(w: seq<Weight>) returns (i: nat)
    requires |w| > 0
    ensures i < |w| && w[i] == MinOf(multiset(w)) && forall k :: 0 <= k < |w| ==> NoHeavier(w[i], w[k])
  {
    var x := MinOf(multiset(w));
    i :| 0 <= i < |w| && w[i] == x;
    forall k | 0 <= k < |w| ensures NoHeavier(w[i], w[k]) {
      assert w[k] in multiset(w);
    }
  }

  /** Two places that hold the two lightest weights. */
  lemma LightestPlaces(w: seq<Weight>) returns (i: nat, j: nat)
    requires |w| > 1
    ensures i < |w| && j < |w| && i != j
    ensures w[i] == MinOf(multiset(w)) && w[j] == SecondOf(multiset(w))
    ensures forall k :: 0 <= k < |w| ==> NoHeavier(w[i], w[k])
    ensures forall k :: 0 <= k < |w| && k != i ==> NoHeavier(w[j], w[k])
  {
    hide Without, MinOf, Less;
    i := LightestPlace(w);
    MultisetWithout(w, i);
    ItemsWithout(w, i);
    var t := LightestPlace(Without(w, i));
    j := if t < i then t else t + 1;
    forall k | 0 <= k < |w| && k != i ensures NoHeavier(w[j], w[k]) {
      assert w[k] == Without(w, i)[if k < i then k else k - 1];
    }
  }

  lemma LongestPlace(c: seq<Leaf>, except: int, some: nat) returns (p: nat)
    requires some < |c| && some != except
    ensures p < |c| && p != except && forall k :: 0 <= k < |c| && k != except ==> c[k].length <= c[p].length
  {
    p := some;
    for t := 0 to |c|
      invariant p < |c| && p != except
      invariant forall k :: 0 <= k < t && k != except ==> c[k].length <= c[p].length
    {
      if t != except && c[p].length < c[t].length {
        p := t;
      }
    }
  }

  /** The two lightest symbols may be given the two longest codewords. */
  lemma LightestDeepest(c: seq<Leaf>, top: nat, i: nat, j: nat, depth: nat) returns (d: seq<Leaf>)
    requires i < |c| && j < |c| && i != j && Within(c, top)
    requires forall k :: 0 <= k < |c| ==> NoHeavier(c[i].weight, c[k].weight)
    requires forall k :: 0 <= k < |c| && k != i ==> NoHeavier(c[j].weight, c[k].weight)
    ensures |d| == |c| && Weights(d) == Weights(c) && PathLength(d) <= PathLength(c)
    ensures Within(d, top) && Kraft(d, top) == Kraft(c, top)
    ensures forall k :: 0 <= k < |d| && k != i ==> d[k].length <= d[j].length <= d[i].length
    ensures PathLength(d) == PathLength(c) && Reaches(c, depth) ==> Reaches(d, depth)
  {
    hide Kraft, PathLength, Reaches, NoHeavier;
    var p := LongestPlace(c, -1, i);
    ExchangeHelps(c, i, p, top);
    var b := Exchanged(c, i, p);
    assert forall k :: 0 <= k < |b| ==> b[k].length <= b[i].length && b[k].weight == Weights(b)[k] == c[k].weight;
    var q := LongestPlace(b, i, j);
    ExchangeHelps(b, j, q, top);
    d := Exchanged(b, j, q);
    if PathLength(d) == PathLength(c) && Reaches(c, depth) {
      ExchangeReaches(c, i, p, depth);
      ExchangeReaches(b, j, q, depth);
    }
  }

  /** Whatever the length of one codeword, the others leave room for one of length `low`. */
  lemma OthersLeaveRoom(d: seq<Leaf>, top: nat, i: nat, low: nat)
    requires i < |d| && Within(d, top) && Kraft(d, top) <= Pow2(top) && low <= top && Within(Without(d, i), low)
    ensures Kraft(Without(d, i), low) + 1 <= Pow2(low)
  {
    hide Sum, Without, Pow2, ShareOf;
    SumWithout(d, Share(top), i);
    SharePositive(low, d[i].length, top);
    KraftScales(Without(d, i), low, top);
    Pow2Add(low, top - low);
    StrictlyBelow(Kraft(Without(d, i), low), Pow2(low), Pow2(top - low));
  }

  /** A codeword longer than all others can be shortened to the next length. */
  lemma ShortenDeepest(d: seq<Leaf>, top: nat, i: nat, j: nat)
    requires i < |d| && j < |d| && i != j && Within(d, top) && Kraft(d, top) <= Pow2(top)
    requires forall k :: 0 <= k < |d| && k != i ==> d[k].length <= d[j].length <= d[i].length
    ensures var e := d[i := Leaf(d[i].weight, d[j].length)];
            Within(e, d[j].length) && Kraft(e, d[j].length) <= Pow2(d[j].length) && PathLength(e) <= PathLength(d)
    ensures forall depth :: Reaches(d, depth) ==> Reaches(d[i := Leaf(d[i].weight, d[j].length)], depth)
  {
    hide Sum, Without, Pow2, ShareOf;
    var low := d[j].length;
    var x := Leaf(d[i].weight, low);
    ItemsWithout(d, i);
    OthersLeaveRoom(d, top, i, low);
    SharePositive(low, low, low);
    SumWithout(d, Share(low), i);
    SumUpdate(d, Share(low), i, x);
    SumUpdate(d, Bits(), i, x);
    ScaleLe(d[i].weight.freq, low, d[i].length);
  }

  lemma SharePositive(low: nat, length: nat, top: nat)
    requires length <= top
    ensures 0 < ShareOf(top, length) && ShareOf(low, low) == 1
  {
  }

  lemma ScaleLe(w: nat, x: nat, y: nat)
    requires x <= y
    ensures w * x <= w * y
  {
  }

  lemma StrictlyBelow(k: int, m: nat, unit: nat)
    requires k * unit < m * unit
    ensures k + 1 <= m
  {
    if k >= m {
      ScaleLe(unit, m, k);
    }
  }

  /** Two symbols with codewords of the same greatest length become one with a codeword one shorter. */
  lemma MergeDeepest(e: seq<Leaf>, i: nat, j: nat, low: nat) returns (f: seq<Leaf>)
    requires i < |e| && j < |e| && i != j && e[i].length == e[j].length == low && Within(e, low)
             && Kraft(e, low) <= Pow2(low)
    ensures 0 < low && |f| == |e| - 1 && Within(f, low) && Kraft(f, low) <= Pow2(low)
    ensures PathLength(e) == PathLength(f) + e[i].weight.freq + e[j].weight.freq
    ensures multiset(Weights(f)) == Fused(multiset(Weights(e)), e[i].weight, e[j].weight)
    ensures forall depth :: Reaches(e, depth) ==> Reaches(f, depth)
  {
    hide Sum, Weights, Without, Within;
    DeepestNotRoot(e, low);
    var x := Leaf(United(e[i].weight, e[j].weight), low - 1);
    var b := e[i := x];
    f := Without(b, j);
    assert |f| == |e| - 1 && Within(f, low) by { WithinWithout(e, x, i, j, low); }
    SumUpdate(e, Share(low), i, x);
    SumWithout(b, Share(low), j);
    SumUpdate(e, Bits(), i, x);
    SumWithout(b, Bits(), j);
    assert ShareOf(low, low) == 1 && ShareOf(low, low - 1) == 2;
    OneLevelUp(e[i].weight.freq, e[j].weight.freq, low);
    ReachesMerged(e, b, f, i, j, low);
    assert Weights(b) == Weights(e)[i := x.weight];
    MergedWeights(e, b, i, j, x.weight);
  }

  lemma ReachesMerged(e: seq<Leaf>, b: seq<Leaf>, f: seq<Leaf>, i: nat, j: nat, low: nat)
    requires i < |e| && j < |e| && i != j && e[i].length == e[j].length == low && 0 < low
    requires b == e[i := Leaf(United(e[i].weight, e[j].weight), low - 1)] && f == Without(b, j)
    ensures forall depth :: Reaches(e, depth) ==> Reaches(f, depth)
  {
    ItemsWithout(b, j);
  }

  lemma WithinWithout(e: seq<Leaf>, x: Leaf, i: nat, j: nat, low: nat)
    requires i < |e| && j < |e| && Within(e, low) && x.length <= low
    ensures |Without(e[i := x], j)| == |e| - 1 && Within(Without(e[i := x], j), low)
  {
    hide Without;
    ItemsWithout(e[i := x], j);
  }

  lemma DeepestNotRoot(e: seq<Leaf>, low: nat)
    requires |e| > 1 && Within(e, low) && Kraft(e, low) <= Pow2(low)
    ensures low != 0
  {
    if low == 0 {
      SumAtLeastEach(e, Share(low), 1);
    }
  }

  lemma OneLevelUp(w: nat, v: nat, low: nat)
    requires 0 < low
    ensures (w + v) * (low - 1) + w + v == w * low + v * low
  {
  }

  lemma MergedWeights(e: seq<Leaf>, b: seq<Leaf>, i: nat, j: nat, w: Weight)
    requires i < |e| && j < |e| && i != j && |b| == |e| && Weights(b) == Weights(e)[i := w]
    ensures multiset(Weights(Without(b, j))) == More(Less(Less(multiset(Weights(e)), e[i].weight), e[j].weight), w)
  {
    hide Weights, Without;
    var we, wb := Weights(e), Weights(b);
    ItemsWithout(b, j);
    ItemsWithout(wb, j);
    assert Weights(Without(b, j)) == Without(wb, j);
    MultisetWithout(wb, j);
    TwoPlaces(we, i, j);
    assert multiset(wb) == multiset(we) - multiset{we[i]} + multiset{w};
    TakeAndPut(multiset(we), we[i], we[j], w);
  }

  lemma TwoPlaces(w: seq<Weight>, i: nat, j: nat)
    requires i < |w| && j < |w| && i != j
    ensures w[i] in multiset(w) && w[j] in multiset(w) - multiset{w[i]}
  {
    MultisetWithout(w, i);
    ItemsWithout(w, i);
    assert Without(w, i)[if j < i then j else j - 1] == w[j];
  }

  lemma TakeAndPut(m: multiset<Weight>, x: Weight, y: Weight, z: Weight)
    requires x in m && y in m - multiset{x}
    ensures m - multiset{x} + multiset{z} - multiset{y} == m - multiset{x} - multiset{y} + multiset{z}
  {
  }

  /** Merging the two lightest symbols of any assignment of lengths saves at least their frequency, and if no more,
      keeps the depth. */
  lemma MergeStep(c: seq<Leaf>, top: nat, depth: nat) returns (f: seq<Leaf>, low: nat)
    requires |c| > 1 && Within(c, top) && Kraft(c, top) <= Pow2(top)
    ensures |f| == |c| - 1 && Within(f, low) && Kraft(f, low) <= Pow2(low)
    ensures |multiset(Weights(c))| == |c| && multiset(Weights(f)) == Merged(multiset(Weights(c)))
    ensures PathLength(f) + LightestTwo(multiset(Weights(c))) <= PathLength(c)
    ensures PathLength(f) + LightestTwo(multiset(Weights(c))) == PathLength(c) && Reaches(c, depth) ==>
              Reaches(f, depth)
  {
    hide Kraft, PathLength, Weights, MinOf, SecondOf, Within, Pow2, Fused, Reaches, NoHeavier;
    var w := Weights(c);
    var i, j := LightestPlaces(w);
    var d := LightestDeepest(c, top, i, j, depth);
    assert d[i].weight == Weights(d)[i] == w[i] && d[j].weight == Weights(d)[j] == w[j];
    ShortenDeepest(d, top, i, j);
    low := d[j].length;
    var e := d[i := Leaf(d[i].weight, low)];
    assert Weights(e) == w;
    f := MergeDeepest(e, i, j, low);
  }

  /** No assignment of lengths that satisfies Kraft's inequality beats Huffman's cost, and none that attains it is
      less deep than Huffman's tree. */
  lemma {:induction false} LowerBound(c: seq<Leaf>, top: nat, depth: nat)
    requires |c| > 0 && Within(c, top) && Kraft(c, top) <= Pow2(top)
    ensures HuffmanCost(multiset(Weights(c))) <= PathLength(c)
    ensures HuffmanCost(multiset(Weights(c))) == PathLength(c) && Reaches(c, depth) ==>
              HuffmanHeight(multiset(Weights(c))) <= depth
    decreases |c|
  {
    hide Kraft, PathLength, Weights, Within, Pow2, Merged, LightestTwo, Reaches;
    if |c| == 1 {
      OneLeaf(c, depth);
    } else {
      var f, low := MergeStep(c, top, depth);
      LowerBound(f, low, depth);
    }
  }

  lemma OneLeaf(c: seq<Leaf>, depth: nat)
    requires |c| == 1
    ensures |multiset(Weights(c))| == 1 && 0 <= PathLength(c)
    ensures Reaches(c, depth) ==> HuffmanHeight(multiset(Weights(c))) <= depth
  {
    assert c[..0] == [];
    ScaleLe(c[0].weight.freq, 0, c[0].length);
    assert PathLength(c) == PathLength(c[..0]) + c[0].weight.freq * c[0].length;
    assert Weights(c) == [c[0].weight];
    MinUnique(multiset(Weights(c)), c[0].weight);
  }

  // ----- prefix codes -----

  /** No codeword begins with another. */
  ghost predicate PrefixFree(code: seq<seq<bool>>) {
    forall i, j :: 0 <= i < |code| && 0 <= j < |code| && i != j ==> !(code[i] <= code[j])
  }

  ghost function KraftSum(code: seq<seq<bool>>, top: nat): int {
    if code == [] then 0 else KraftSum(code[..|code| - 1], top) + ShareOf(top, |code[|code| - 1]|)
  }

  /** The rest of the codewords that begin with `first`. */
  ghost function Tails(code: seq<seq<bool>>, first: bool): seq<seq<bool>> {
    if code == [] then []
    else
      var w := code[|code| - 1];
      Tails(code[..|code| - 1], first) + if w != [] && w[0] == first then [w[1..]] else []
  }

  lemma {:induction false} TailsFrom(code: seq<seq<bool>>, first: bool, t: seq<bool>)
    requires t in Tails(code, first)
    ensures [first] + t in code
  {
    var last := |code| - 1;
    assert code == code[..last] + [code[last]];
    var w := code[last];
    if t in Tails(code[..last], first) {
      TailsFrom(code[..last], first, t);
    } else {
      assert w == [first] + t;
    }
  }

  lemma TailPrefix(first: bool, a: seq<bool>, b: seq<bool>)
    ensures a <= b ==> [first] + a <= [first] + b
  {
  }

  lemma TailsApart(code: seq<seq<bool>>, first: bool, t: seq<bool>)
    requires PrefixFree(code) && code != []
    requires var w := code[|code| - 1]; w != [] && w[0] == first
    requires t in Tails(code[..|code| - 1], first)
    ensures var w := code[|code| - 1]; !(t <= w[1..]) && !(w[1..] <= t)
  {
    hide Tails;
    var last := |code| - 1;
    var w := code[last];
    TailsFrom(code[..last], first, t);
    var k :| 0 <= k < last && code[..last][k] == [first] + t;
    assert w == [first] + w[1..];
    TailPrefix(first, t, w[1..]);
    TailPrefix(first, w[1..], t);
    assert !(code[k] <= code[last]) && !(code[last] <= code[k]);
  }

  lemma {:induction false} TailsPrefixFree(code: seq<seq<bool>>, first: bool)
    requires PrefixFree(code)
    ensures PrefixFree(Tails(code, first))
  {
    if code != [] {
      var last := |code| - 1;
      var w := code[last];
      var tails := Tails(code[..last], first);
      TailsPrefixFree(code[..last], first);
      if w != [] && w[0] == first {
        forall i | 0 <= i < |tails| ensures !(tails[i] <= w[1..]) && !(w[1..] <= tails[i]) {
          TailsApart(code, first, tails[i]);
        }
      }
    }
  }

  lemma {:induction false} KraftSplits(code: seq<seq<bool>>, top: nat)
    requires 0 < top && forall i :: 0 <= i < |code| ==> code[i] != []
    ensures KraftSum(code, top) == KraftSum(Tails(code, false), top - 1) + KraftSum(Tails(code, true), top - 1)
  {
    if code != [] {
      var last := |code| - 1;
      KraftSplits(code[..last], top);
      assert ShareOf(top, |code[last]|) == ShareOf(top - 1, |code[last][1..]|);
      KraftAppend(Tails(code[..last], false), code[last][1..], top - 1);
      KraftAppend(Tails(code[..last], true), code[last][1..], top - 1);
    }
  }

  lemma KraftAppend(code: seq<seq<bool>>, w: seq<bool>, top: nat)
    ensures KraftSum(code + [w], top) == KraftSum(code, top) + ShareOf(top, |w|)
    ensures code + [] == code
  {
    assert (code + [w])[..|code|] == code;
  }

  lemma {:induction false} LongWordsShareNothing(code: seq<seq<bool>>)
    requires forall i :: 0 <= i < |code| ==> code[i] != []
    ensures KraftSum(code, 0) == 0
  {
    if code != [] {
      LongWordsShareNothing(code[..|code| - 1]);
    }
  }

  lemma EmptyWordAlone(code: seq<seq<bool>>, i: nat)
    requires PrefixFree(code) && i < |code| && code[i] == []
    ensures |code| == 1
  {
    if |code| > 1 {
      EmptyIsPrefix(code[if i == 0 then 1 else 0]);
    }
  }

  lemma EmptyIsPrefix(w: seq<bool>)
    ensures [] <= w
  {
  }

  lemma EmptyWordFills(code: seq<seq<bool>>, top: nat)
    requires |code| == 1 && code[0] == []
    ensures KraftSum(code, top) == Pow2(top)
  {
    assert code == [] + [code[0]];
    KraftAppend([], code[0], top);
  }

  /** Kraft's inequality. */
  lemma {:induction false} KraftInequality(code: seq<seq<bool>>, top: nat)
    requires PrefixFree(code)
    ensures KraftSum(code, top) <= Pow2(top)
    decreases top
  {
    hide PrefixFree, Tails, KraftSum, ShareOf;
    if i :| 0 <= i < |code| && code[i] == [] {
      EmptyWordAlone(code, i);
      EmptyWordFills(code, top);
    } else if top == 0 {
      LongWordsShareNothing(code);
    } else {
      KraftSplits(code, top);
      TailsPrefixFree(code, false);
      TailsPrefixFree(code, true);
      KraftInequality(Tails(code, false), top - 1);
      KraftInequality(Tails(code, true), top - 1);
    }
  }

  /** The weighted length of a code. */
  ghost function CodeCost(w: seq<nat>, code: seq<seq<bool>>): int
    requires |w| == |code|
  {
    if w == [] then 0 else CodeCost(w[..|w| - 1], code[..|w| - 1]) + w[|w| - 1] * |code[|w| - 1]|
  }

  ghost function Leaves(w: seq<nat>, code: seq<seq<bool>>): (c: seq<Leaf>)
    requires |w| == |code|
    ensures |c| == |w| && forall i :: 0 <= i < |w| ==> c[i] == Leaf(Weight(w[i], 0), |code[i]|)
  {
    seq(|w|, i requires 0 <= i < |w| => Leaf(Weight(w[i], 0), |code[i]|))
  }

  lemma {:induction false} LeavesSums(w: seq<nat>, code: seq<seq<bool>>, top: nat)
    requires |w| == |code|
    ensures PathLength(Leaves(w, code)) == CodeCost(w, code) && Kraft(Leaves(w, code), top) == KraftSum(code, top)
  {
    if w != [] {
      var last := |w| - 1;
      LeavesSums(w[..last], code[..last], top);
      assert Leaves(w, code)[..last] == Leaves(w[..last], code[..last]);
    }
  }

  ghost function LongestWord(code: seq<seq<bool>>): (top: nat)
    ensures forall i :: 0 <= i < |code| ==> |code[i]| <= top
  {
    if code == [] then 0
    else
      var rest := LongestWord(code[..|code| - 1]);
      if rest < |code[|code| - 1]| then |code[|code| - 1]| else rest
  }

  /** Frequencies as weights of single symbols. */
  ghost function Singles(w: seq<nat>): (s: seq<Weight>)
    ensures |s| == |w| && forall i :: 0 <= i < |w| ==> s[i] == Weight(w[i], 0)
  {
    seq(|w|, i requires 0 <= i < |w| => Weight(w[i], 0))
  }

  /** No prefix code has a smaller weighted length than Huffman's cost, and none that attains it has only shorter
      codewords than Huffman's tree is high. */
  lemma HuffmanCostIsLeast(w: seq<nat>, code: seq<seq<bool>>, depth: nat)
    requires |w| == |code| > 0 && PrefixFree(code)
    ensures HuffmanCost(multiset(Singles(w))) <= CodeCost(w, code)
    ensures HuffmanCost(multiset(Singles(w))) == CodeCost(w, code)
            && (forall i :: 0 <= i < |code| ==> |code[i]| <= depth) ==>
      HuffmanHeight(multiset(Singles(w))) <= depth
  {
    hide HuffmanCost, HuffmanHeight, Kraft, PathLength;
    var top := LongestWord(code);
    KraftInequality(code, top);
    LeavesSums(w, code, top);
    assert Weights(Leaves(w, code)) == Singles(w);
    LowerBound(Leaves(w, code), top, depth);
  }
}
