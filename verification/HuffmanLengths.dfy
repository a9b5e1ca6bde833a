/** Codeword lengths within a limit: rebuild the tree from halved frequencies until it is shallow enough. */
module HuffmanLengths {
  import opened Totals
  import opened PrefixCodes
  import opened HuffmanTrees
  import opened HuffmanBuild

  /** The leaves in list order with their frequency and codeword length. */
  ghost function Coded(sorted: seq<int>, freq: seq<nat>, bits: seq<nat>): (c: seq<Leaf>)
    ensures |c| == |sorted| && forall k :: 0 <= k < |c| ==>
              c[k] == Leaf(Weight(At(freq, sorted[k]), 0), At(bits, sorted[k]))
  {
    seq(|sorted|, k requires 0 <= k < |sorted| => Leaf(Weight(At(freq, sorted[k]), 0), At(bits, sorted[k])))
  }

  lemma {:induction false} CodedSums(sorted: seq<int>, freq: seq<nat>, bits: seq<nat>, top: nat)
    ensures PathLength(Coded(sorted, freq, bits)) == Total(sorted, Measuring(freq, bits))
    ensures Kraft(Coded(sorted, freq, bits), top) == Total(sorted, Sharing(bits, top))
  {
    if sorted != [] {
      var last := |sorted| - 1;
      CodedSums(sorted[..last], freq, bits, top);
      assert Coded(sorted, freq, bits)[..last] == Coded(sorted[..last], freq, bits);
    }
  }

  lemma {:induction false} InnerTotal(n: nat, freq: seq<nat>, inner: seq<nat>, s: nat)
    requires |freq| == n && s <= |inner|
    ensures Total(Numbers(n, n + s), Weighing(freq + inner)) == SumOf(inner[..s])
  {
    if s != 0 {
      InnerTotal(n, freq, inner, s - 1);
      assert Numbers(n, n + s)[..s - 1] == Numbers(n, n + s - 1);
      assert inner[..s][..s - 1] == inner[..s - 1];
    }
  }

  /** The tree just built: what its leaves cost, and that they fill the code space. */
  lemma TreeCost(n: nat, sorted: seq<int>, order: seq<int>, freq: seq<nat>, inner: seq<nat>, left: seq<int>,
                 right: seq<int>, bits: seq<nat>, top: nat)
    requires IsTree(n, sorted, order) && Depths(n, order, bits) && SonsMerged(n, order, freq, inner, left, right)
    requires |inner| == n - 1 && bits[sorted[0]] <= top
    ensures PathLength(Coded(sorted, freq, bits)) == SumOf(inner)
    ensures Kraft(Coded(sorted, freq, bits), top) == Pow2(top)
    ensures Within(Coded(sorted, freq, bits), top)
  {
    hide Mixes, Total, Pow2;
    var all := freq + inner;
    assert Sums(n, order, all) by {
      assert forall t :: 0 <= t < n - 1 ==>
               inner[t] == Value(freq, inner, order[2 * t]) + Value(freq, inner, order[2 * t + 1]);
    }
    WeightedDepth(n, sorted, order, all, bits);
    InnerTotal(n, freq, inner, n - 1);
    assert inner[..n - 1] == inner;
    SameMeasure(n, sorted, freq, inner, bits);
    CodedSums(sorted, freq, bits, top);
    FirstLeafDeepest(n, sorted, order, bits);
    KraftExact(n, sorted, order, bits, top);
    forall k | 0 <= k < n ensures Coded(sorted, freq, bits)[k].length <= top {
      LaterLeafNoDeeper(n, sorted, order, bits, 0, k);
    }
  }

  lemma {:induction false} SameMeasure(n: nat, sorted: seq<int>, freq: seq<nat>, inner: seq<nat>, bits: seq<nat>)
    requires |freq| == n && forall k :: 0 <= k < |sorted| ==> 0 <= sorted[k] < n
    ensures Total(sorted, Measuring(freq, bits)) == Total(sorted, Measuring(freq + inner, bits))
  {
    if sorted != [] {
      SameMeasure(n, sorted[..|sorted| - 1], freq, inner, bits);
    }
  }

  // ----- why the restart loop ends -----

  /** Two deepest codewords one level up and down, and a short one longer, at the same Kraft sum. */
  ghost function Levelled(c: seq<Leaf>, m: nat): (d: seq<Leaf>)
    requires 2 <= m < |c| && 0 < c[0].length
    ensures |d| == |c|
  {
    c[0 := Leaf(Weight(1, 0), c[0].length - 1)][1 := Leaf(Weight(1, 0), c[m].length + 1)][m :=
        Leaf(Weight(1, 0), c[m].length + 1)]
  }

  lemma UnlevelCostsMore(c: seq<Leaf>, top: nat, m: nat)
    requires 2 <= m < |c| && Within(c, top) && Kraft(c, top) <= Pow2(top)
    requires forall k :: 0 <= k < |c| ==> c[k].weight == Weight(1, 0)
    requires c[0].length == c[1].length && c[0].length > c[m].length + 1
    ensures HuffmanCost(multiset(Weights(c))) < PathLength(c)
  {
    hide Kraft, PathLength, HuffmanCost, Within, Pow2;
    LevelledSums(c, c[0 := Leaf(Weight(1, 0), c[0].length - 1)],
                 c[0 := Leaf(Weight(1, 0), c[0].length - 1)][1 := Leaf(Weight(1, 0), c[m].length + 1)],
                     Levelled(c, m), top, m);
    assert Weights(Levelled(c, m)) == Weights(c);
    LowerBound(Levelled(c, m), top, 0);
  }

  /** A tree at least as cheap as any other over equal weights has no two leaves whose depths differ by two. */
  lemma NearlyLevel(c: seq<Leaf>, top: nat, m: nat)
    requires 2 <= |c| && Within(c, top) && Kraft(c, top) <= Pow2(top)
    requires forall k :: 0 <= k < |c| ==> c[k].weight == Weight(1, 0)
    requires PathLength(c) == HuffmanCost(multiset(Weights(c)))
    requires c[0].length == c[1].length && m < |c|
    ensures c[0].length <= c[m].length + 1
  {
    hide Kraft, PathLength, HuffmanCost, Within, Pow2;
    if c[0].length > c[m].length + 1 {
      UnlevelCostsMore(c, top, m);
    }
  }

  lemma LevelledSums(c: seq<Leaf>, a: seq<Leaf>, b: seq<Leaf>, d: seq<Leaf>, top: nat, m: nat)
    requires 2 <= |c| && Within(c, top) && 2 <= m < |c| && c[0].length == c[1].length && c[0].length > c[m].length + 1
    requires forall k :: 0 <= k < |c| ==> c[k].weight == Weight(1, 0)
    requires a == c[0 := Leaf(Weight(1, 0), c[0].length - 1)] && b == a[1 := Leaf(Weight(1, 0), c[m].length + 1)]
             && d == b[m := Leaf(Weight(1, 0), c[m].length + 1)]
    ensures Within(d, top) && Kraft(d, top) == Kraft(c, top) && PathLength(d) < PathLength(c)
  {
    hide Sum;
    var deep, high := c[0].length, c[m].length;
    SumUpdate(c, Share(top), 0, Leaf(Weight(1, 0), deep - 1));
    SumUpdate(a, Share(top), 1, Leaf(Weight(1, 0), high + 1));
    SumUpdate(b, Share(top), m, Leaf(Weight(1, 0), high + 1));
    SumUpdate(c, Bits(), 0, Leaf(Weight(1, 0), deep - 1));
    SumUpdate(a, Bits(), 1, Leaf(Weight(1, 0), high + 1));
    SumUpdate(b, Bits(), m, Leaf(Weight(1, 0), high + 1));
    assert ShareOf(top, deep - 1) == 2 * ShareOf(top, deep);
    assert ShareOf(top, high) == 2 * ShareOf(top, high + 1);
    assert Within(d, top) by {
      assert c[0].length <= top && c[m].length <= top;
    }
  }

  lemma {:induction false} SumAtMostEach(c: seq<Leaf>, f: Leaf -> int, m: int)
    requires forall i :: 0 <= i < |c| ==> f(c[i]) <= m
    ensures Sum(c, f) <= |c| * m
  {
    if c != [] {
      SumAtMostEach(c[..|c| - 1], f, m);
    }
  }

  /** Leaves none of which is above level deep-1, and one below it, are more than 2^(deep-1). */
  lemma DeepNeedsMore(c: seq<Leaf>, top: nat, deep: nat)
    requires c != [] && Within(c, top) && Kraft(c, top) == Pow2(top) && 0 < deep && c[0].length == deep
    requires forall k :: 0 <= k < |c| ==> deep - 1 <= c[k].length
    ensures Pow2(deep - 1) < |c|
  {
    hide Sum, Pow2, ShareOf, Without;
    forall k | 0 <= k < |c| ensures Share(top)(c[k]) <= ShareOf(top, deep - 1) {
      ShareShrinks(top, deep - 1, c[k].length);
    }
    ItemsWithout(c, 0);
    SumWithout(c, Share(top), 0);
    SumAtMostEach(Without(c, 0), Share(top), ShareOf(top, deep - 1));
    ShareHalves(top, deep);
    CannotFill(|c|, ShareOf(top, deep), ShareOf(top, deep - 1), Pow2(top), Pow2(deep - 1));
  }

  /** Equal weights give a tree no deeper than the limit, if that many leaves fit at all. */
  lemma EqualWeightsFit(c: seq<Leaf>, top: nat, maxbits: nat)
    requires 2 <= |c| && Within(c, top) && Kraft(c, top) == Pow2(top)
    requires forall k :: 0 <= k < |c| ==> c[k].weight == Weight(1, 0)
    requires PathLength(c) == HuffmanCost(multiset(Weights(c)))
    requires c[0].length == c[1].length && |c| <= Pow2(maxbits)
    ensures c[0].length <= maxbits
  {
    hide Kraft, PathLength, HuffmanCost, Within, Pow2, Weights;
    var deep := c[0].length;
    forall k | 0 <= k < |c| ensures deep - 1 <= c[k].length {
      NearlyLevel(c, top, k);
    }
    if deep > maxbits {
      DeepNeedsMore(c, top, deep);
      Pow2Monotone(maxbits, deep - 1);
    }
  }

  lemma ShareShrinks(top: nat, short: nat, long: nat)
    requires short <= long <= top
    ensures ShareOf(top, long) <= ShareOf(top, short)
  {
    Pow2Monotone(top - long, top - short);
  }

  lemma ShareHalves(top: nat, deep: nat)
    requires 0 < deep <= top
    ensures 2 * ShareOf(top, deep) == ShareOf(top, deep - 1) && 0 < ShareOf(top, deep)
    ensures Pow2(top) == Pow2(deep - 1) * ShareOf(top, deep - 1)
  {
    Pow2Add(deep - 1, top - deep + 1);
  }

  lemma CannotFill(n: nat, small: nat, large: nat, full: nat, places: nat)
    requires 2 * small == large && 0 < small && full == places * large && 1 <= n
    requires full <= (n - 1) * large + small
    ensures places < n
  {
    if n <= places {
      LeavesGap(n, small, large, places);
    }
  }

  lemma LeavesGap(n: nat, small: nat, large: nat, places: nat)
    requires small < large && 1 <= n <= places
    ensures (n - 1) * large + small < places * large
  {
    ScaleLe(large, n, places);
    assert (n - 1) * large + large == n * large;
  }

  // ----- the restart loop -----

  ghost predicate Positive(sorted: seq<int>, freq: seq<nat>) {
    forall k :: 0 <= k < |sorted| ==> 1 <= At(freq, sorted[k])
  }

  /** Halves every frequency on the list, rounding up. */
  method HalveFrequencies(sorted: seq<int>, freq: seq<nat>) returns (half: seq<nat>)
    requires SortedLeaves(|sorted|, sorted, freq)
    ensures |half| == |freq|
    ensures forall k :: 0 <= k < |sorted| ==> half[sorted[k]] == (freq[sorted[k]] + 1) / 2
  {
    half := freq;
    for i := 0 to |sorted|
      invariant |half| == |freq|
      invariant forall k :: 0 <= k < |sorted| ==>
                  half[sorted[k]] == if k < i then (freq[sorted[k]] + 1) / 2 else freq[sorted[k]]
    {
      half := half[sorted[i] := (half[sorted[i]] + 1) / 2];
    }
  }

  lemma HalvedStaysSorted(sorted: seq<int>, freq: seq<nat>, half: seq<nat>)
    requires SortedLeaves(|sorted|, sorted, freq) && Positive(sorted, freq) && |half| == |freq|
    requires forall k :: 0 <= k < |sorted| ==> half[sorted[k]] == (freq[sorted[k]] + 1) / 2
    ensures SortedLeaves(|sorted|, sorted, half) && Positive(sorted, half)
  {
    var a, b := Listed(sorted, freq), Listed(sorted, half);
    forall i, j | 0 <= i < j < |b| ensures b[i] <= b[j] {
      assert a[i] <= a[j];
    }
  }

  lemma {:induction false} SumLess(a: seq<nat>, b: seq<nat>)
    requires |a| == |b| && forall k :: 0 <= k < |a| ==> b[k] <= a[k]
    ensures SumOf(b) <= SumOf(a)
    ensures (exists k :: 0 <= k < |a| && b[k] < a[k]) ==> SumOf(b) < SumOf(a)
  {
    if a != [] {
      var last := |a| - 1;
      SumLess(a[..last], b[..last]);
      if k :| 0 <= k < |a| && b[k] < a[k] && k < last {
        assert b[..last][k] < a[..last][k];
      }
    }
  }

  /** If the tree is too deep, some frequency is above one, so halving lowers their sum. */
  lemma HalvingProgresses(sorted: seq<int>, freq: seq<nat>, half: seq<nat>, bits: seq<nat>, top: nat, maxbits: nat)
    requires 2 <= |sorted| && SortedLeaves(|sorted|, sorted, freq) && Positive(sorted, freq) && |half| == |freq|
    requires forall k :: 0 <= k < |sorted| ==> half[sorted[k]] == (freq[sorted[k]] + 1) / 2
    requires Within(Coded(sorted, freq, bits), top) && Kraft(Coded(sorted, freq, bits), top) == Pow2(top)
    requires PathLength(Coded(sorted, freq, bits)) == HuffmanCost(multiset(ListedSymbols(sorted, freq)))
    requires At(bits, sorted[0]) == At(bits, sorted[1]) && |sorted| <= Pow2(maxbits) && At(bits, sorted[0]) > maxbits
    ensures SumOf(Listed(sorted, half)) < SumOf(Listed(sorted, freq))
  {
    hide Kraft, PathLength, HuffmanCost, Pow2;
    var c, a, b := Coded(sorted, freq, bits), Listed(sorted, freq), Listed(sorted, half);
    if k :| 0 <= k < |sorted| && a[k] > 1 {
      assert b[k] < a[k];
      SumLess(a, b);
    } else {
      assert Weights(c) == ListedSymbols(sorted, freq);
      EqualWeightsFit(c, top, maxbits);
    }
  }

  // ----- how deep a tree can be -----

  /** No node is deeper than the root is high. */
  lemma {:induction false} DepthWithinHeight(n: nat, sorted: seq<int>, order: seq<int>, bits: seq<nat>,
                                             made: seq<Weight>, k: nat)
    requires IsTree(n, sorted, order) && Depths(n, order, bits) && SonsLower(n, order, made) && k < |order|
    ensures bits[order[k]] + HeightOf(n, made, order[k]) <= made[n - 2].height
    decreases |order| - k
  {
    hide Mixes;
    if k / 2 < n - 2 {
      var l := FatherPlace(n, sorted, order, k);
      DepthWithinHeight(n, sorted, order, bits, made, l);
    }
  }

  /** An inner node other than the root is picked after its sons. */
  lemma FatherPlace(n: nat, sorted: seq<int>, order: seq<int>, k: nat) returns (l: nat)
    requires IsTree(n, sorted, order) && k / 2 < n - 2
    ensures l < |order| && order[l] == n + k / 2 && k / 2 < l / 2
  {
    l := MixedPlace(order, sorted, Numbers(n, 2 * n - 2), k / 2);
  }

  ghost predicate Ascends(order: seq<int>, all: seq<nat>) {
    forall i, j :: 0 <= i < j < |order| ==> At(all, order[i]) <= At(all, order[j])
  }

  /** Two levels up the frequency has doubled: the brother of the father was picked no sooner than the node. */
  lemma {:induction false} FrequencyDoubles(n: nat, sorted: seq<int>, order: seq<int>, bits: seq<nat>, all: seq<nat>,
                                            k: nat)
    requires IsTree(n, sorted, order) && Depths(n, order, bits) && Sums(n, order, all) && k < |order|
    requires Ascends(order, all)
    requires 1 <= At(all, order[k])
    ensures Pow2(bits[order[k]] / 2) <= At(all, 2 * n - 2) && At(all, order[k]) <= At(all, 2 * n - 2)
    ensures Pow2(bits[order[k]] / 2) * At(all, order[k]) <= At(all, 2 * n - 2)
    decreases |order| - k
  {
    hide Mixes, Pow2, Ascends, Sums;
    PowZero();
    FatherHeavier(n, order, bits, all, k);
    if k / 2 < n - 2 {
      var l := FatherPlace(n, sorted, order, k);
      FatherHeavier(n, order, bits, all, l);
      FatherHeavierTwice(n, order, all, k, l);
      if l / 2 < n - 2 {
        var m := FatherPlace(n, sorted, order, l);
        FrequencyDoubles(n, sorted, order, bits, all, m);
        Doubling(bits[order[m]], bits[order[k]], At(all, order[k]), At(all, order[m]), At(all, 2 * n - 2));
      } else {
        Doubling(0, bits[order[k]], At(all, order[k]), At(all, 2 * n - 2), At(all, 2 * n - 2));
      }
    } else {
      ScaleUp(Pow2(bits[order[k]] / 2), At(all, order[k]));
    }
  }

  lemma ScaleUp(a: nat, b: nat)
    requires 1 <= b
    ensures a <= a * b
  {
  }

  lemma FatherHeavier(n: nat, order: seq<int>, bits: seq<nat>, all: seq<nat>, k: nat)
    requires Depths(n, order, bits) && Sums(n, order, all) && k < |order|
    ensures At(all, n + k / 2) == At(all, order[2 * (k / 2)]) + At(all, order[2 * (k / 2) + 1])
    ensures At(all, order[k]) <= At(all, n + k / 2) && bits[order[k]] == bits[n + k / 2] + 1
    ensures k / 2 == n - 2 ==> bits[order[k]] == 1
  {
  }

  lemma FatherHeavierTwice(n: nat, order: seq<int>, all: seq<nat>, k: nat, l: nat)
    requires Sums(n, order, all) && k < |order| && l < |order| && k / 2 < l / 2 && order[l] == n + k / 2
    requires Ascends(order, all)
    ensures 2 * At(all, order[k]) <= At(all, n + l / 2)
  {
    hide At;
    var t := l / 2;
    assert At(all, n + t) == At(all, order[2 * t]) + At(all, order[2 * t + 1]);
    assert k < 2 * t;
  }

  lemma Doubling(high: nat, low: nat, w: nat, v: nat, root: nat)
    requires low == high + 2 && 1 <= w && 2 * w <= v && Pow2(high / 2) * v <= root
    ensures Pow2(low / 2) * w <= root && Pow2(low / 2) <= root && w <= root
  {
    assert low / 2 == high / 2 + 1;
    PowNext(high / 2);
    var p := Pow2(high / 2);
    ScaleLe(p, 2 * w, v);
    assert 2 * p * w == p * (2 * w);
    ScaleUp(2 * p, w);
    ScaleUp(w, 2 * p);
  }

  /** The root's frequency is that of all leaves. */
  lemma RootFrequency(n: nat, sorted: seq<int>, order: seq<int>, all: seq<nat>)
    requires IsTree(n, sorted, order) && Sums(n, order, all)
    ensures At(all, 2 * n - 2) == Total(sorted, Weighing(all))
  {
    hide Mixes, Total;
    var w := Weighing(all);
    PairTotal(n, order, w, w, n - 1);
    assert order[..2 * (n - 1)] == order;
    MixedTotal(order, sorted, Numbers(n, 2 * n - 2), w);
    RootLast(n, w);
  }

  lemma {:induction false} WeighedAtMost(sorted: seq<int>, all: seq<nat>, m: nat)
    requires forall k :: 0 <= k < |sorted| ==> At(all, sorted[k]) <= m
    ensures Total(sorted, Weighing(all)) <= |sorted| * m
  {
    if sorted != [] {
      WeighedAtMost(sorted[..|sorted| - 1], all, m);
    }
  }

  /** Frequencies below 2^16 of at most 2^15 symbols keep the tree far from 256 levels. */
  lemma DepthLimited(n: nat, sorted: seq<int>, order: seq<int>, freq: seq<nat>, inner: seq<nat>, left: seq<int>,
                     right: seq<int>, bits: seq<nat>)
    requires IsTree(n, sorted, order) && Depths(n, order, bits) && SonsMerged(n, order, freq, inner, left, right)
             && |inner| == n - 1
    requires exists bound :: PicksRise(freq, inner, order, bound)
    requires SortedLeaves(n, sorted, freq) && Positive(sorted, freq) && n <= 0x8000
             && (forall k :: 0 <= k < n ==> freq[sorted[k]] < 0x10000)
    ensures forall k :: 0 <= k < |order| ==> bits[order[k]] < 64
  {
    hide Mixes, Pow2, PicksRise, Total;
    var all := freq + inner;
    assert Sums(n, order, all) by {
      assert forall t :: 0 <= t < n - 1 ==>
               inner[t] == Value(freq, inner, order[2 * t]) + Value(freq, inner, order[2 * t + 1]);
    }
    RootFrequency(n, sorted, order, all);
    WeighedAtMost(sorted, all, 0xffff);
    FirstTwoPicks(n, sorted, order);
    FirstLeafDeepest(n, sorted, order, bits);
    RiseAsValues(freq, inner, order);
    FrequencyDoubles(n, sorted, order, bits, all, 0);
    if bits[sorted[0]] >= 64 {
      Pow2Monotone(32, bits[sorted[0]] / 2);
      Pow32();
    }
  }

  lemma RiseAsValues(freq: seq<nat>, inner: seq<nat>, order: seq<int>)
    requires exists bound :: PicksRise(freq, inner, order, bound)
    ensures forall i, j :: 0 <= i < j < |order| ==> At(freq + inner, order[i]) <= At(freq + inner, order[j])
  {
    assert forall i :: 0 <= i < |order| ==> At(freq + inner, order[i]) == Value(freq, inner, order[i]);
  }

  // ----- the restart loop as a whole -----

  /** A 2^r-th part, rounded up. */
  function Part(x: nat, r: nat): nat { (x + Pow2(r) - 1) / Pow2(r) }

  /** It is the least number of 2^r-th parts that cover `x`. */
  lemma PartBounds(x: nat, r: nat)
    ensures x <= Part(x, r) * Pow2(r) < x + Pow2(r)
  {
    hide Pow2;
    RoundedUp(x, Pow2(r));
  }

  lemma RoundedUp(x: nat, p: nat)
    requires 0 < p
    ensures x <= (x + p - 1) / p * p < x + p
  {
  }

  lemma PartIs(x: nat, r: nat, q: nat)
    requires x <= q * Pow2(r) < x + Pow2(r)
    ensures Part(x, r) == q
  {
    hide Pow2, Part;
    PartBounds(x, r);
    NotMore(Part(x, r), q, Pow2(r));
    NotMore(q, Part(x, r), Pow2(r));
  }

  lemma NotMore(a: nat, b: nat, p: nat)
    requires a * p < b * p + p
    ensures a <= b
  {
    if b + 1 <= a {
      ScaleLe(p, b + 1, a);
    }
  }

  lemma PartNext(x: nat, r: nat)
    ensures Part(x, 0) == x && (Part(x, r) + 1) / 2 == Part(x, r + 1)
  {
    hide Pow2, Part;
    PowZero();
    PowNext(r);
    PartIs(x, 0, x);
    PartBounds(x, r);
    HalfCovers(x, Pow2(r), Part(x, r));
    PartIs(x, r + 1, (Part(x, r) + 1) / 2);
  }

  lemma HalfCovers(x: nat, p: nat, q: nat)
    requires x <= q * p < x + p
    ensures x <= (q + 1) / 2 * (2 * p) < x + 2 * p
  {
    var h := (q + 1) / 2;
    if q == 2 * h {
      Doubled(h, p);
    } else {
      assert q + 1 == 2 * h;
      Doubled(h, p);
      assert (q + 1) * p == q * p + p;
    }
  }

  lemma Doubled(h: nat, p: nat)
    ensures h * (2 * p) == (2 * h) * p
  {
  }

  /** The frequencies after `r` restarts. */
  ghost function Halved(freq: seq<nat>, r: nat): (h: seq<nat>)
    ensures |h| == |freq| && forall s :: 0 <= s < |freq| ==> h[s] == Part(freq[s], r)
  {
    seq(|freq|, s requires 0 <= s < |freq| => Part(freq[s], r))
  }

  /** The listed frequencies are those after `r` restarts. */
  ghost predicate Restarted(sorted: seq<int>, freq: seq<nat>, current: seq<nat>, r: nat) {
    Listed(sorted, current) == Listed(sorted, Halved(freq, r))
  }

  lemma RestartedNone(sorted: seq<int>, freq: seq<nat>)
    ensures Restarted(sorted, freq, freq, 0) && Halved(freq, 0) == freq
  {
    forall s | 0 <= s < |freq| ensures Part(freq[s], 0) == freq[s] {
      PartNext(freq[s], 0);
    }
    assert Halved(freq, 0) == freq;
  }

  lemma RestartedAgain(sorted: seq<int>, freq: seq<nat>, current: seq<nat>, half: seq<nat>, r: nat)
    requires Restarted(sorted, freq, current, r) && |half| == |current| == |freq|
    requires SortedLeaves(|sorted|, sorted, current)
    requires forall k :: 0 <= k < |sorted| ==> half[sorted[k]] == (current[sorted[k]] + 1) / 2
    ensures Restarted(sorted, freq, half, r + 1)
  {
    hide Part;
    var a, b := Listed(sorted, half), Listed(sorted, Halved(freq, r + 1));
    forall k | 0 <= k < |sorted| ensures a[k] == b[k] {
      var s := sorted[k];
      assert 0 <= s < |freq|;
      assert Listed(sorted, current)[k] == Listed(sorted, Halved(freq, r))[k];
      PartNext(freq[s], r);
    }
  }

  /** The leaves depend on the listed frequencies only. */
  lemma RestartedLeaves(sorted: seq<int>, freq: seq<nat>, current: seq<nat>, r: nat, bits: seq<nat>)
    requires Restarted(sorted, freq, current, r)
    ensures ListedSymbols(sorted, current) == ListedSymbols(sorted, Halved(freq, r))
    ensures Coded(sorted, current, bits) == Coded(sorted, Halved(freq, r), bits)
  {
    hide Listed;
    forall k | 0 <= k < |sorted| ensures At(current, sorted[k]) == At(Halved(freq, r), sorted[k]) {
      assert Listed(sorted, current)[k] == Listed(sorted, Halved(freq, r))[k];
    }
  }

  /** Before restart `r` the least depth of an optimal tree was above the limit. */
  ghost predicate TooDeep(sorted: seq<int>, freq: seq<nat>, maxbits: nat, r: nat) {
    forall j :: 0 <= j < r ==> HuffmanHeight(multiset(ListedSymbols(sorted, Halved(freq, j)))) > maxbits
  }

  lemma TooDeepNone(sorted: seq<int>, freq: seq<nat>, maxbits: nat)
    ensures TooDeep(sorted, freq, maxbits, 0)
  {
  }

  lemma TooDeepNext(sorted: seq<int>, freq: seq<nat>, maxbits: nat, r: nat)
    requires TooDeep(sorted, freq, maxbits, r)
    requires HuffmanHeight(multiset(ListedSymbols(sorted, Halved(freq, r)))) > maxbits
    ensures TooDeep(sorted, freq, maxbits, r + 1)
  {
    hide HuffmanHeight, ListedSymbols, Halved;
  }

  /** Lengths of at most `maxbits` that fill the code space exactly. They are the best of all exactly if the least
      depth of an optimal tree is within the limit: the tree built first has that depth. In general they are the best,
      and of least depth, for the frequencies after the first number of restarts for which that depth is within the
      limit. */
  method LimitLengths(sorted: seq<int>, freq: seq<nat>, maxbits: nat)
    returns (bits: seq<nat>, ghost best: seq<nat>, ghost top: nat, ghost r: nat)
    requires 2 <= |sorted| <= Pow2(maxbits) && SortedLeaves(|sorted|, sorted, freq) && Positive(sorted, freq)
    requires |sorted| <= 0x8000 && forall k :: 0 <= k < |sorted| ==> freq[sorted[k]] < 0x10000
    requires multiset(sorted) == multiset(Numbers(0, |sorted|))
    ensures |bits| == |sorted|
    ensures Within(Coded(sorted, freq, bits), maxbits) && Kraft(Coded(sorted, freq, bits), maxbits) == Pow2(maxbits)
    ensures forall i, j :: 0 <= i < j < |sorted| ==> bits[sorted[j]] <= bits[sorted[i]]
    ensures forall k :: 0 <= k < |sorted| ==> 1 <= bits[sorted[k]]
    ensures PathLength(Coded(sorted, freq, bits)) == HuffmanCost(multiset(ListedSymbols(sorted, freq)))
      <==> HuffmanHeight(multiset(ListedSymbols(sorted, freq))) <= maxbits
    ensures PathLength(Coded(sorted, Halved(freq, r), bits))
         == HuffmanCost(multiset(ListedSymbols(sorted, Halved(freq, r))))
    ensures var depth := HuffmanHeight(multiset(ListedSymbols(sorted, Halved(freq, r))));
      depth <= maxbits && forall k :: 0 <= k < |sorted| ==> bits[sorted[k]] <= depth
    ensures TooDeep(sorted, freq, maxbits, r)
    ensures IsBest(sorted, freq, best, top)
  {
    hide Kraft, PathLength, HuffmanCost, HuffmanHeight, Pow2, Within, IsTree, Depths, SonsMerged, Shape, Positive,
         SumOf, ListedSymbols, SonsLower, PicksRise, IsBest, Halved, Restarted, TooDeep, Coded, Listed;
    var n := |sorted|;
    var current := freq;
    best, top, r := [], 0, 0;
    RestartedNone(sorted, freq);
    TooDeepNone(sorted, freq, maxbits);
    while true
      invariant SortedLeaves(n, sorted, current) && Positive(sorted, current)
      invariant forall k :: 0 <= k < n ==> current[sorted[k]] < 0x10000
      invariant |current| == |freq| && Restarted(sorted, freq, current, r) && (r == 0 ==> current == freq)
      invariant TooDeep(sorted, freq, maxbits, r)
      invariant 0 < r ==> Halved(freq, 0) == freq
      invariant 0 < r ==>
                  HuffmanHeight(multiset(ListedSymbols(sorted, freq))) > maxbits && IsBest(sorted, freq, best, top)
      decreases SumOf(Listed(sorted, current))
    {
      var inner, left, right;
      ghost var order, made;
      inner, left, right, order, made := BuildTree(sorted, current);
      TreeShape(n, sorted, current, order);
      SonsOrder(n, order, current, inner, left, right);
      ghost var depth := DepthsExist(n, order);
      DepthLimited(n, sorted, order, current, inner, left, right, depth);
      var all := EvaluateLengths(n, left, right, order, depth);
      DepthFacts(n, sorted, order, all);
      TreeCost(n, sorted, order, current, inner, left, right, all, all[sorted[0]]);
      FirstTreeLowest(n, sorted, order, all, made);
      if r == 0 {
        best, top := all[..n], all[sorted[0]];
        BestSoFar(sorted, freq, all, best, top);
      }
      if all[sorted[0]] <= maxbits {
        TreeCost(n, sorted, order, current, inner, left, right, all, maxbits);
        bits := all[..n];
        SameLengths(sorted, current, freq, all, bits, maxbits);
        SameLengths(sorted, current, current, all, bits, maxbits);
        CheapIsLow(sorted, freq, bits, maxbits);
        CheapIsLow(sorted, current, bits, maxbits);
        RestartedLeaves(sorted, freq, current, r, bits);
        break;
      }
      RestartedLeaves(sorted, freq, current, r, all);
      TooDeepNext(sorted, freq, maxbits, r);
      var half := HalveFrequencies(sorted, current);
      HalvedStaysSorted(sorted, current, half);
      HalvingProgresses(sorted, current, half, all, all[sorted[0]], maxbits);
      RestartedAgain(sorted, freq, current, half, r);
      current, r := half, r + 1;
    }
  }

  /** Lengths of any size that attain the least cost: those of the tree that is built first. */
  ghost predicate IsBest(sorted: seq<int>, freq: seq<nat>, best: seq<nat>, top: nat) {
    && |best| == |sorted| && (forall k :: 0 <= k < |best| ==> 1 <= best[k])
    && Within(Coded(sorted, freq, best), top) && Kraft(Coded(sorted, freq, best), top) == Pow2(top)
    && PathLength(Coded(sorted, freq, best)) == HuffmanCost(multiset(ListedSymbols(sorted, freq)))
  }

  lemma BestSoFar(sorted: seq<int>, freq: seq<nat>, all: seq<nat>, best: seq<nat>, top: nat)
    requires |best| == |sorted| <= |all| && best == all[..|sorted|] && SortedLeaves(|sorted|, sorted, freq)
    requires forall k :: 0 <= k < |sorted| ==> 1 <= all[sorted[k]]
    requires multiset(sorted) == multiset(Numbers(0, |sorted|))
    requires Within(Coded(sorted, freq, all), top) && Kraft(Coded(sorted, freq, all), top) == Pow2(top)
    requires PathLength(Coded(sorted, freq, all)) == HuffmanCost(multiset(ListedSymbols(sorted, freq)))
    ensures IsBest(sorted, freq, best, top)
  {
    hide Kraft, PathLength, HuffmanCost, Pow2;
    SameLengths(sorted, freq, freq, all, best, top);
    forall k | 0 <= k < |best| ensures 1 <= best[k] {
      assert k == Numbers(0, |sorted|)[k];
      assert k in multiset(Numbers(0, |sorted|));
      assert k in multiset(sorted);
    }
  }

  /** Lengths within the limit that attain the least cost bound the least depth. */
  lemma CheapIsLow(sorted: seq<int>, freq: seq<nat>, bits: seq<nat>, maxbits: nat)
    requires sorted != [] && Within(Coded(sorted, freq, bits), maxbits)
             && Kraft(Coded(sorted, freq, bits), maxbits) <= Pow2(maxbits)
    ensures PathLength(Coded(sorted, freq, bits)) == HuffmanCost(multiset(ListedSymbols(sorted, freq))) ==>
      HuffmanHeight(multiset(ListedSymbols(sorted, freq))) <= maxbits
  {
    hide Kraft, PathLength, HuffmanCost, HuffmanHeight, Pow2;
    var c := Coded(sorted, freq, bits);
    assert Weights(c) == ListedSymbols(sorted, freq);
    LowerBound(c, maxbits, maxbits);
  }

  lemma FirstTreeLowest(n: nat, sorted: seq<int>, order: seq<int>, bits: seq<nat>, made: seq<Weight>)
    requires IsTree(n, sorted, order) && Depths(n, order, bits) && SonsLower(n, order, made)
    ensures |made| == n - 1 && 0 <= sorted[0] < |bits| && bits[sorted[0]] <= made[n - 2].height
  {
    hide Mixes, HeightOf;
    FirstTwoPicks(n, sorted, order);
    DepthWithinHeight(n, sorted, order, bits, made, 0);
  }

  lemma SonsOrder(n: nat, order: seq<int>, freq: seq<nat>, inner: seq<nat>, left: seq<int>, right: seq<int>)
    requires SonsMerged(n, order, freq, inner, left, right)
    ensures |left| == |right| == |inner| && 2 * |inner| == |order|
    ensures forall t :: 0 <= t < |inner| ==> left[t] == order[2 * t] && right[t] == order[2 * t + 1]
  {
  }

  lemma DepthFacts(n: nat, sorted: seq<int>, order: seq<int>, bits: seq<nat>)
    requires IsTree(n, sorted, order) && Depths(n, order, bits)
    ensures |bits| == 2 * n - 1 && |sorted| == n && forall k :: 0 <= k < n ==> 0 <= sorted[k] < n
    ensures forall i, j :: 0 <= i < j < n ==> bits[sorted[j]] <= bits[sorted[i]]
    ensures forall k :: 0 <= k < n ==> 1 <= bits[sorted[k]]
    ensures bits[sorted[1]] == bits[sorted[0]]
  {
    forall i, j | 0 <= i < j < n ensures bits[sorted[j]] <= bits[sorted[i]] {
      LaterLeafNoDeeper(n, sorted, order, bits, i, j);
    }
    MixesCommute(order, sorted, Numbers(n, 2 * n - 2));
    forall i | 0 <= i < n ensures 1 <= bits[sorted[i]] {
      var k := MixedPlace(order, Numbers(n, 2 * n - 2), sorted, i);
    }
    FirstLeafDeepest(n, sorted, order, bits);
  }

  /** Only the lengths of the leaves matter to the Kraft sum, and nothing but them to the caller. */
  lemma SameLengths(sorted: seq<int>, current: seq<nat>, freq: seq<nat>, all: seq<nat>, bits: seq<nat>, top: nat)
    requires |bits| <= |all| && bits == all[..|bits|] && forall k :: 0 <= k < |sorted| ==> 0 <= sorted[k] < |bits|
    ensures Kraft(Coded(sorted, freq, bits), top) == Kraft(Coded(sorted, current, all), top)
    ensures Within(Coded(sorted, current, all), top) ==> Within(Coded(sorted, freq, bits), top)
    ensures freq == current ==> Coded(sorted, freq, bits) == Coded(sorted, current, all)
  {
    CodedSums(sorted, freq, bits, top);
    CodedSums(sorted, current, all, top);
    SameShare(sorted, all, bits, top);
  }

  lemma {:induction false} SameShare(sorted: seq<int>, all: seq<nat>, bits: seq<nat>, top: nat)
    requires |bits| <= |all| && bits == all[..|bits|] && forall k :: 0 <= k < |sorted| ==> 0 <= sorted[k] < |bits|
    ensures Total(sorted, Sharing(bits, top)) == Total(sorted, Sharing(all, top))
  {
    if sorted != [] {
      SameShare(sorted[..|sorted| - 1], all, bits, top);
    }
  }
}
