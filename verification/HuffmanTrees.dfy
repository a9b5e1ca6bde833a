/** The tree the encoder builds, described by the order in which its nodes are picked. */
module HuffmanTrees {
  // With `n` leaves numbered 0 .. n-1, inner nodes n, n+1, ... are made one after the other; inner node n+s gets as
  // sons the nodes picked at steps 2s and 2s+1. The root is node 2n-2.

  import opened Totals
  import opened PrefixCodes

  // ----- two queues -----

  /** Lightest first, and among equal frequencies the lowest first. */
  ghost predicate Ascending(s: seq<Weight>) {
    forall i, j :: 0 <= i < j < |s| ==> NoHeavier(s[i], s[j])
  }

  ghost predicate Symbols(s: seq<Weight>) {
    forall i :: 0 <= i < |s| ==> s[i].height == 0
  }

  /** Everything not yet picked: leaves from `p` on and inner nodes from `q` on. */
  ghost function Pool(leaves: seq<Weight>, inner: seq<Weight>, p: nat, q: nat): multiset<Weight>
    requires p <= |leaves| && q <= |inner|
  {
    multiset(leaves[p..]) + multiset(inner[q..])
  }

  /** The least tree `x` is taken from the head of its queue. */
  ghost predicate Takes(leaves: seq<Weight>, inner: seq<Weight>, p: nat, q: nat, x: Weight, p': nat, q': nat) {
    && p <= |leaves| && q <= |inner| && IsMin(Pool(leaves, inner, p, q), x)
    && ((p' == p + 1 <= |leaves| && q' == q && x == leaves[p]) || (q' == q + 1 <= |inner| && p' == p && x == inner[q]))
  }

  /** The heads of two ascending queues: the smaller one, and on a tie the symbol, is the least of all. */
  lemma LeastHead(leaves: seq<Weight>, inner: seq<Weight>, p: nat, q: nat)
    requires Ascending(leaves) && Ascending(inner) && Symbols(leaves) && p <= |leaves| && q <= |inner|
    ensures p < |leaves| && (q == |inner| || leaves[p].freq <= inner[q].freq) ==>
              IsMin(Pool(leaves, inner, p, q), leaves[p])
    ensures q < |inner| && (p == |leaves| || leaves[p].freq > inner[q].freq) ==>
              IsMin(Pool(leaves, inner, p, q), inner[q])
  {
    forall y | y in Pool(leaves, inner, p, q)
      ensures (p < |leaves| && NoHeavier(leaves[p], y)) || (q < |inner| && NoHeavier(inner[q], y))
    {
      if y in multiset(leaves[p..]) {
        var i :| 0 <= i < |leaves[p..]| && leaves[p..][i] == y;
        assert leaves[p + i] == y;
      } else {
        var i :| 0 <= i < |inner[q..]| && inner[q..][i] == y;
        assert inner[q + i] == y;
      }
    }
    if q < |inner| {
      assert inner[q] in inner[q..] by { assert inner[q..][0] == inner[q]; }
    }
    if p < |leaves| {
      assert leaves[p] in leaves[p..] by { assert leaves[p..][0] == leaves[p]; }
    }
  }

  lemma TakeOne(m: multiset<Weight>, s: seq<Weight>)
    requires s != []
    ensures m + multiset(s[1..]) == Less(m + multiset(s), s[0])
  {
    assert s == [s[0]] + s[1..];
  }

  lemma PoolAfterTaking(leaves: seq<Weight>, inner: seq<Weight>, p: nat, q: nat)
    requires p <= |leaves| && q <= |inner|
    ensures q < |inner| ==> Pool(leaves, inner, p, q + 1) == Less(Pool(leaves, inner, p, q), inner[q])
    ensures p < |leaves| ==> Pool(leaves, inner, p + 1, q) == Less(Pool(leaves, inner, p, q), leaves[p])
  {
    hide Less;
    if q < |inner| {
      TakeOne(multiset(leaves[p..]), inner[q..]);
      assert inner[q..][1..] == inner[q + 1..];
    }
    if p < |leaves| {
      TakeOne(multiset(inner[q..]), leaves[p..]);
      assert leaves[p..][1..] == leaves[p + 1..];
      assert multiset(inner[q..]) + multiset(leaves[p..]) == Pool(leaves, inner, p, q);
      assert multiset(inner[q..]) + multiset(leaves[p + 1..]) == Pool(leaves, inner, p + 1, q);
    }
  }

  lemma PoolGrows(leaves: seq<Weight>, inner: seq<Weight>, p: nat, q: nat, x: Weight)
    requires p <= |leaves| && q <= |inner|
    ensures Pool(leaves, inner + [x], p, q) == More(Pool(leaves, inner, p, q), x)
  {
    assert (inner + [x])[q..] == inner[q..] + [x];
  }

  lemma PoolSize(leaves: seq<Weight>, inner: seq<Weight>, p: nat, q: nat)
    requires p <= |leaves| && q <= |inner|
    ensures |Pool(leaves, inner, p, q)| == |leaves| - p + |inner| - q
  {
  }

  lemma TakesLeast(leaves: seq<Weight>, inner: seq<Weight>, p: nat, q: nat, x: Weight, p': nat, q': nat)
    requires Takes(leaves, inner, p, q, x, p', q')
    ensures p' <= |leaves| && q' <= |inner| && p' + q' == p + q + 1 && |Pool(leaves, inner, p, q)| > 0
    ensures x == MinOf(Pool(leaves, inner, p, q)) && Pool(leaves, inner, p', q') == Less(Pool(leaves, inner, p, q), x)
  {
    hide Pool, Less;
    PoolAfterTaking(leaves, inner, p, q);
    PoolSize(leaves, inner, p, q);
    MinUnique(Pool(leaves, inner, p, q), x);
  }

  /** The two queues between two merges: nothing left is lighter than `bound`, the weight taken last, and the newest
      inner weight is at most that of two such trees joined. */
  ghost predicate Queues(leaves: seq<Weight>, inner: seq<Weight>, p: nat, q: nat, bound: Weight) {
    && Ascending(leaves) && Symbols(leaves) && Ascending(inner) && p <= |leaves| && q <= |inner|
    && (forall x :: x in Pool(leaves, inner, p, q) ==> NoHeavier(bound, x))
    && (inner != [] ==> NoHeavier(inner[|inner| - 1], United(bound, bound)))
  }

  ghost function SumOf(s: seq<nat>): nat {
    if s == [] then 0 else SumOf(s[..|s| - 1]) + s[|s| - 1]
  }

  /** One merge takes the two lightest, so it is a step of Huffman's cost and height, and keeps the inner weights
      ascending. */
  lemma MergeTakesLightest(leaves: seq<Weight>, inner: seq<Weight>, p: nat, q: nat, bound: Weight,
                           x: Weight, p1: nat, q1: nat, y: Weight, p2: nat, q2: nat)
    requires Queues(leaves, inner, p, q, bound)
    requires Takes(leaves, inner, p, q, x, p1, q1) && Takes(leaves, inner, p1, q1, y, p2, q2)
    ensures p2 <= |leaves| && q2 <= |inner| && bound.freq <= x.freq <= y.freq
    ensures Queues(leaves, inner + [United(x, y)], p2, q2, y)
    ensures var m, m' := Pool(leaves, inner, p, q), Pool(leaves, inner + [United(x, y)], p2, q2);
      HuffmanCost(m) == x.freq + y.freq + HuffmanCost(m') && HuffmanHeight(m) == HuffmanHeight(m')
  {
    hide Pool, Takes, HuffmanCost, HuffmanHeight, MinOf, SecondOf, Less, More, NoHeavier;
    var m := Pool(leaves, inner, p, q);
    TakesLeast(leaves, inner, p, q, x, p1, q1);
    TakesLeast(leaves, inner, p1, q1, y, p2, q2);
    PoolSize(leaves, inner, p, q);
    PoolSize(leaves, inner, p1, q1);
    PoolGrows(leaves, inner, p2, q2, United(x, y));
    FusedFacts(m, x, y, bound);
    AppendAscending(inner, bound, x, y);
  }

  /** The new tree is at least as heavy as the one made before it. */
  lemma AppendAscending(inner: seq<Weight>, bound: Weight, x: Weight, y: Weight)
    requires Ascending(inner) && (inner != [] ==> NoHeavier(inner[|inner| - 1], United(bound, bound)))
    requires NoHeavier(bound, x) && NoHeavier(x, y)
    ensures Ascending(inner + [United(x, y)]) && NoHeavier(United(x, y), United(y, y))
  {
    assert NoHeavier(United(bound, bound), United(x, y));
  }

  lemma FusedFacts(m: multiset<Weight>, x: Weight, y: Weight, bound: Weight)
    requires |m| > 1 && x == MinOf(m) && IsMin(Less(m, x), y) && forall z :: z in m ==> NoHeavier(bound, z)
    ensures NoHeavier(bound, x) && NoHeavier(x, y) && bound.freq <= x.freq <= y.freq
    ensures forall z :: z in Fused(m, x, y) ==> NoHeavier(y, z)
    ensures HuffmanCost(m) == x.freq + y.freq + HuffmanCost(Fused(m, x, y))
    ensures HuffmanHeight(m) == HuffmanHeight(Fused(m, x, y))
  {
    hide MinOf, Less, More;
    LessFacts(m, x);
    LessFacts(Less(m, x), y);
    MoreFacts(Less(Less(m, x), y), United(x, y));
    SecondUnique(m, y);
  }

  lemma SecondUnique(m: multiset<Weight>, y: Weight)
    requires |m| > 1 && IsMin(Less(m, MinOf(m)), y)
    ensures SecondOf(m) == y
  {
  }

  // ----- the order in which nodes are picked -----

  /** The node numbers from `low` up to but not including `high`. */
  ghost function Numbers(low: int, high: int): (s: seq<int>)
    requires low <= high
    ensures |s| == high - low && forall i :: 0 <= i < |s| ==> s[i] == low + i
  {
    seq(high - low, i => low + i)
  }

  /** `order` mixes `a` and `b`, keeping the order within each. */
  ghost predicate Mixes(order: seq<int>, a: seq<int>, b: seq<int>) {
    if order == [] then a == [] && b == []
    else
      var rest, x := order[..|order| - 1], order[|order| - 1];
      || (a != [] && x == a[|a| - 1] && Mixes(rest, a[..|a| - 1], b))
      || (b != [] && x == b[|b| - 1] && Mixes(rest, a, b[..|b| - 1]))
  }

  lemma MixOne(order: seq<int>, a: seq<int>, b: seq<int>, x: int)
    requires Mixes(order, a, b)
    ensures Mixes(order + [x], a + [x], b) && Mixes(order + [x], a, b + [x])
  {
    assert (order + [x])[..|order|] == order && (a + [x])[..|a|] == a && (b + [x])[..|b|] == b;
  }

  lemma {:induction false} MixedTotal(order: seq<int>, a: seq<int>, b: seq<int>, f: int -> int)
    requires Mixes(order, a, b)
    ensures Total(order, f) == Total(a, f) + Total(b, f)
  {
    if order != [] {
      var rest, x := order[..|order| - 1], order[|order| - 1];
      if a != [] && x == a[|a| - 1] && Mixes(rest, a[..|a| - 1], b) {
        MixedTotal(rest, a[..|a| - 1], b, f);
      } else {
        MixedTotal(rest, a, b[..|b| - 1], f);
      }
    }
  }

  /** Two members of `b` are picked in the order they have there. */
  lemma {:induction false} MixedPlaces(order: seq<int>, a: seq<int>, b: seq<int>, i: nat, j: nat)
    returns (k: nat, l: nat)
    requires Mixes(order, a, b) && i < j < |b|
    ensures k < l < |order| && order[k] == b[i] && order[l] == b[j]
  {
    var last := |order| - 1;
    var rest, x := order[..last], order[last];
    if a != [] && x == a[|a| - 1] && Mixes(rest, a[..|a| - 1], b) {
      k, l := MixedPlaces(rest, a[..|a| - 1], b, i, j);
    } else if j == |b| - 1 {
      k := MixedPlace(rest, a, b[..|b| - 1], i);
      l := last;
    } else {
      k, l := MixedPlaces(rest, a, b[..|b| - 1], i, j);
    }
  }

  lemma {:induction false} MixedPlace(order: seq<int>, a: seq<int>, b: seq<int>, i: nat) returns (k: nat)
    requires Mixes(order, a, b) && i < |b|
    ensures k < |order| && order[k] == b[i]
  {
    var last := |order| - 1;
    var rest, x := order[..last], order[last];
    if a != [] && x == a[|a| - 1] && Mixes(rest, a[..|a| - 1], b) {
      k := MixedPlace(rest, a[..|a| - 1], b, i);
    } else if i == |b| - 1 {
      k := last;
    } else {
      k := MixedPlace(rest, a, b[..|b| - 1], i);
    }
  }

  lemma {:induction false} MixesCommute(order: seq<int>, a: seq<int>, b: seq<int>)
    requires Mixes(order, a, b)
    ensures Mixes(order, b, a)
  {
    if order != [] {
      var rest, x := order[..|order| - 1], order[|order| - 1];
      if a != [] && x == a[|a| - 1] && Mixes(rest, a[..|a| - 1], b) {
        MixesCommute(rest, a[..|a| - 1], b);
      } else {
        MixesCommute(rest, a, b[..|b| - 1]);
      }
    }
  }

  // ----- the finished tree -----

  /** A tree over the leaves `sorted` (a list of the numbers 0 .. n-1): its pick order mixes the leaves with the
      inner nodes other than the root, and no inner node is picked before it is made. */
  ghost predicate IsTree(n: nat, sorted: seq<int>, order: seq<int>) {
    && 2 <= n && |sorted| == n && |order| == 2 * n - 2
    && (forall k :: 0 <= k < n ==> 0 <= sorted[k] < n)
    && Mixes(order, sorted, Numbers(n, 2 * n - 2))
    && (forall k :: 0 <= k < |order| ==> 0 <= order[k] < n + k / 2)
  }

  /** Every son is one deeper than its father, and the root is at depth 0. */
  ghost predicate Depths(n: nat, order: seq<int>, bits: seq<nat>) {
    && |bits| == 2 * n - 1 && |order| == 2 * n - 2 && 2 <= n
    && bits[2 * n - 2] == 0
    && forall k :: 0 <= k < |order| ==> 0 <= order[k] < 2 * n - 1 && bits[order[k]] == bits[n + k / 2] + 1
  }

  lemma TwoMore(order: seq<int>, k: nat, f: int -> int)
    requires k + 2 <= |order|
    ensures Total(order[..k + 2], f) == Total(order[..k], f) + f(order[k]) + f(order[k + 1])
  {
    hide Total;
    assert order[..k + 2] == order[..k] + [order[k]] + [order[k + 1]];
    TotalOneMore(order[..k], order[k], f);
    TotalOneMore(order[..k] + [order[k]], order[k + 1], f);
  }

  lemma NumbersTotal(n: nat, stop: nat, f: int -> int)
    requires n <= stop
    ensures Total(Numbers(n, stop + 1), f) == Total(Numbers(n, stop), f) + f(stop)
  {
    assert Numbers(n, stop + 1) == Numbers(n, stop) + [stop];
    TotalOneMore(Numbers(n, stop), stop, f);
  }

  /** The sons of inner node n+t. */
  ghost predicate PairSums(n: nat, order: seq<int>, f: int -> int, g: int -> int, t: nat) {
    2 * t + 1 < |order| && f(order[2 * t]) + f(order[2 * t + 1]) == g(n + t)
  }

  /** Sum over the inner nodes n .. n+s-1. */
  lemma {:induction false} PairTotal(n: nat, order: seq<int>, f: int -> int, g: int -> int, s: nat)
    requires 2 * s <= |order|
    requires forall t :: 0 <= t < s ==> PairSums(n, order, f, g, t)
    ensures Total(order[..2 * s], f) == Total(Numbers(n, n + s), g)
  {
    hide Total, PairSums;
    if s == 0 {
      assert order[..0] == Numbers(n, n) == [];
      TotalOfNone(f, g);
    } else {
      PairTotal(n, order, f, g, s - 1);
      NextPair(n, order, f, g, s - 1);
    }
  }

  lemma TotalOfNone(f: int -> int, g: int -> int)
    ensures Total([], f) == Total([], g)
  {
  }

  lemma NextPair(n: nat, order: seq<int>, f: int -> int, g: int -> int, t: nat)
    requires PairSums(n, order, f, g, t) && Total(order[..2 * t], f) == Total(Numbers(n, n + t), g)
    ensures Total(order[..2 * (t + 1)], f) == Total(Numbers(n, n + (t + 1)), g)
  {
    hide Total, Numbers;
    TwoMore(order, 2 * t, f);
    NumbersTotal(n, n + t, g);
  }

  lemma RootLast(n: nat, f: int -> int)
    requires 2 <= n
    ensures Total(Numbers(n, 2 * n - 1), f) == Total(Numbers(n, 2 * n - 2), f) + f(2 * n - 2)
  {
    assert Numbers(n, 2 * n - 1)[..n - 2] == Numbers(n, 2 * n - 2);
  }

  ghost function At(s: seq<nat>, v: int): nat {
    if 0 <= v < |s| then s[v] else 0
  }

  ghost function Weighing(freq: seq<nat>): int -> int { v => At(freq, v) }

  ghost function Measuring(freq: seq<nat>, bits: seq<nat>): int -> int { v => At(freq, v) * At(bits, v) }

  ghost function Sharing(bits: seq<nat>, top: nat): int -> int { v => ShareOf(top, At(bits, v)) }

  ghost predicate Sums(n: nat, order: seq<int>, freq: seq<nat>) {
    && |freq| == 2 * n - 1 && |order| == 2 * n - 2 && 2 <= n
    && forall t :: 0 <= t < n - 1 ==> At(freq, n + t) == At(freq, order[2 * t]) + At(freq, order[2 * t + 1])
  }

  lemma SonsDeeper(n: nat, order: seq<int>, bits: seq<nat>, t: nat)
    requires Depths(n, order, bits) && t < n - 1
    ensures At(bits, order[2 * t]) == At(bits, order[2 * t + 1]) == At(bits, n + t) + 1
  {
    assert bits[order[2 * t]] == bits[n + 2 * t / 2] + 1;
    assert bits[order[2 * t + 1]] == bits[n + (2 * t + 1) / 2] + 1;
  }

  /** The weighted path length of the leaves is the total weight of the inner nodes. */
  lemma WeightedDepth(n: nat, sorted: seq<int>, order: seq<int>, freq: seq<nat>, bits: seq<nat>)
    requires IsTree(n, sorted, order) && Depths(n, order, bits) && Sums(n, order, freq)
    ensures Total(sorted, Measuring(freq, bits)) == Total(Numbers(n, 2 * n - 1), Weighing(freq))
  {
    hide Mixes, Total;
    var f, w := Measuring(freq, bits), Weighing(freq);
    var g := (v: int) => f(v) + w(v);
    forall t | 0 <= t < n - 1 ensures PairSums(n, order, f, g, t) {
      SonsDeeper(n, order, bits, t);
      Distribute(At(freq, order[2 * t]), At(freq, order[2 * t + 1]), At(bits, n + t));
    }
    PairTotal(n, order, f, g, n - 1);
    assert order[..2 * (n - 1)] == order;
    TotalSplit(Numbers(n, 2 * n - 1), g, f, w, 1);
    MixedTotal(order, sorted, Numbers(n, 2 * n - 2), f);
    RootLast(n, f);
    assert f(2 * n - 2) == 0;
  }

  lemma Distribute(x: nat, y: nat, d: nat)
    ensures x * (d + 1) + y * (d + 1) == (x + y) * d + (x + y)
  {
  }

  /** The leaves of a finished tree fill the code space exactly. */
  lemma KraftExact(n: nat, sorted: seq<int>, order: seq<int>, bits: seq<nat>, top: nat)
    requires IsTree(n, sorted, order) && Depths(n, order, bits)
    requires forall k :: 0 <= k < |order| ==> bits[order[k]] <= top
    ensures Total(sorted, Sharing(bits, top)) == Pow2(top)
  {
    hide Mixes, Total;
    var f := Sharing(bits, top);
    forall t | 0 <= t < n - 1 ensures PairSums(n, order, f, f, t) {
      SonsDeeper(n, order, bits, t);
      assert bits[order[2 * t]] <= top;
    }
    PairTotal(n, order, f, f, n - 1);
    assert order[..2 * (n - 1)] == order;
    MixedTotal(order, sorted, Numbers(n, 2 * n - 2), f);
    RootLast(n, f);
  }

  /** Inner nodes made later are no deeper. */
  lemma {:induction false} LaterInnerNoDeeper(n: nat, sorted: seq<int>, order: seq<int>, bits: seq<nat>, s: nat, t: nat)
    requires IsTree(n, sorted, order) && Depths(n, order, bits) && s <= t < n - 1
    ensures bits[n + t] <= bits[n + s]
    decreases n - s
  {
    if s < t && t < n - 2 {
      var inner := Numbers(n, 2 * n - 2);
      var k, l := MixedPlaces(order, sorted, inner, s, t);
      assert order[k] == n + s && order[l] == n + t;
      LaterInnerNoDeeper(n, sorted, order, bits, k / 2, l / 2);
    }
  }

  /** Nodes picked later are no deeper; in particular the leaves' depths do not increase along the list. */
  lemma LaterPickNoDeeper(n: nat, sorted: seq<int>, order: seq<int>, bits: seq<nat>, k: nat, l: nat)
    requires IsTree(n, sorted, order) && Depths(n, order, bits) && k <= l < |order|
    ensures bits[order[l]] <= bits[order[k]]
  {
    LaterInnerNoDeeper(n, sorted, order, bits, k / 2, l / 2);
  }

  lemma LaterLeafNoDeeper(n: nat, sorted: seq<int>, order: seq<int>, bits: seq<nat>, i: nat, j: nat)
    requires IsTree(n, sorted, order) && Depths(n, order, bits) && i <= j < n
    ensures bits[sorted[j]] <= bits[sorted[i]]
  {
    if i < j {
      MixesCommute(order, sorted, Numbers(n, 2 * n - 2));
      var k, l := MixedPlaces(order, Numbers(n, 2 * n - 2), sorted, i, j);
      LaterPickNoDeeper(n, sorted, order, bits, k, l);
    }
  }

  /** The first leaf of the list is a deepest node. */
  lemma FirstLeafDeepest(n: nat, sorted: seq<int>, order: seq<int>, bits: seq<nat>)
    requires IsTree(n, sorted, order) && Depths(n, order, bits)
    ensures forall k :: 0 <= k < |order| ==> bits[order[k]] <= bits[sorted[0]]
    ensures bits[sorted[1]] == bits[sorted[0]]
  {
    FirstTwoPicks(n, sorted, order);
    forall k | 0 <= k < |order| ensures bits[order[k]] <= bits[sorted[0]] {
      LaterPickNoDeeper(n, sorted, order, bits, 0, k);
    }
    assert bits[order[1]] == bits[n + 1 / 2] + 1;
  }

  lemma FirstTwoPicks(n: nat, sorted: seq<int>, order: seq<int>)
    requires IsTree(n, sorted, order)
    ensures order[0] == sorted[0] && order[1] == sorted[1]
  {
    MixesCommute(order, sorted, Numbers(n, 2 * n - 2));
    LeafPrefix(order, sorted, Numbers(n, 2 * n - 2), n, 2);
  }

  /** As long as only leaves have been picked, they come in the order of the list. */
  lemma {:induction false} LeafPrefix(order: seq<int>, a: seq<int>, b: seq<int>, n: int, m: nat)
    requires Mixes(order, a, b) && m <= |order|
    requires (forall k :: 0 <= k < m ==> order[k] < n) && (forall i :: 0 <= i < |b| ==> n <= b[i])
    ensures m <= |a| && order[..m] == a[..m]
    decreases |order|
  {
    if m != 0 {
      var last := |order| - 1;
      var rest, x := order[..last], order[last];
      var m' := if m <= last then m else last;
      if a != [] && x == a[|a| - 1] && Mixes(rest, a[..|a| - 1], b) {
        LeafPrefix(rest, a[..|a| - 1], b, n, m');
        MixedLength(rest, a[..|a| - 1], b);
        if m == |order| {
          LeavesOnly(rest, a[..|a| - 1], b, n);
        }
      } else {
        LeafPrefix(rest, a, b[..|b| - 1], n, m');
      }
    }
  }

  lemma {:induction false} MixedLength(order: seq<int>, a: seq<int>, b: seq<int>)
    requires Mixes(order, a, b)
    ensures |order| == |a| + |b|
  {
    if order != [] {
      var rest, x := order[..|order| - 1], order[|order| - 1];
      if a != [] && x == a[|a| - 1] && Mixes(rest, a[..|a| - 1], b) {
        MixedLength(rest, a[..|a| - 1], b);
      } else {
        MixedLength(rest, a, b[..|b| - 1]);
      }
    }
  }

  lemma LeavesOnly(order: seq<int>, a: seq<int>, b: seq<int>, n: int)
    requires Mixes(order, a, b)
    requires (forall k :: 0 <= k < |order| ==> order[k] < n) && (forall i :: 0 <= i < |b| ==> n <= b[i])
    ensures b == []
  {
    if b != [] {
      var k := MixedPlace(order, a, b, 0);
    }
  }

  /** No node is picked twice. */
  lemma {:induction false} MixedDistinct(order: seq<int>, a: seq<int>, b: seq<int>, k: nat, l: nat)
    requires Mixes(order, a, b) && k < l < |order|
    requires forall i, j :: 0 <= i < j < |a| ==> a[i] != a[j]
    requires forall i, j :: 0 <= i < j < |b| ==> b[i] != b[j]
    requires forall i, j :: 0 <= i < |a| && 0 <= j < |b| ==> a[i] != b[j]
    ensures order[k] != order[l]
  {
    var last := |order| - 1;
    var rest, x := order[..last], order[last];
    var a', b' := a, b;
    if a != [] && x == a[|a| - 1] && Mixes(rest, a[..|a| - 1], b) {
      a' := a[..|a| - 1];
    } else {
      b' := b[..|b| - 1];
    }
    if l < last {
      MixedDistinct(rest, a', b', k, l);
    } else {
      MixedFrom(rest, a', b', k);
    }
  }

  lemma {:induction false} MixedFrom(order: seq<int>, a: seq<int>, b: seq<int>, k: nat)
    requires Mixes(order, a, b) && k < |order|
    ensures (exists i :: 0 <= i < |a| && a[i] == order[k]) || (exists i :: 0 <= i < |b| && b[i] == order[k])
  {
    var last := |order| - 1;
    var rest, x := order[..last], order[last];
    if k < last {
      if a != [] && x == a[|a| - 1] && Mixes(rest, a[..|a| - 1], b) {
        MixedFrom(rest, a[..|a| - 1], b, k);
      } else {
        MixedFrom(rest, a, b[..|b| - 1], k);
      }
    }
  }
}
