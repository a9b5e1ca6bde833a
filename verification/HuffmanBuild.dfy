/** Building the Huffman tree from a sorted list of leaves and reading off the codeword lengths. */
module HuffmanBuild {
  import opened PrefixCodes
  import opened HuffmanTrees

  /** The frequencies of the leaves in list order. */
  ghost function Listed(sorted: seq<int>, freq: seq<nat>): (s: seq<nat>)
    ensures |s| == |sorted| && forall k :: 0 <= k < |sorted| ==> s[k] == At(freq, sorted[k])
  {
    seq(|sorted|, k requires 0 <= k < |sorted| => At(freq, sorted[k]))
  }

  /** A list of all leaves by ascending frequency. */
  ghost predicate SortedLeaves(n: nat, sorted: seq<int>, freq: seq<nat>) {
    && |sorted| == |freq| == n
    && (forall k :: 0 <= k < n ==> 0 <= sorted[k] < n)
    && (forall i, j :: 0 <= i < j < n ==> sorted[i] != sorted[j])
    && (forall i, j :: 0 <= i < j < n ==> freq[sorted[i]] <= freq[sorted[j]])
  }

  /** The weights of the leaves in list order. */
  ghost function ListedSymbols(sorted: seq<int>, freq: seq<nat>): seq<Weight> { Singles(Listed(sorted, freq)) }

  lemma ListAscends(sorted: seq<int>, freq: seq<nat>)
    requires SortedLeaves(|sorted|, sorted, freq)
    ensures Ascending(ListedSymbols(sorted, freq)) && Symbols(ListedSymbols(sorted, freq))
    ensures |ListedSymbols(sorted, freq)| == |sorted|
    ensures forall k :: 0 <= k < |sorted| ==> ListedSymbols(sorted, freq)[k] == Weight(freq[sorted[k]], 0)
  {
  }

  /** `made` are the weights of the inner nodes with these frequencies. */
  ghost predicate Weighs(made: seq<Weight>, inner: seq<nat>) {
    |made| == |inner| && forall t :: 0 <= t < |inner| ==> made[t].freq == inner[t]
  }

  /** The next node to merge: the least tree of all, and among the equally frequent a leaf if there is one. */
  method Select(sorted: seq<int>, freq: seq<nat>, inner: seq<nat>, p: nat, q: nat, ghost made: seq<Weight>)
    returns (node: int, weight: nat, p': nat, q': nat, ghost x: Weight)
    requires SortedLeaves(|sorted|, sorted, freq) && p <= |sorted| && q <= |inner| && p + q < |sorted| + |inner|
    requires Weighs(made, inner) && Ascending(made)
    ensures Takes(ListedSymbols(sorted, freq), made, p, q, x, p', q') && weight == x.freq
    ensures IsNode(sorted, freq, made, p, q, node, x, p', q')
    ensures p' <= |sorted| && q' <= |inner| && p' + q' == p + q + 1
    ensures (exists y :: y in Pool(ListedSymbols(sorted, freq), made, p, q) && y.height == 0 && y.freq == weight) ==>
              x.height == 0
  {
    hide Listed, Pool, Ascending, Symbols;
    ListAscends(sorted, freq);
    LeastHead(ListedSymbols(sorted, freq), made, p, q);
    if p == |sorted| || (q < |inner| && freq[sorted[p]] > inner[q]) {
      node, weight, p', q', x := |sorted| + q, inner[q], p, q + 1, made[q];
    } else {
      node, weight, p', q', x := sorted[p], freq[sorted[p]], p + 1, q, Weight(freq[sorted[p]], 0);
    }
  }

  /** What has been picked so far. */
  ghost predicate Picked(n: nat, sorted: seq<int>, order: seq<int>, p: nat, q: nat) {
    && p <= |sorted| == n
    && Mixes(order, sorted[..p], Numbers(n, n + q))
    && (forall k :: 0 <= k < |order| ==> 0 <= order[k] < n + k / 2)
  }

  lemma NumbersNext(low: nat, high: nat)
    requires low <= high
    ensures Numbers(low, high + 1) == Numbers(low, high) + [high]
  {
  }

  lemma PickedNext(n: nat, sorted: seq<int>, order: seq<int>, p: nat, q: nat, node: int, p': nat, q': nat, made: nat)
    requires Picked(n, sorted, order, p, q) && |order| / 2 == made && forall k :: 0 <= k < n ==> 0 <= sorted[k] < n
    requires if p' == p then q' == q + 1 <= made && node == n + q else p' == p + 1 <= n && q' == q && node == sorted[p]
    ensures Picked(n, sorted, order + [node], p', q')
  {
    hide Mixes, Numbers;
    MixOne(order, sorted[..p], Numbers(n, n + q), node);
    if p' == p {
      NumbersNext(n, n + q);
    } else {
      assert sorted[..p] + [node] == sorted[..p'];
    }
  }

  /** The value of a node: a leaf's frequency or an inner node's weight. */
  ghost function Value(freq: seq<nat>, inner: seq<nat>, v: int): nat {
    At(freq + inner, v)
  }

  ghost predicate SonsMerged(n: nat, order: seq<int>, freq: seq<nat>, inner: seq<nat>, left: seq<int>,
                             right: seq<int>) {
    && |left| == |right| == |inner| && 2 * |inner| == |order| && |freq| == n
    && forall t :: 0 <= t < |inner| ==>
        && left[t] == order[2 * t] && right[t] == order[2 * t + 1]
        && inner[t] == Value(freq, inner, order[2 * t]) + Value(freq, inner, order[2 * t + 1])
  }

  lemma SonsMergedNext(n: nat, order: seq<int>, freq: seq<nat>, inner: seq<nat>, left: seq<int>, right: seq<int>,
                       x: int, y: int)
    requires SonsMerged(n, order, freq, inner, left, right)
    requires 0 <= x < n + |inner| && 0 <= y < n + |inner| && forall k :: 0 <= k < |order| ==> 0 <= order[k] < n + k / 2
    ensures SonsMerged(n, order + [x] + [y], freq, inner + [Value(freq, inner, x) + Value(freq, inner, y)],
                       left + [x], right + [y])
  {
    var inner', order' := inner + [Value(freq, inner, x) + Value(freq, inner, y)], order + [x] + [y];
    assert forall v :: 0 <= v < n + |inner| ==> Value(freq, inner', v) == Value(freq, inner, v);
    forall t | 0 <= t < |inner'|
      ensures (left + [x])[t] == order'[2 * t] && (right + [y])[t] == order'[2 * t + 1]
      ensures inner'[t] == Value(freq, inner', order'[2 * t]) + Value(freq, inner', order'[2 * t + 1])
    {
      if t < |inner| {
        assert order'[2 * t] == order[2 * t] && order'[2 * t + 1] == order[2 * t + 1];
      }
    }
  }

  /** The height of a node: 0 for a leaf. */
  ghost function HeightOf(n: nat, made: seq<Weight>, v: int): nat {
    if n <= v < n + |made| then made[v - n].height else 0
  }

  /** Every inner node is higher than its sons. */
  ghost predicate SonsLower(n: nat, order: seq<int>, made: seq<Weight>) {
    && 2 * |made| == |order|
    && (forall k :: 0 <= k < |order| ==> 0 <= order[k] < n + k / 2)
    && forall k :: 0 <= k < |order| ==> HeightOf(n, made, order[k]) < made[k / 2].height
  }

  lemma SonsLowerNext(n: nat, order: seq<int>, made: seq<Weight>, u: int, v: int, x: Weight, y: Weight)
    requires SonsLower(n, order, made) && 0 <= u < n + |made| && 0 <= v < n + |made|
    requires x.height == HeightOf(n, made, u) && y.height == HeightOf(n, made, v)
    ensures SonsLower(n, order + [u] + [v], made + [United(x, y)])
  {
    var order', made' := order + [u] + [v], made + [United(x, y)];
    assert forall w :: 0 <= w < n + |made| ==> HeightOf(n, made', w) == HeightOf(n, made, w);
    forall k | 0 <= k < |order'|
      ensures 0 <= order'[k] < n + k / 2 && HeightOf(n, made', order'[k]) < made'[k / 2].height {
      if k < |order| {
        assert order'[k] == order[k] && made'[k / 2] == made[k / 2];
      }
    }
  }

  /** Nodes are picked lightest first. */
  ghost predicate PicksRise(freq: seq<nat>, inner: seq<nat>, order: seq<int>, bound: nat) {
    && (forall i, j :: 0 <= i < j < |order| ==> Value(freq, inner, order[i]) <= Value(freq, inner, order[j]))
    && (forall i :: 0 <= i < |order| ==> 0 <= order[i] < |freq| + |inner| && Value(freq, inner, order[i]) <= bound)
  }

  lemma PicksRiseNext(freq: seq<nat>, inner: seq<nat>, order: seq<int>, bound: nat, u: int, v: int)
    requires PicksRise(freq, inner, order, bound) && 0 <= u < |freq| + |inner| && 0 <= v < |freq| + |inner|
    requires bound <= Value(freq, inner, u) <= Value(freq, inner, v)
    ensures PicksRise(freq, inner + [Value(freq, inner, u) + Value(freq, inner, v)], order + [u] + [v],
                      Value(freq, inner, v))
  {
    var inner' := inner + [Value(freq, inner, u) + Value(freq, inner, v)];
    assert forall w :: 0 <= w < |freq| + |inner| ==> Value(freq, inner', w) == Value(freq, inner, w);
  }

  /** The two queues between two merges, and that cost and height of what is left make up the whole. */
  ghost predicate Queueing(leaves: seq<Weight>, inner: seq<nat>, made: seq<Weight>, p: nat, q: nat, bound: Weight) {
    && Weighs(made, inner) && Queues(leaves, made, p, q, bound)
    && SumOf(inner) + HuffmanCost(Pool(leaves, made, p, q)) == HuffmanCost(multiset(leaves))
    && HuffmanHeight(Pool(leaves, made, p, q)) == HuffmanHeight(multiset(leaves))
  }

  /** The tree between two merges. */
  ghost predicate Growing(sorted: seq<int>, freq: seq<nat>, inner: seq<nat>, order: seq<int>, made: seq<Weight>,
                          p: nat, q: nat, bound: nat) {
    && Picked(|sorted|, sorted, order, p, q) && SonsLower(|sorted|, order, made) && PicksRise(freq, inner, order, bound)
  }

  lemma QueueingStarts(leaves: seq<Weight>)
    requires Ascending(leaves) && Symbols(leaves)
    ensures Queueing(leaves, [], [], 0, 0, Weight(0, 0))
  {
    hide HuffmanCost, HuffmanHeight, Pool, Ascending, Queues;
    StartQueues(leaves);
  }

  lemma QueueingFacts(leaves: seq<Weight>, inner: seq<nat>, made: seq<Weight>, p: nat, q: nat, bound: Weight)
    requires Queueing(leaves, inner, made, p, q, bound)
    ensures Weighs(made, inner) && Ascending(made) && |made| == |inner| && p <= |leaves| && q <= |inner|
  {
    hide HuffmanCost, HuffmanHeight, Pool, Ascending;
  }

  /** A merge, as the queues see it. */
  lemma QueueingNext(leaves: seq<Weight>, inner: seq<nat>, made: seq<Weight>, p: nat, q: nat, bound: Weight,
                     x: Weight, p1: nat, q1: nat, y: Weight, p2: nat, q2: nat)
    requires Queueing(leaves, inner, made, p, q, bound)
    requires Takes(leaves, made, p, q, x, p1, q1) && Takes(leaves, made, p1, q1, y, p2, q2)
    ensures bound.freq <= x.freq <= y.freq
    ensures Queueing(leaves, inner + [x.freq + y.freq], made + [United(x, y)], p2, q2, y)
  {
    hide HuffmanCost, HuffmanHeight, Pool, Ascending, Takes, Queues, Weighs;
    MergeTakesLightest(leaves, made, p, q, bound, x, p1, q1, y, p2, q2);
    WeighsNext(made, inner, x, y);
    SumAppend(inner, x.freq + y.freq);
  }

  lemma QueueingEnds(leaves: seq<Weight>, inner: seq<nat>, made: seq<Weight>, p: nat, q: nat, bound: Weight)
    requires Queueing(leaves, inner, made, p, q, bound) && p == |leaves| && q + 1 == |inner|
    ensures |made| == |inner| && SumOf(inner) == HuffmanCost(multiset(leaves))
            && made[q].height == HuffmanHeight(multiset(leaves))
  {
    hide HuffmanCost, HuffmanHeight, Pool, Ascending, Queues;
    SinglePool(leaves, made, p, q);
  }

  lemma GrowingStarts(sorted: seq<int>, freq: seq<nat>)
    requires SortedLeaves(|sorted|, sorted, freq)
    ensures Growing(sorted, freq, [], [], [], 0, 0, 0) && SonsMerged(|sorted|, [], freq, [], [], [])
  {
    StartPicking(|sorted|, sorted, freq);
  }

  /** A merge, as the tree sees it: the first two picks become the sons of the next inner node. */
  lemma GrowingNext(sorted: seq<int>, freq: seq<nat>, inner: seq<nat>, order: seq<int>, made: seq<Weight>, p: nat,
                    q: nat, bound: nat, u: int, x: Weight, p1: nat, q1: nat, v: int, y: Weight, p2: nat, q2: nat)
    requires SortedLeaves(|sorted|, sorted, freq) && Growing(sorted, freq, inner, order, made, p, q, bound)
    requires Weighs(made, inner) && |order| == 2 * |inner| && bound <= x.freq <= y.freq
    requires IsNode(sorted, freq, made, p, q, u, x, p1, q1) && IsNode(sorted, freq, made, p1, q1, v, y, p2, q2)
    ensures 0 <= u < |sorted| + |inner| && 0 <= v < |sorted| + |inner|
    ensures x.freq == Value(freq, inner, u) && y.freq == Value(freq, inner, v)
    ensures Growing(sorted, freq, inner + [x.freq + y.freq], order + [u] + [v], made + [United(x, y)], p2, q2, y.freq)
  {
    hide Picked, PicksRise, SonsLower, Weighs, Value;
    var n := |sorted|;
    WeighsSize(made, inner);
    PickedNext(n, sorted, order, p, q, u, p1, q1, |inner|);
    PickedNext(n, sorted, order + [u], p1, q1, v, p2, q2, |inner|);
    NodeValues(freq, inner, made, u, x);
    NodeValues(freq, inner, made, v, y);
    SonsLowerNext(n, order, made, u, v, x, y);
    PicksRiseNext(freq, inner, order, bound, u, v);
  }

  lemma WeighsSize(made: seq<Weight>, inner: seq<nat>)
    requires Weighs(made, inner)
    ensures |made| == |inner|
  {
  }

  /** The node of the tree that is taken. */
  ghost predicate IsNode(sorted: seq<int>, freq: seq<nat>, made: seq<Weight>, p: nat, q: nat, node: int, x: Weight,
                         p': nat, q': nat) {
    if p' == p then q' == q + 1 <= |made| && node == |sorted| + q && x == made[q]
    else p' == p + 1 <= |sorted| && q' == q && node == sorted[p] && 0 <= node < |freq| && x == Weight(freq[node], 0)
  }

  /** Merges the two lightest nodes until one is left. */
  method BuildTree(sorted: seq<int>, freq: seq<nat>)
    returns (inner: seq<nat>, left: seq<int>, right: seq<int>, ghost order: seq<int>, ghost made: seq<Weight>)
    requires 2 <= |sorted| && SortedLeaves(|sorted|, sorted, freq)
    ensures |inner| == |left| == |right| == |sorted| - 1
    ensures IsTree(|sorted|, sorted, order) && SonsMerged(|sorted|, order, freq, inner, left, right)
    ensures SumOf(inner) == HuffmanCost(multiset(ListedSymbols(sorted, freq)))
    ensures |made| == |inner| && SonsLower(|sorted|, order, made)
    ensures made[|sorted| - 2].height == HuffmanHeight(multiset(ListedSymbols(sorted, freq)))
    ensures exists bound :: PicksRise(freq, inner, order, bound)
  {
    hide *;
    var n := |sorted|;
    ghost var leaves := ListedSymbols(sorted, freq);
    ListAscends(sorted, freq);
    var p, q := 0, 0;
    inner, left, right, order, made := [], [], [], [], [];
    ghost var bound := Weight(0, 0);
    QueueingStarts(leaves);
    GrowingStarts(sorted, freq);
    while p < n || q + 1 != |inner|
      invariant 0 <= p <= n && 0 <= q <= |inner| && |left| == |right| == |inner| == |made| <= n - 1
      invariant p + q == 2 * |inner| == |order| && (inner != [] ==> q < |inner|)
      invariant Queueing(leaves, inner, made, p, q, bound)
                && Growing(sorted, freq, inner, order, made, p, q, bound.freq)
      invariant SonsMerged(n, order, freq, inner, left, right)
      decreases n - |inner|
    {
      QueueingFacts(leaves, inner, made, p, q, bound);
      var u, wu, p1, q1, v, wv, p2, q2;
      ghost var x, y;
      u, wu, p1, q1, x := Select(sorted, freq, inner, p, q, made);
      v, wv, p2, q2, y := Select(sorted, freq, inner, p1, q1, made);
      QueueingNext(leaves, inner, made, p, q, bound, x, p1, q1, y, p2, q2);
      GrowingNext(sorted, freq, inner, order, made, p, q, bound.freq, u, x, p1, q1, v, y, p2, q2);
      PickedBelow(sorted, freq, inner, order, made, p, q, bound.freq);
      SonsMergedNext(n, order, freq, inner, left, right, u, v);
      left, right, inner, made := left + [u], right + [v], inner + [wu + wv], made + [United(x, y)];
      order := order + [u] + [v];
      p, q, bound := p2, q2, y;
    }
    QueueingEnds(leaves, inner, made, p, q, bound);
    GrowingEnds(sorted, freq, inner, order, made, p, q, bound.freq);
  }

  lemma GrowingEnds(sorted: seq<int>, freq: seq<nat>, inner: seq<nat>, order: seq<int>, made: seq<Weight>, p: nat,
                    q: nat, bound: nat)
    requires SortedLeaves(|sorted|, sorted, freq) && Growing(sorted, freq, inner, order, made, p, q, bound)
    requires 2 <= |sorted| == p && q == |sorted| - 2 && |order| == 2 * |sorted| - 2
    ensures IsTree(|sorted|, sorted, order) && SonsLower(|sorted|, order, made)
    ensures exists bound :: PicksRise(freq, inner, order, bound)
  {
    hide Picked, PicksRise, SonsLower, IsTree;
    AllPicked(|sorted|, sorted, order, p, q);
  }

  lemma WeighsNext(made: seq<Weight>, inner: seq<nat>, x: Weight, y: Weight)
    requires Weighs(made, inner)
    ensures Weighs(made + [United(x, y)], inner + [x.freq + y.freq])
  {
  }

  lemma StartQueues(leaves: seq<Weight>)
    requires Ascending(leaves) && Symbols(leaves)
    ensures Queues(leaves, [], 0, 0, Weight(0, 0)) && Pool(leaves, [], 0, 0) == multiset(leaves)
  {
    assert leaves[0..] == leaves;
  }

  lemma StartPicking(n: nat, sorted: seq<int>, freq: seq<nat>)
    requires |sorted| == |freq| == n
    ensures Picked(n, sorted, [], 0, 0) && SonsMerged(n, [], freq, [], [], [])
    ensures SonsLower(n, [], []) && PicksRise(freq, [], [], 0) && Weighs([], [])
  {
  }

  lemma NodeValues(freq: seq<nat>, inner: seq<nat>, made: seq<Weight>, v: int, x: Weight)
    requires Weighs(made, inner)
    requires if 0 <= v < |freq| then x == Weight(freq[v], 0)
             else |freq| <= v < |freq| + |inner| && x == made[v - |freq|]
    ensures Value(freq, inner, v) == x.freq && HeightOf(|freq|, made, v) == x.height
  {
  }

  lemma PickedBelow(sorted: seq<int>, freq: seq<nat>, inner: seq<nat>, order: seq<int>, made: seq<Weight>, p: nat,
                    q: nat, bound: nat)
    requires Growing(sorted, freq, inner, order, made, p, q, bound)
    ensures forall k :: 0 <= k < |order| ==> 0 <= order[k] < |sorted| + k / 2
  {
    hide PicksRise, SonsLower;
  }

  lemma SumAppend(s: seq<nat>, x: nat)
    ensures SumOf(s + [x]) == SumOf(s) + x
  {
    assert (s + [x])[..|s|] == s;
  }

  lemma SinglePool(leaves: seq<Weight>, made: seq<Weight>, p: nat, q: nat)
    requires p == |leaves| && q + 1 == |made|
    ensures HuffmanCost(Pool(leaves, made, p, q)) == 0
    ensures HuffmanHeight(Pool(leaves, made, p, q)) == made[q].height
  {
    assert leaves[p..] == [] && made[q..] == [made[q]];
    assert Pool(leaves, made, p, q) == multiset{made[q]};
    MinUnique(Pool(leaves, made, p, q), made[q]);
  }

  lemma AllPicked(n: nat, sorted: seq<int>, order: seq<int>, p: nat, q: nat)
    requires 2 <= n && Picked(n, sorted, order, p, q) && p == n && q == n - 2 && |order| == 2 * n - 2
    requires forall k :: 0 <= k < n ==> 0 <= sorted[k] < n
    ensures IsTree(n, sorted, order)
  {
    assert sorted[..p] == sorted;
  }

  // ----- depths by a walk with a stack -----

  /** The sons of inner node n+t are order[2t] and order[2t+1], and every node has one father. */
  ghost predicate Shape(n: nat, order: seq<int>) {
    && 2 <= n && |order| == 2 * n - 2
    && (forall k :: 0 <= k < |order| ==> 0 <= order[k] < n + k / 2)
    && (forall k, l :: 0 <= k < l < |order| ==> order[k] != order[l])
    && (forall v :: n <= v < 2 * n - 2 ==> v in order)
  }

  lemma TreeShape(n: nat, sorted: seq<int>, freq: seq<nat>, order: seq<int>)
    requires IsTree(n, sorted, order) && SortedLeaves(n, sorted, freq)
    ensures Shape(n, order)
  {
    var inner := Numbers(n, 2 * n - 2);
    forall k, l | 0 <= k < l < |order| ensures order[k] != order[l] {
      MixedDistinct(order, sorted, inner, k, l);
    }
    forall v | n <= v < 2 * n - 2 ensures v in order {
      var k := MixedPlace(order, sorted, inner, v - n);
      assert inner[v - n] == v;
    }
  }

  /** The state of the walk: what is still to be visited, `p` and the stack, hangs off `done` nodes; inner sons of
      done nodes are done or waiting. */
  ghost predicate Walking(n: nat, order: seq<int>, done: set<int>, p: int, stack: seq<int>) {
    && |order| == 2 * n - 2 && 2 <= n
    && 0 <= p < 2 * n - 1 && (forall i :: 0 <= i < |stack| ==> 0 <= stack[i] < 2 * n - 1)
    && (forall v :: v in done ==> n <= v < 2 * n - 1)
    && p !in done && p !in stack && (forall i :: 0 <= i < |stack| ==> stack[i] !in done)
    && (forall i, j :: 0 <= i < j < |stack| ==> stack[i] != stack[j])
    && (2 * n - 2 in done || (p == 2 * n - 2 && stack == [] && done == {}))
    && (forall k :: 0 <= k < |order| && n + k / 2 in done && n <= order[k] ==> Waiting(order[k], done, p, stack))
    && (forall k :: 0 <= k < |order| && Waiting(order[k], done, p, stack) ==> n + k / 2 in done)
  }

  ghost predicate Waiting(v: int, done: set<int>, p: int, stack: seq<int>) {
    v in done || v == p || v in stack
  }

  /** The sons of done nodes have their depth. */
  ghost predicate Measured(n: nat, order: seq<int>, bits: seq<nat>, done: set<int>) {
    && |bits| == 2 * n - 1 && |order| == 2 * n - 2 && 2 <= n && bits[2 * n - 2] == 0
    && (forall v :: v in done ==> n <= v < 2 * n - 1)
    && forall k :: 0 <= k < |order| && n + k / 2 in done ==>
      0 <= order[k] < 2 * n - 1 && bits[order[k]] == bits[n + k / 2] + 1
  }

  lemma SonsOf(n: nat, order: seq<int>, done: set<int>, p: int, stack: seq<int>)
    requires Shape(n, order) && Walking(n, order, done, p, stack) && n <= p
    ensures 0 <= 2 * (p - n) && 2 * (p - n) + 1 < |order|
    ensures var l, r := order[2 * (p - n)], order[2 * (p - n) + 1];
            && 0 <= l < 2 * n - 2 && 0 <= r < 2 * n - 2 && l != r && l < p && r < p
            && !Waiting(l, done, p, stack) && !Waiting(r, done, p, stack)
            && (forall k :: 0 <= k < |order| && n + k / 2 == p ==> order[k] == l || order[k] == r)
            && (forall k :: 0 <= k < |order| && (order[k] == l || order[k] == r) ==> n + k / 2 == p)
  {
    var t := p - n;
    assert n + (2 * t) / 2 == p && n + (2 * t + 1) / 2 == p;
    assert forall k :: 0 <= k < |order| && n + k / 2 == p ==> k == 2 * t || k == 2 * t + 1;
  }

  lemma WalkDown(n: nat, order: seq<int>, done: set<int>, p: int, stack: seq<int>, l: int, r: int)
    requires Walking(n, order, done, p, stack) && n <= p
    requires 0 <= l < 2 * n - 2 && 0 <= r < 2 * n - 2 && l != r && l < p && r < p
    requires !Waiting(l, done, p, stack) && !Waiting(r, done, p, stack)
    requires forall k :: 0 <= k < |order| && n + k / 2 == p ==> order[k] == l || order[k] == r
    requires forall k :: 0 <= k < |order| && (order[k] == l || order[k] == r) ==> n + k / 2 == p
    ensures Walking(n, order, done + {p}, l, stack + [r])
  {
    var done', stack' := done + {p}, stack + [r];
    assert forall v :: v in stack' <==> v in stack || v == r;
    assert forall v :: Waiting(v, done', l, stack') <==> Waiting(v, done, p, stack) || v == l || v == r;
  }

  lemma MeasureSons(n: nat, order: seq<int>, bits: seq<nat>, done: set<int>, p: int, l: int, r: int)
    requires Measured(n, order, bits, done) && n <= p < 2 * n - 1
    requires 0 <= l < 2 * n - 2 && 0 <= r < 2 * n - 2 && l != r && l < p && r < p && l !in done && r !in done
    requires forall k :: 0 <= k < |order| && n + k / 2 == p ==> order[k] == l || order[k] == r
    requires forall k :: 0 <= k < |order| && (order[k] == l || order[k] == r) ==> n + k / 2 == p
    requires p !in done
    ensures Measured(n, order, bits[r := bits[p] + 1][l := bits[p] + 1], done + {p})
  {
    var bits' := bits[r := bits[p] + 1][l := bits[p] + 1];
    forall k | 0 <= k < |order| && n + k / 2 in done + {p}
      ensures 0 <= order[k] < 2 * n - 1 && bits'[order[k]] == bits'[n + k / 2] + 1
    {
      if n + k / 2 != p {
        assert order[k] != l && order[k] != r;
      }
    }
  }

  lemma WalkUp(n: nat, order: seq<int>, done: set<int>, p: int, stack: seq<int>)
    requires Walking(n, order, done, p, stack) && p < n && stack != []
    ensures 0 <= stack[|stack| - 1] < 2 * n - 1
    ensures Walking(n, order, done, stack[|stack| - 1], stack[..|stack| - 1])
  {
    var last := |stack| - 1;
    assert stack == stack[..last] + [stack[last]];
    assert stack[last] !in stack[..last];
    assert forall v :: Waiting(v, done, stack[last], stack[..last]) ==> Waiting(v, done, p, stack);
    assert forall v :: n <= v && Waiting(v, done, p, stack) ==> Waiting(v, done, stack[last], stack[..last]);
  }

  lemma {:induction false} WalkedAll(n: nat, order: seq<int>, done: set<int>, p: int, v: int)
    requires Shape(n, order) && Walking(n, order, done, p, []) && p < n && n <= v < 2 * n - 1
    ensures v in done
    decreases 2 * n - v
  {
    if v < 2 * n - 2 {
      assert v in order;
      var k :| 0 <= k < |order| && order[k] == v;
      WalkedAll(n, order, done, p, n + k / 2);
    }
  }

  lemma {:induction false} BoundedSize(low: int, high: int, some: set<int>)
    requires low <= high && forall v :: v in some ==> low <= v < high
    ensures |some| <= high - low
    decreases high - low
  {
    if low == high {
      assert some == {};
    } else {
      BoundedSize(low, high - 1, some - {high - 1});
    }
  }

  /** Every tree has depths. */
  lemma DepthsExist(n: nat, order: seq<int>) returns (depth: seq<nat>)
    requires Shape(n, order)
    ensures Depths(n, order, depth)
  {
    depth := seq(2 * n - 1, _ => 0);
    for t := n - 1 downto 0
      invariant |depth| == 2 * n - 1 && depth[2 * n - 2] == 0
      invariant forall k :: 2 * t <= k < |order| ==> depth[order[k]] == depth[n + k / 2] + 1
    {
      depth := depth[order[2 * t] := depth[n + t] + 1][order[2 * t + 1] := depth[n + t] + 1];
    }
  }

  /** The stack holds nodes of different levels, all above the level of the node being visited. */
  ghost predicate Stacked(depth: seq<nat>, p: int, stack: seq<int>) {
    && 0 <= p < |depth| && |stack| <= depth[p]
    && forall i :: 0 <= i < |stack| ==> 0 <= stack[i] < |depth| && i < depth[stack[i]]
  }

  lemma StackedDown(n: nat, order: seq<int>, depth: seq<nat>, p: int, stack: seq<int>, l: int, r: int)
    requires Depths(n, order, depth) && Stacked(depth, p, stack) && n <= p < 2 * n - 1
    requires l == order[2 * (p - n)] && r == order[2 * (p - n) + 1]
    ensures Stacked(depth, l, stack + [r]) && |stack| < depth[l]
  {
    assert depth[order[2 * (p - n)]] == depth[n + 2 * (p - n) / 2] + 1;
    assert depth[order[2 * (p - n) + 1]] == depth[n + (2 * (p - n) + 1) / 2] + 1;
  }

  lemma StackedUp(depth: seq<nat>, p: int, stack: seq<int>)
    requires Stacked(depth, p, stack) && stack != []
    ensures Stacked(depth, stack[|stack| - 1], stack[..|stack| - 1])
  {
  }

  /** Visits the tree from the root, left sons first, with the right sons waiting on a stack of 256 places. */
  method EvaluateLengths(n: nat, left: seq<int>, right: seq<int>, ghost order: seq<int>, ghost depth: seq<nat>)
    returns (bits: seq<nat>)
    requires Shape(n, order) && |left| == |right| == n - 1
    requires forall t :: 0 <= t < n - 1 ==> left[t] == order[2 * t] && right[t] == order[2 * t + 1]
    requires Depths(n, order, depth) && forall k :: 0 <= k < |order| ==> depth[order[k]] <= 256
    ensures Depths(n, order, bits)
  {
    hide Shape, Walking, Measured, Stacked;
    bits := seq(2 * n - 1, _ => 0);
    ghost var done: set<int> := {};
    var head := new int[256];
    var i, level, p := 0, 0, 2 * n - 2;
    StartWalk(n, order, bits);
    StartStack(n, order, depth);
    assert head[..0] == [];
    while true
      invariant 0 <= i <= 256 && Walking(n, order, done, p, head[..i]) && Measured(n, order, bits, done)
      invariant Stacked(depth, p, head[..i])
      invariant |bits| == |depth| == 2 * n - 1 && 0 <= p < 2 * n - 1 && level == bits[p] && |done| < n
      decreases 2 * (n - |done|) + i
    {
      ghost var before, height := |done|, i;
      while n <= p
        invariant 0 <= i <= 256 && Walking(n, order, done, p, head[..i]) && Measured(n, order, bits, done)
        invariant Stacked(depth, p, head[..i])
        invariant |bits| == 2 * n - 1 && 0 <= p < 2 * n - 1 && level == bits[p] && before <= |done| < n
        invariant i - |done| == height - before
        decreases n - |done|
      {
        ghost var stack := head[..i];
        SonsOf(n, order, done, p, stack);
        WalkFacts(n, order, done, p, stack);
        var l, r := left[p - n], right[p - n];
        WalkDown(n, order, done, p, stack, l, r);
        MeasureSons(n, order, bits, done, p, l, r);
        StackedDown(n, order, depth, p, stack, l, r);
        assert depth[l] <= 256;
        level := level + 1;
        head[i] := r;
        i := i + 1;
        assert head[..i] == stack + [r];
        bits := bits[r := level];
        done := done + {p};
        p := l;
        bits := bits[p := level];
        WalkFacts(n, order, done, p, head[..i]);
        BoundedSize(n, 2 * n - 1, done);
      }
      if i == 0 {
        break;
      }
      WalkUp(n, order, done, p, head[..i]);
      StackedUp(depth, p, head[..i]);
      assert head[..i][..i - 1] == head[..i - 1];
      i := i - 1;
      p := head[i];
      level := bits[p];
    }
    assert head[..0] == [];
    WalkEnds(n, order, bits, done, p);
  }

  lemma StartStack(n: nat, order: seq<int>, depth: seq<nat>)
    requires Depths(n, order, depth)
    ensures |depth| == 2 * n - 1 && Stacked(depth, 2 * n - 2, [])
  {
  }

  lemma StartWalk(n: nat, order: seq<int>, bits: seq<nat>)
    requires Shape(n, order) && |bits| == 2 * n - 1 && bits[2 * n - 2] == 0
    ensures Walking(n, order, {}, 2 * n - 2, []) && Measured(n, order, bits, {})
  {
  }

  lemma WalkFacts(n: nat, order: seq<int>, done: set<int>, p: int, stack: seq<int>)
    requires Walking(n, order, done, p, stack)
    ensures p !in done && forall v :: v in done ==> n <= v < 2 * n - 1
  {
  }

  lemma WalkEnds(n: nat, order: seq<int>, bits: seq<nat>, done: set<int>, p: int)
    requires Shape(n, order) && Walking(n, order, done, p, []) && Measured(n, order, bits, done) && p < n
    ensures Depths(n, order, bits)
  {
    forall v | n <= v < 2 * n - 1 ensures v in done {
      WalkedAll(n, order, done, p, v);
    }
  }
}
