/** The graph object of the library and the operations its two algorithms share. */
module LHMain {
  import opened LoadVectors
  import opened Assignments
  import opened Buckets
  import opened SearchTrees

  /** The bucket of each right-hand vertex: its load, unless it has no neighbour. */
  ghost function RHSKey(g: Bipartite, load: seq<int>): (key: seq<int>)
    requires |g.adj| == g.size && |load| == g.numRHS
    ensures |key| == g.size
    ensures forall v :: 0 <= v < g.size ==> key[v] == if g.IsRHS(v) && g.adj[v] != [] then load[v - g.numLHS] else NONE
  {
    seq(g.size, v requires 0 <= v < g.size => if g.IsRHS(v) && g.adj[v] != [] then load[v - g.numLHS] else NONE)
  }

  lemma NoLoads(g: Bipartite, matched: seq<int>, load: seq<int>)
    requires |load| == g.numRHS && (forall l :: 0 <= l < |matched| ==> matched[l] == NONE)
    requires forall j :: 0 <= j < |load| ==> load[j] == 0
    ensures load == Loads(g, matched)
  {
    forall j | 0 <= j < g.numRHS ensures Loads(g, matched)[j] == 0 {
      var r := g.numLHS + j;
      assert g.IsRHS(r) && Loads(g, matched)[r - g.numLHS] == Load(matched, r);
      assert r !in multiset(matched);
    }
  }

  class Graph {
    const numLHS: nat
    const numRHS: nat

    // One entry per vertex: the fields of the library's Vertex structure.
    var adj: seq<seq<int>>
    var parent: seq<int>
    var fLink: seq<int>
    var bLink: seq<int>
    // Only left-hand vertices use matchedWith, only right-hand vertices use numMatched.
    var matchedWith: seq<int>
    var numMatched: seq<int>

    var Buckets: array<int>
    // The first Qsize slots of the queue.
    var queue: seq<int>
    var maxRHSLoad: int
    var minRHSLoad: int

    // The contents of the buckets, and the bucket each vertex is in.
    ghost var lists: seq<seq<int>>
    ghost var key: seq<int>

    /** A graph without edges. */
    constructor (lhs: nat, rhs: nat)
      ensures numLHS == lhs && numRHS == rhs && Sound() && Exact()
      ensures adj == seq(lhs + rhs, _ => []) && matchedWith == seq(lhs, _ => NONE)
      ensures numMatched == seq(rhs, _ => 0) && Covered()
      ensures parent == seq(lhs + rhs, _ => NONE)
    {
      numLHS, numRHS := lhs, rhs;
      adj := seq(lhs + rhs, _ => []);
      parent, fLink, bLink := seq(lhs + rhs, _ => NONE), seq(lhs + rhs, _ => NONE), seq(lhs + rhs, _ => NONE);
      matchedWith, numMatched := seq(lhs, _ => NONE), seq(rhs, _ => 0);
      Buckets := new int[0];
      queue, maxRHSLoad, minRHSLoad := [], 0, 0;
      lists, key := [], [];
      new;
      NoLoads(G(), matchedWith, numMatched);
    }

    function G(): Bipartite
      reads this`adj
    {
      Bipartite(numLHS, numRHS, adj)
    }

    /** What every operation keeps: a well-formed graph whose matched pairs are edges. */
    ghost predicate Sound()
      reads this`adj, this`parent, this`fLink, this`bLink, this`matchedWith, this`numMatched
    {
      && |adj| == numLHS + numRHS && |matchedWith| == numLHS
      && G().Valid()
      && IsPartial(G(), matchedWith)
      && |numMatched| == numRHS
      && |parent| == |fLink| == |bLink| == numLHS + numRHS
    }

    /** The recorded loads are the real ones. */
    ghost predicate Exact()
      reads this`adj, this`matchedWith, this`numMatched
    {
      numMatched == Loads(G(), matchedWith)
    }

    /** No recorded load is too low. They are too high after the online algorithm has started from a matching. */
    ghost predicate Covered()
      reads this`adj, this`matchedWith, this`numMatched
    {
      Covers(G(), numMatched, matchedWith)
    }

    function LoadOf(r: int): int
      requires G().IsRHS(r) && |numMatched| == numRHS
      reads this`adj, this`numMatched
    {
      numMatched[r - numLHS]
    }

    ghost predicate BucketsReady()
      reads this`fLink, this`bLink, this`lists, this`key, this`Buckets, Buckets
    {
      BucketsValid(Buckets[..], fLink, bLink, lists, key)
    }
  }

  method AddVtxToBucket(g: Graph, v: int, b: int)
    requires g.BucketsReady()
    requires 0 <= v < |g.key| && g.key[v] == NONE && 0 <= b < g.Buckets.Length
    modifies g`fLink, g`bLink, g`lists, g`key, g.Buckets
    ensures g.BucketsReady()
    ensures g.lists == old(Pushed(g.lists, v, b)) && g.key == old(g.key)[v := b]
    ensures |g.fLink| == old(|g.fLink|) == |g.bLink|
  {
    PushKeepsBuckets(g.Buckets[..], g.fLink, g.bLink, g.lists, g.key, v, b);
    ghost var heads := g.Buckets[..];
    g.fLink := g.fLink[v := g.Buckets[b]];
    g.bLink := g.bLink[v := NONE];
    if g.Buckets[b] != NONE {
      g.bLink := g.bLink[g.Buckets[b] := v];
    }
    g.Buckets[b] := v;
    assert g.Buckets[..] == heads[b := v];
    g.lists, g.key := Pushed(g.lists, v, b), g.key[v := b];
  }

  method RemoveVtxFromBucket(g: Graph, v: int, b: int, ghost at: nat)
    requires g.BucketsReady()
    requires 0 <= b < |g.lists| && at < |g.lists[b]| && g.lists[b][at] == v
    modifies g`fLink, g`bLink, g`lists, g`key, g.Buckets
    ensures g.BucketsReady()
    ensures g.lists == old(g.lists[b := Cut(g.lists[b], at)]) && 0 <= v < |old(g.key)| && g.key == old(g.key)[v := NONE]
    ensures |g.fLink| == old(|g.fLink|) == |g.bLink|
  {
    hide BucketsValid, LinkedList, Distinct;
    BucketIsList(g.Buckets[..], g.fLink, g.bLink, g.lists, g.key, b);
    CutKeepsBuckets(g.Buckets[..], g.fLink, g.bLink, g.lists, g.key, b, at);
    CutKeepsList(g.Buckets[b], g.fLink, g.bLink, g.lists[b], at);
    ghost var heads, fLink, bLink := g.Buckets[..], g.fLink, g.bLink;
    if g.fLink[v] != NONE {
      g.bLink := g.bLink[g.fLink[v] := g.bLink[v]];
    }
    assert g.bLink == CutBack(fLink, bLink, v) && g.bLink[v] == bLink[v];
    if g.bLink[v] != NONE {
      g.fLink := g.fLink[g.bLink[v] := g.fLink[v]];
    } else {
      g.Buckets[b] := g.fLink[v];
      assert g.Buckets[..] == heads[b := fLink[v]];
    }
    assert g.fLink == CutForward(fLink, bLink, v);
    g.lists, g.key := g.lists[b := Cut(g.lists[b], at)], g.key[v := NONE];
  }

  /** The buckets sort the right-hand vertices that have a neighbour by load. */
  ghost predicate Sorted(g: Graph)
    reads g, g.Buckets
  {
    && |g.adj| == g.G().size && |g.numMatched| == g.numRHS && |g.fLink| == |g.bLink| == g.G().size
    && g.BucketsReady()
    && g.key == RHSKey(g.G(), g.numMatched)
  }

  /** The bucket of each left-hand vertex: its degree, unless it has no neighbour. */
  ghost function LHSKey(g: Bipartite): (key: seq<int>)
    requires |g.adj| == g.size
    ensures |key| == g.size
    ensures forall v :: 0 <= v < g.size ==> key[v] == if g.IsLHS(v) && g.adj[v] != [] then |g.adj[v]| else NONE
  {
    seq(g.size, v requires 0 <= v < g.size => if g.IsLHS(v) && g.adj[v] != [] then |g.adj[v]| else NONE)
  }

  /** Room for buckets 0 .. top, all empty. */
  method AllocateBuckets(g: Graph, top: nat)
    requires |g.fLink| == |g.bLink|
    modifies g`Buckets, g`lists, g`key
    ensures g.BucketsReady() && fresh(g.Buckets) && |g.lists| == g.Buckets.Length == top + 1
    ensures |g.key| == |g.fLink| && forall v :: 0 <= v < |g.key| ==> g.key[v] == NONE
  {
    g.Buckets := new int[top + 1](_ => NONE);
    g.lists := seq(top + 1, _ => []);
    g.key := seq(|g.fLink|, _ => NONE);
  }

  /** Sorts the right-hand vertices that have a neighbour into buckets by load. */
  method InitializeRHSBuckets(g: Graph)
    requires |g.adj| == g.G().size && |g.numMatched| == g.numRHS && Natural(g.numMatched)
    requires |g.fLink| == |g.bLink| == g.G().size
    modifies g`maxRHSLoad, g`Buckets, g`fLink, g`bLink, g`lists, g`key
    ensures Sorted(g) && fresh(g.Buckets)
    ensures 0 <= g.maxRHSLoad && g.maxRHSLoad + 1 == |g.lists| == g.Buckets.Length
    ensures forall j :: 0 <= j < |g.numMatched| ==> g.numMatched[j] <= g.maxRHSLoad
  {
    hide BucketsValid, RHSKey;
    var maxRHSLoad := 0;
    for i := 0 to g.numRHS
      invariant 0 <= maxRHSLoad && forall j :: 0 <= j < i ==> g.numMatched[j] <= maxRHSLoad
    {
      maxRHSLoad := if maxRHSLoad > g.numMatched[i] then maxRHSLoad else g.numMatched[i];
    }
    g.maxRHSLoad := maxRHSLoad;
    AllocateBuckets(g, maxRHSLoad);
    ghost var goal := RHSKey(g.G(), g.numMatched);
    for i := 0 to g.numRHS
      invariant g.BucketsReady() && fresh(g.Buckets) && |g.lists| == g.Buckets.Length == maxRHSLoad + 1
      invariant g.maxRHSLoad == maxRHSLoad
      invariant |g.fLink| == |g.bLink| == |g.key| == g.G().size
      invariant forall v :: 0 <= v < |g.key| ==> g.key[v] == if v < g.numLHS + i then goal[v] else NONE
    {
      if g.adj[g.numLHS + i] != [] {
        AddVtxToBucket(g, g.numLHS + i, g.numMatched[i]);
      }
    }
    assert g.key == goal;
  }

  /** Sorts the left-hand vertices that have a neighbour into buckets by degree. */
  method InitializeLHSBuckets(g: Graph) returns (maxLHSDegree: nat)
    requires |g.adj| == g.G().size && |g.fLink| == |g.bLink| == g.G().size
    modifies g`Buckets, g`fLink, g`bLink, g`lists, g`key
    ensures g.BucketsReady() && fresh(g.Buckets) && g.key == LHSKey(g.G())
    ensures maxLHSDegree + 1 == |g.lists| == g.Buckets.Length
    ensures |g.fLink| == |g.bLink| == g.G().size
  {
    hide BucketsValid, LHSKey;
    maxLHSDegree := 0;
    for i := 0 to g.numLHS
      invariant forall j :: 0 <= j < i ==> |g.adj[j]| <= maxLHSDegree
    {
      maxLHSDegree := if maxLHSDegree > |g.adj[i]| then maxLHSDegree else |g.adj[i]|;
    }
    AllocateBuckets(g, maxLHSDegree);
    ghost var goal := LHSKey(g.G());
    for i := 0 to g.numLHS
      invariant g.BucketsReady() && fresh(g.Buckets) && |g.lists| == g.Buckets.Length == maxLHSDegree + 1
      invariant |g.fLink| == |g.bLink| == |g.key| == g.G().size
      invariant forall v :: 0 <= v < |g.key| ==> g.key[v] == if v < i then goal[v] else NONE
    {
      if |g.adj[i]| > 0 {
        AddVtxToBucket(g, i, |g.adj[i]|);
      }
    }
    assert g.key == goal;
  }

  /** Whoever was matched still is, with the same partner. */
  ghost predicate Extends(a: seq<int>, b: seq<int>) {
    |a| == |b| && forall l :: 0 <= l < |a| && a[l] != NONE ==> b[l] == a[l]
  }

  lemma RightNeighbours(g: Bipartite, u: int)
    requires g.Valid() && g.IsLHS(u)
    ensures |g.adj| == g.size && forall i :: 0 <= i < |g.adj[u]| ==> g.IsRHS(g.adj[u][i])
  {
  }

  /** Assigns the unmatched vertex `u` to a neighbour of least load. */
  method AssignGreedily(g: Graph, u: int)
    requires g.Sound() && g.Covered()
    requires g.G().IsLHS(u) && g.adj[u] != [] && g.matchedWith[u] == NONE
    modifies g`matchedWith, g`numMatched
    ensures g.Sound() && g.Covered() && (old(g.Exact()) ==> g.Exact())
    ensures g.matchedWith[u] != NONE && Extends(old(g.matchedWith), g.matchedWith)
    ensures exists r :: r in g.adj[u] && g.matchedWith == old(g.matchedWith)[u := r]
              && forall i :: 0 <= i < |g.adj[u]| && g.G().IsRHS(g.adj[u][i]) ==>
                old(g.LoadOf(r)) <= old(g.numMatched)[g.adj[u][i] - g.numLHS]
  {
    hide Loads, Moved, Bipartite.Valid, Covers;
    RightNeighbours(g.G(), u);
    var bestR := g.adj[u][0];
    var j := 1;
    while j < |g.adj[u]|
      invariant 1 <= j <= |g.adj[u]| && bestR in g.adj[u] && g.G().IsRHS(bestR)
      invariant forall i :: 0 <= i < j ==> g.LoadOf(bestR) <= g.LoadOf(g.adj[u][i])
    {
      var r := g.adj[u][j];
      if g.LoadOf(r) < g.LoadOf(bestR) {
        bestR := r;
      }
      j := j + 1;
    }
    RematchedLoads(g.G(), g.matchedWith, u, bestR);
    CoversChange(g.G(), g.numMatched, g.matchedWith, u, bestR);
    ghost var load := g.numMatched;
    g.matchedWith := g.matchedWith[u := bestR];
    g.numMatched := g.numMatched[bestR - g.numLHS := g.numMatched[bestR - g.numLHS] + 1];
    assert g.numMatched == Moved(g.G(), load, NONE, bestR);
  }

  /** The first `count` vertices of a bucket are matched. */
  ghost predicate MatchedUpTo(list: seq<int>, matched: seq<int>, count: int) {
    forall i :: 0 <= i < count && i < |list| && 0 <= list[i] < |matched| ==> matched[list[i]] != NONE
  }

  lemma MatchedUpToNext(list: seq<int>, a: seq<int>, b: seq<int>, count: nat)
    requires MatchedUpTo(list, a, count) && Extends(a, b)
    ensures MatchedUpTo(list, b, count)
    ensures count < |list| && 0 <= list[count] < |b| && b[list[count]] != NONE ==> MatchedUpTo(list, b, count + 1)
  {
  }

  /** Completes a partial matching: left-hand vertices in order of degree, each to its least loaded
      neighbour. */
  method OrderedGreedyAssignment(g: Graph)
    requires g.Sound() && g.Covered()
    modifies g`matchedWith, g`numMatched, g`Buckets, g`fLink, g`bLink, g`lists, g`key
    ensures g.Sound() && g.Covered() && (old(g.Exact()) ==> g.Exact()) && IsAssignment(g.G(), g.matchedWith)
    ensures Extends(old(g.matchedWith), g.matchedWith)
  {
    hide BucketsValid, LHSKey, Bipartite.Valid, MatchedUpTo, Loads, Covers;
    var maxLHSDegree := InitializeLHSBuckets(g);
    ghost var lists := g.lists;
    var b := 1;
    while b <= maxLHSDegree
      modifies g`matchedWith, g`numMatched
      invariant 1 <= b <= maxLHSDegree + 1 == |g.lists| == g.Buckets.Length
      invariant g.Sound() && g.Covered() && (old(g.Exact()) ==> g.Exact()) && g.BucketsReady()
                && g.key == LHSKey(g.G()) && g.lists == lists
      invariant Extends(old(g.matchedWith), g.matchedWith)
      invariant forall c :: 1 <= c < b ==> MatchedUpTo(lists[c], g.matchedWith, |lists[c]|)
    {
      FirstInBucket(g.Buckets[..], g.fLink, g.bLink, g.lists, g.key, b);
      var u := g.Buckets[b];
      ghost var at := 0;
      assert MatchedUpTo(lists[b], g.matchedWith, at) by { NoneMatchedYet(lists[b], g.matchedWith); }
      while u != NONE
        modifies g`matchedWith, g`numMatched
        invariant g.Sound() && g.Covered() && (old(g.Exact()) ==> g.Exact()) && g.BucketsReady() && at <= |lists[b]|
                  && u == Entry(lists[b], at)
        invariant Extends(old(g.matchedWith), g.matchedWith)
        invariant forall c :: 1 <= c < b ==> MatchedUpTo(lists[c], g.matchedWith, |lists[c]|)
        invariant MatchedUpTo(lists[b], g.matchedWith, at)
        decreases |lists[b]| - at
      {
        FollowLink(g.Buckets[..], g.fLink, g.bLink, g.lists, g.key, b, at);
        FiledLeft(g.G(), g.Buckets[..], g.fLink, g.bLink, g.lists, b, at);
        ghost var before := g.matchedWith;
        if g.matchedWith[u] == NONE {
          AssignGreedily(g, u);
        }
        forall c | 1 <= c < b ensures MatchedUpTo(lists[c], g.matchedWith, |lists[c]|) {
          MatchedUpToNext(lists[c], before, g.matchedWith, |lists[c]|);
        }
        MatchedUpToNext(lists[b], before, g.matchedWith, at);
        at := at + 1;
        u := g.fLink[u];
      }
      NoNullInBucket(g.Buckets[..], g.fLink, g.bLink, g.lists, g.key, b);
      b := b + 1;
    }
    AllMatched(g.G(), g.matchedWith, g.Buckets[..], g.fLink, g.bLink, g.lists);
  }

  lemma NoneMatchedYet(list: seq<int>, matched: seq<int>)
    ensures MatchedUpTo(list, matched, 0)
  {
  }

  lemma FiledLeft(g: Bipartite, heads: seq<int>, fLink: seq<int>, bLink: seq<int>, lists: seq<seq<int>>, b: nat,
                  at: nat)
    requires |g.adj| == g.size && BucketsValid(heads, fLink, bLink, lists, LHSKey(g))
    requires b < |lists| && at < |lists[b]|
    ensures g.IsLHS(lists[b][at]) && g.adj[lists[b][at]] != []
  {
    assert LHSKey(g)[lists[b][at]] == b;
  }

  lemma AllMatched(g: Bipartite, matched: seq<int>, heads: seq<int>, fLink: seq<int>, bLink: seq<int>,
                   lists: seq<seq<int>>)
    requires g.Valid() && IsPartial(g, matched) && BucketsValid(heads, fLink, bLink, lists, LHSKey(g))
    requires forall c :: 1 <= c < |lists| ==> MatchedUpTo(lists[c], matched, |lists[c]|)
    ensures IsAssignment(g, matched)
  {
    forall l | 0 <= l < |matched| && g.adj[l] != [] ensures matched[l] != NONE {
      var c := |g.adj[l]|;
      assert LHSKey(g)[l] == c;
      var i :| 0 <= i < |lists[c]| && lists[c][i] == l;
      assert MatchedUpTo(lists[c], matched, |lists[c]|);
    }
  }

  /** Unmarks everything in the queue. */
  method ClearMarks(g: Graph)
    requires QueueMarks(g.queue, g.parent)
    modifies g`parent, g`queue
    ensures g.queue == [] && |g.parent| == old(|g.parent|) && QueueMarks(g.queue, g.parent)
    ensures forall v :: 0 <= v < |g.parent| ==> g.parent[v] == NONE
  {
    var j := 0;
    while j < |g.queue|
      invariant 0 <= j <= |g.queue| && |g.parent| == old(|g.parent|)
      invariant forall i :: 0 <= i < |g.queue| ==> 0 <= g.queue[i] < |g.parent|
      invariant forall v :: Marked(g.parent, v) ==> v in g.queue[j..]
    {
      ghost var parent := g.parent;
      g.parent := g.parent[g.queue[j] := NONE];
      forall v | Marked(g.parent, v) ensures v in g.queue[j + 1..] {
        assert Marked(parent, v) && g.queue[j..] == [g.queue[j]] + g.queue[j + 1..];
      }
      j := j + 1;
    }
    assert g.queue[j..] == [];
    forall v | 0 <= v < |g.parent| ensures g.parent[v] == NONE {
      assert Marked(g.parent, v) <==> g.parent[v] != NONE;
    }
    g.queue := [];
  }
}
