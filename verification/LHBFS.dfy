/** The breadth-first algorithm: cost-reducing alternating paths until none is left. */
module LHBFS {
  import opened LoadVectors
  import opened Assignments
  import opened Buckets
  import opened SearchTrees
  import opened LHMain
  import opened AlternatingPaths
  import opened Sweeps

  /** The search state between two trees of one scan. */
  ghost predicate SearchReady(g: Graph)
    reads g
  {
    && g.Sound()
    && IsAssignment(g.G(), g.matchedWith)
    && QueueMarks(g.queue, g.parent)
    && PartnersMarked(g.G(), g.matchedWith, g.parent)
  }

  method AddVtxToTree(g: Graph, v: int, p: int)
    requires QueueMarks(g.queue, g.parent)
    requires 0 <= v < |g.parent| && g.parent[v] == NONE && p != NONE
    modifies g`parent, g`queue
    ensures g.parent == old(g.parent)[v := p]
    ensures |g.queue| <= |g.parent|
    ensures g.queue == old(g.queue) + [v]
    ensures QueueMarks(g.queue, g.parent)
  {
    QueueFits(g.queue, g.parent);
    MarkNext(g.queue, g.parent, v, p);
    g.parent := g.parent[v := p];
    g.queue := g.queue + [v];
  }

  /** The right-hand vertices among queue[start..] carry at most `bound`. */
  ghost predicate LoadsBelow(g: Bipartite, load: seq<int>, queue: seq<int>, start: nat, bound: int)
    requires |load| == g.numRHS
  {
    forall i :: start <= i < |queue| && g.IsRHS(queue[i]) ==> load[queue[i] - g.numLHS] <= bound
  }

  /** A tree that starts at queue[start], explored up to entry `q`, without a vertex above `bound`. */
  ghost predicate Growing(g: Bipartite, matched: seq<int>, load: seq<int>, parent: seq<int>, queue: seq<int>,
                          start: nat, q: nat, bound: int) {
    && |load| == g.numRHS && |g.adj| == g.size && q <= |queue|
    && Search(g, matched, parent, queue, start)
    && AllExplored(g, matched, parent, queue, start, q)
    && LoadsBelow(g, load, queue, start, bound)
  }

  lemma GrowingStarts(g: Bipartite, matched: seq<int>, load: seq<int>, parent: seq<int>, queue: seq<int>, u: int)
    requires g.Valid() && |matched| == g.numLHS && |load| == g.numRHS && |parent| == g.size
    requires QueueMarks(queue, parent) && PartnersMarked(g, matched, parent)
    requires g.IsRHS(u) && parent[u] == NONE
    ensures Growing(g, matched, load, parent[u := u], queue + [u], |queue|, |queue|, load[u - g.numLHS] + 1)
    ensures MarksGrow(parent, parent[u := u])
  {
    PlantTree(g, matched, parent, queue, u);
  }

  /** One more neighbour of the vertex at `q`, with at most one new right-hand vertex `m`. */
  lemma GrowingStep(g: Bipartite, matched: seq<int>, load: seq<int>, parent: seq<int>, queue: seq<int>,
                    parent': seq<int>, queue': seq<int>, start: nat, q: nat, bound: int, j: nat, m: int)
    requires Growing(g, matched, load, parent, queue, start, q, bound) && start <= q < |queue| && g.IsRHS(queue[q])
    requires j < |g.adj[queue[q]]| && g.IsLHS(g.adj[queue[q]][j])
    requires MarksGrow(parent, parent') && Search(g, matched, parent', queue', start)
    requires Explored(g, matched, parent, queue[q], j) && Marked(parent', matched[g.adj[queue[q]][j]])
    requires queue' == queue || queue' == queue + [g.adj[queue[q]][j]] ||
             (queue' == queue + [g.adj[queue[q]][j]] + [m] && g.IsRHS(m) && load[m - g.numLHS] <= bound)
    ensures Growing(g, matched, load, parent', queue', start, q, bound)
    ensures Explored(g, matched, parent', queue'[q], j + 1)
  {
    hide Tree, QueueMarks, PartnersMarked, MarksGrow, Explored, AllExplored;
    ExploredGrows(g, matched, parent, parent', queue, queue', start, q);
    ExploredNext(g, matched, parent, parent', queue[q], j);
  }

  lemma GrowingAdvances(g: Bipartite, matched: seq<int>, load: seq<int>, parent: seq<int>, queue: seq<int>,
                        start: nat, q: nat, bound: int)
    requires Growing(g, matched, load, parent, queue, start, q, bound) && q < |queue|
    requires g.IsRHS(queue[q]) ==> Explored(g, matched, parent, queue[q], |g.adj[queue[q]]|)
    ensures Growing(g, matched, load, parent, queue, start, q + 1, bound)
  {
  }

  lemma GrowingParts(g: Bipartite, matched: seq<int>, load: seq<int>, parent: seq<int>, queue: seq<int>, start: nat,
                     q: nat, bound: int)
    requires Growing(g, matched, load, parent, queue, start, q, bound)
    ensures Search(g, matched, parent, queue, start) && |parent| == g.size && |queue| <= |parent|
    ensures q < |queue| && start <= q ==> 0 <= queue[q] < g.size
  {
    SearchParts(g, matched, parent, queue, start);
    QueueFits(queue, parent);
  }

  lemma SearchFits(g: Bipartite, matched: seq<int>, parent: seq<int>, queue: seq<int>, start: nat)
    requires Search(g, matched, parent, queue, start)
    ensures |queue| <= |parent| == g.size
  {
    QueueFits(queue, parent);
  }

  /** Looks at one neighbour of `v`, and at the vertex it is matched with when both are new. */
  method VisitNeighbour(g: Graph, n: int, v: int, ghost start: nat, ghost q: nat) returns (m: int)
    requires g.Sound() && IsAssignment(g.G(), g.matchedWith)
    requires Search(g.G(), g.matchedWith, g.parent, g.queue, start)
    requires start <= q < |g.queue| && g.queue[q] == v && g.G().IsRHS(v) && n in g.adj[v]
    modifies g`parent, g`queue
    ensures |g.parent| == g.G().size
    ensures MarksGrow(old(g.parent), g.parent)
    ensures Search(g.G(), g.matchedWith, g.parent, g.queue, start)
    ensures g.G().IsLHS(n) && Marked(g.parent, g.matchedWith[n])
    ensures m == NONE ==> g.queue == old(g.queue) || g.queue == old(g.queue) + [n]
    ensures m != NONE ==> g.queue == old(g.queue) + [n] + [m] && g.G().IsRHS(m)
  {
    hide Search, MarksGrow, QueueMarks, PartnersMarked;
    m := NONE;
    ghost var queue := g.queue;
    assert v in queue[start..] by { assert queue[start..][q - start] == v; }
    if g.matchedWith[n] != v && g.parent[n] == NONE {
      MarkPair(g.G(), g.matchedWith, g.parent, queue, start, v, n);
      SearchParts(g.G(), g.matchedWith, g.parent, queue, start);
      AddVtxToTree(g, n, v);
      if g.parent[g.matchedWith[n]] == NONE {
        m := g.matchedWith[n];
        AddVtxToTree(g, m, n);
      }
    } else {
      PassedOver(g.G(), g.matchedWith, g.parent, queue, start, v, n);
    }
  }

  /** Grows a tree from `u`. Unless it meets a vertex loaded two above `u`, the whole tree is explored. */
  method DoBFS(g: Graph, u: int) returns (m: int)
    requires SearchReady(g)
    requires g.G().IsRHS(u) && g.parent[u] == NONE
    modifies g`parent, g`queue
    ensures |g.parent| == g.G().size && |g.queue| <= |g.parent|
    ensures old(g.queue) + [u] <= g.queue
    ensures MarksGrow(old(g.parent), g.parent)
    ensures Search(g.G(), g.matchedWith, g.parent, g.queue, |old(g.queue)|)
    ensures m == NONE ==> Growing(g.G(), g.matchedWith, g.numMatched, g.parent, g.queue, |old(g.queue)|, |g.queue|,
                                  g.LoadOf(u) + 1)
    ensures m != NONE ==> m == g.queue[|g.queue| - 1] && |old(g.queue)| + 1 < |g.queue| && g.G().IsRHS(m)
    ensures m != NONE ==> g.LoadOf(m) >= g.LoadOf(u) + 2
  {
    hide Search, MarksGrow, QueueMarks, PartnersMarked, Growing, Explored;
    ghost var start, before := |g.queue|, g.queue;
    var q := |g.queue|;
    GrowingStarts(g.G(), g.matchedWith, g.numMatched, g.parent, before, u);
    AddVtxToTree(g, u, u);
    while q < |g.queue|
      invariant start <= q <= |g.queue|
      invariant before + [u] <= g.queue
      invariant MarksGrow(old(g.parent), g.parent)
      invariant Growing(g.G(), g.matchedWith, g.numMatched, g.parent, g.queue, start, q, g.LoadOf(u) + 1)
      decreases g.G().size - q
    {
      GrowingParts(g.G(), g.matchedWith, g.numMatched, g.parent, g.queue, start, q, g.LoadOf(u) + 1);
      var v := g.queue[q];
      if !g.G().IsLHS(v) {
        ghost var parent := g.parent;
        m := ScanNeighbours(g, u, v, start, q);
        MarksGrowFurther(old(g.parent), parent, g.parent);
        if m != NONE {
          SearchFits(g.G(), g.matchedWith, g.parent, g.queue, start);
          return;
        }
      }
      GrowingAdvances(g.G(), g.matchedWith, g.numMatched, g.parent, g.queue, start, q, g.LoadOf(u) + 1);
      q := q + 1;
    }
    GrowingParts(g.G(), g.matchedWith, g.numMatched, g.parent, g.queue, start, q, g.LoadOf(u) + 1);
    m := NONE;
  }

  /** The inner loop of DoBFS: the neighbours of the dequeued vertex `v`. */
  method ScanNeighbours(g: Graph, u: int, v: int, ghost start: nat, ghost q: nat) returns (m: int)
    requires g.Sound() && IsAssignment(g.G(), g.matchedWith) && g.G().IsRHS(u)
    requires start <= q < |g.queue| && g.queue[q] == v && g.G().IsRHS(v)
    requires Growing(g.G(), g.matchedWith, g.numMatched, g.parent, g.queue, start, q, g.LoadOf(u) + 1)
    modifies g`parent, g`queue
    ensures old(g.queue) <= g.queue && MarksGrow(old(g.parent), g.parent)
    ensures Search(g.G(), g.matchedWith, g.parent, g.queue, start)
    ensures m == NONE ==> Growing(g.G(), g.matchedWith, g.numMatched, g.parent, g.queue, start, q, g.LoadOf(u) + 1)
    ensures m == NONE ==> Explored(g.G(), g.matchedWith, g.parent, v, |g.adj[v]|)
    ensures m != NONE ==> m == g.queue[|g.queue| - 1] && q + 1 < |g.queue| && g.G().IsRHS(m)
    ensures m != NONE ==> g.LoadOf(m) >= g.LoadOf(u) + 2
  {
    hide Search, MarksGrow, QueueMarks, PartnersMarked, Growing, Explored;
    var j := 0;
    MarksGrowSame(g.parent);
    ExploredNothing(g.G(), g.matchedWith, g.parent, v);
    while j < |g.adj[v]|
      invariant 0 <= j <= |g.adj[v]|
      invariant q < |g.queue| && g.queue[q] == v && old(g.queue) <= g.queue
      invariant MarksGrow(old(g.parent), g.parent)
      invariant Growing(g.G(), g.matchedWith, g.numMatched, g.parent, g.queue, start, q, g.LoadOf(u) + 1)
      invariant Explored(g.G(), g.matchedWith, g.parent, v, j)
    {
      ghost var queue, parent := g.queue, g.parent;
      GrowingParts(g.G(), g.matchedWith, g.numMatched, g.parent, g.queue, start, q, g.LoadOf(u) + 1);
      m := VisitNeighbour(g, g.adj[v][j], v, start, q);
      MarksGrowFurther(old(g.parent), parent, g.parent);
      if m != NONE && g.LoadOf(m) >= g.LoadOf(u) + 2 {
        return;
      }
      GrowingStep(g.G(), g.matchedWith, g.numMatched, parent, queue, g.parent, g.queue, start, q, g.LoadOf(u) + 1, j,
                  m);
      j := j + 1;
    }
    GrowingParts(g.G(), g.matchedWith, g.numMatched, g.parent, g.queue, start, q, g.LoadOf(u) + 1);
    m := NONE;
  }

  /** Switches the matching edges along the parent pointers from `v` up to the root `u`. */
  method SwitchPath(g: Graph, u: int, v: int, ghost start: nat)
    requires g.Sound() && IsAssignment(g.G(), g.matchedWith)
    requires Search(g.G(), g.matchedWith, g.parent, g.queue, start)
    requires start + 1 < |g.queue| && g.queue[start] == u && g.queue[|g.queue| - 1] == v && g.G().IsRHS(v)
    modifies g`matchedWith
    ensures g.Sound() && Switching(g.G(), old(g.matchedWith), g.matchedWith, g.parent, g.queue, start, start, v)
  {
    hide Search, Switching;
    var w := v;
    ghost var i := |g.queue| - 1;
    ghost var before := g.matchedWith;
    SwitchStarts(g.G(), g.matchedWith, g.parent, g.queue, start, i);
    while w != u
      invariant g.Sound() && start <= i < |g.queue| && w == g.queue[i] && g.G().IsRHS(w)
      invariant Switching(g.G(), before, g.matchedWith, g.parent, g.queue, start, i, v)
      decreases i
    {
      i := SwitchStep(g.G(), before, g.matchedWith, g.parent, g.queue, start, i, v);
      var p := g.parent[w];
      w := g.parent[p];
      g.matchedWith := g.matchedWith[p := w];
      SwitchingParts(g.G(), before, g.matchedWith, g.parent, g.queue, start, i, v);
    }
    SwitchingEnds(g.G(), before, g.matchedWith, g.parent, g.queue, start, i, v);
  }

  /** Changes the load of `x` and moves it to the bucket of its new load. */
  method MoveVtx(g: Graph, x: int, change: int, ghost at: nat)
    requires Sorted(g) && g.G().IsRHS(x) && g.adj[x] != []
    requires 0 <= g.LoadOf(x) < |g.lists| && at < |g.lists[g.LoadOf(x)]| && g.lists[g.LoadOf(x)][at] == x
    requires 0 <= g.LoadOf(x) + change < |g.lists| && change != 0
    modifies g`numMatched, g`fLink, g`bLink, g`lists, g`key, g.Buckets
    ensures Sorted(g)
    ensures g.numMatched == old(g.numMatched)[x - g.numLHS := old(g.LoadOf(x)) + change]
    ensures |g.lists| == old(|g.lists|)
    ensures g.lists[old(g.LoadOf(x))] == old(Cut(g.lists[g.LoadOf(x)], at))
    ensures forall b :: 0 <= b < |g.lists| && b != old(g.LoadOf(x)) && b != old(g.LoadOf(x)) + change ==>
              g.lists[b] == old(g.lists)[b]
  {
    hide Filed, LinkedList, Distinct;
    RemoveVtxFromBucket(g, x, g.LoadOf(x), at);
    g.numMatched := g.numMatched[x - g.numLHS := g.numMatched[x - g.numLHS] + change];
    AddVtxToBucket(g, x, g.LoadOf(x));
    assert g.key == RHSKey(g.G(), g.numMatched);
  }

  lemma PlaceOf(g: Graph, x: int) returns (at: nat)
    requires Sorted(g) && g.G().IsRHS(x) && g.adj[x] != [] && g.LoadOf(x) != NONE
    ensures 0 <= g.LoadOf(x) < |g.lists| && at < |g.lists[g.LoadOf(x)]| && g.lists[g.LoadOf(x)][at] == x
  {
    hide BucketsValid;
    FiledBucket(g.Buckets[..], g.fLink, g.bLink, g.lists, g.key, x);
    at :| 0 <= at < |g.lists[g.LoadOf(x)]| && g.lists[g.LoadOf(x)][at] == x;
  }

  /** Moves `u` one bucket up and `v` one bucket down. */
  method MoveEndpoints(g: Graph, u: int, v: int, ghost at: nat)
    requires Sorted(g) && g.G().IsRHS(u) && g.G().IsRHS(v) && g.adj[u] != [] && g.adj[v] != []
    requires 0 <= g.LoadOf(u) && g.LoadOf(u) + 2 <= g.LoadOf(v)
    requires g.LoadOf(u) < |g.lists| && at < |g.lists[g.LoadOf(u)]| && g.lists[g.LoadOf(u)][at] == u
    modifies g`numMatched, g`fLink, g`bLink, g`lists, g`key, g.Buckets
    ensures Sorted(g)
    ensures g.numMatched == old(Balanced(g.G(), g.numMatched, u, v))
    ensures |g.lists| == old(|g.lists|)
    ensures g.lists[old(g.LoadOf(u))] == old(Cut(g.lists[g.LoadOf(u)], at))
  {
    hide BucketsValid, RHSKey;
    ghost var place := PlaceOf(g, v);
    MoveVtx(g, u, 1, at);
    place := PlaceOf(g, v);
    MoveVtx(g, v, -1, place);
  }

  /** Everything that holds between two searches of a scan. */
  ghost predicate ScanReady(g: Graph)
    reads g, g.Buckets
  {
    && SearchReady(g)
    && g.Covered()
    && Sorted(g)
    && g.maxRHSLoad < |g.lists| == g.Buckets.Length
    && forall j :: 0 <= j < |g.numMatched| ==> g.numMatched[j] <= g.maxRHSLoad
  }

  /** Switches along the path just found and moves its two end points to their new buckets. Only the
      two end loads change, and the cost drops. */
  method UpdateNegPath(g: Graph, u: int, v: int, ghost start: nat, ghost at: nat)
    requires g.Sound() && IsAssignment(g.G(), g.matchedWith) && g.Covered() && Sorted(g)
    requires Search(g.G(), g.matchedWith, g.parent, g.queue, start)
    requires start + 1 < |g.queue| && g.queue[start] == u && g.queue[|g.queue| - 1] == v
    requires g.G().IsRHS(u) && g.G().IsRHS(v) && g.LoadOf(u) + 2 <= g.LoadOf(v)
    requires g.LoadOf(u) < |g.lists| && at < |g.lists[g.LoadOf(u)]| && g.lists[g.LoadOf(u)][at] == u
    modifies g`matchedWith, g`numMatched, g`fLink, g`bLink, g`lists, g`key, g.Buckets
    ensures SearchReady(g) && g.Covered() && (old(g.Exact()) ==> g.Exact()) && Sorted(g)
    ensures forall l :: g.G().IsLHS(l) && g.matchedWith[l] != old(g.matchedWith[l]) ==> l in g.queue[start..]
    ensures g.numMatched == old(Balanced(g.G(), g.numMatched, u, v))
    ensures Cost(g.numMatched) < old(Cost(g.numMatched))
    ensures |g.lists| == old(|g.lists|)
    ensures g.lists[old(g.LoadOf(u))] == old(Cut(g.lists[g.LoadOf(u)], at))
  {
    hide Search, Switching, BucketsValid, QueueMarks, PartnersMarked, Cost, IsAssignment, IsPartial, Bipartite.Valid,
         RHSKey, Balanced, Loads, Covers;
    ghost var before, load, bip := g.matchedWith, g.numMatched, g.G();
    SearchParts(g.G(), g.matchedWith, g.parent, g.queue, start);
    CoversNatural(bip, g.numMatched, g.matchedWith);
    FiledHasNeighbour(bip, g.numMatched, g.Buckets[..], g.fLink, g.bLink, g.lists, g.LoadOf(u), at);
    SwitchPath(g, u, v, start);
    SwitchingParts(bip, before, g.matchedWith, g.parent, g.queue, start, start, v);
    SwitchedLoads(bip, before, g.matchedWith, u, v);
    BalancedCost(bip, g.numMatched, u, v);
    CoversBalanced(bip, load, before, g.matchedWith, u, v);
    MoveEndpoints(g, u, v, at);
  }

  /** Recorded and real loads change alike. */
  lemma CoversBalanced(g: Bipartite, load: seq<int>, before: seq<int>, matched: seq<int>, u: int, v: int)
    requires Covers(g, load, before) && g.IsRHS(u) && g.IsRHS(v) && u != v && g.adj[u] != []
    requires Loads(g, matched) == Balanced(g, Loads(g, before), u, v)
    ensures Covers(g, Balanced(g, load, u, v), matched)
    ensures load == Loads(g, before) ==> Balanced(g, load, u, v) == Loads(g, matched)
  {
    hide Loads;
    forall r | g.IsRHS(r)
      ensures Load(matched, r) == Load(before, r) + (if r == u then 1 else 0) - (if r == v then 1 else 0) {
      assert Loads(g, matched)[r - g.numLHS] == Load(matched, r) && Loads(g, before)[r - g.numLHS] == Load(before, r);
    }
  }

  lemma FiledHasNeighbour(g: Bipartite, load: seq<int>, heads: seq<int>, fLink: seq<int>, bLink: seq<int>,
                          lists: seq<seq<int>>, b: nat, at: nat)
    requires |g.adj| == g.size && |load| == g.numRHS
    requires BucketsValid(heads, fLink, bLink, lists, RHSKey(g, load))
    requires b < |lists| && at < |lists[b]|
    ensures g.IsRHS(lists[b][at]) && g.adj[lists[b][at]] != [] && load[lists[b][at] - g.numLHS] == b
  {
    assert RHSKey(g, load)[lists[b][at]] == b;
  }

  /** Every vertex in the first `count` places of a bucket has been visited. */
  ghost predicate VisitedUpTo(list: seq<int>, parent: seq<int>, count: nat) {
    forall i :: 0 <= i < count && i < |list| ==> Marked(parent, list[i])
  }

  lemma VisitedGrows(list: seq<int>, parent: seq<int>, parent': seq<int>, count: nat)
    requires VisitedUpTo(list, parent, count) && MarksGrow(parent, parent')
    ensures VisitedUpTo(list, parent', count)
    ensures count < |list| && Marked(parent', list[count]) ==> VisitedUpTo(list, parent', count + 1)
    ensures count < |list| ==>
              VisitedUpTo(Cut(list, count), parent', count) && Entry(Cut(list, count), count) == Entry(list, count + 1)
  {
  }

  /** Searching for a cost-reducing path from `u`, the vertex at place `at` of bucket `b`, and switching
      along it if there is one. */
  method TryRoot(g: Graph, u: int, b: int, ghost at: nat) returns (augmented: bool)
    requires ScanReady(g) && 0 <= b <= g.maxRHSLoad - 2
    requires at < |g.lists[b]| && g.lists[b][at] == u && 0 <= u < |g.parent| && g.parent[u] == NONE
    modifies g`matchedWith, g`numMatched, g`parent, g`queue, g`fLink, g`bLink, g`lists, g`key, g.Buckets
    ensures ScanReady(g) && |g.lists| == old(|g.lists|) && (old(g.Exact()) ==> g.Exact())
    ensures MarksGrow(old(g.parent), g.parent) && Marked(g.parent, u)
    ensures g.lists[b] == if augmented then old(Cut(g.lists[b], at)) else old(g.lists[b])
    ensures augmented ==> Cost(g.numMatched) < old(Cost(g.numMatched))
    ensures !augmented ==> g.matchedWith == old(g.matchedWith) && g.numMatched == old(g.numMatched)
    ensures !augmented && old(Swept(g.G(), g.matchedWith, g.numMatched, g.parent, g.queue, b, b + 1)) ==>
              Swept(g.G(), g.matchedWith, g.numMatched, g.parent, g.queue, b, b + 1)
  {
    hide Search, BucketsValid, QueueMarks, PartnersMarked, Cost, IsAssignment, IsPartial, Bipartite.Valid, RHSKey,
         Balanced, Loads, MarksGrow, Swept, Growing, Covers;
    ghost var start, before, parent := |g.queue|, g.queue, g.parent;
    FiledHasNeighbour(g.G(), g.numMatched, g.Buckets[..], g.fLink, g.bLink, g.lists, b, at);
    var m := DoBFS(g, u);
    SearchParts(g.G(), g.matchedWith, g.parent, g.queue, start);
    RootMarked(g.parent, before, u, g.queue);
    if m != NONE {
      ghost var load := g.numMatched;
      UpdateNegPath(g, u, m, start, at);
      BalancedBelow(g.G(), load, u, m, g.maxRHSLoad);
      augmented := true;
    } else {
      augmented := false;
      if Swept(g.G(), g.matchedWith, g.numMatched, parent, before, b, b + 1) {
        FruitlessTree(g.G(), g.matchedWith, g.numMatched, parent, before, g.parent, g.queue, b);
      }
    }
  }

  lemma RootMarked(parent: seq<int>, before: seq<int>, u: int, queue: seq<int>)
    requires before + [u] <= queue && QueueMarks(queue, parent)
    ensures Marked(parent, u) && |before| < |queue| && queue[|before|] == u
  {
    assert queue[|before|] == u;
  }

  lemma BalancedBelow(g: Bipartite, load: seq<int>, u: int, v: int, top: int)
    requires |load| == g.numRHS && g.IsRHS(u) && g.IsRHS(v) && load[u - g.numLHS] + 2 <= load[v - g.numLHS]
    requires forall j :: 0 <= j < |load| ==> load[j] <= top
    ensures forall j :: 0 <= j < |load| ==> Balanced(g, load, u, v)[j] <= top
  {
  }

  lemma FruitlessTree(g: Bipartite, matched: seq<int>, load: seq<int>, parent: seq<int>, queue: seq<int>,
                      parent': seq<int>, queue': seq<int>, b: int)
    requires Swept(g, matched, load, parent, queue, b, b + 1) && QueueMarks(queue, parent)
    requires Growing(g, matched, load, parent', queue', |queue|, |queue'|, b + 1)
    requires queue <= queue' && MarksGrow(parent, parent')
    ensures Swept(g, matched, load, parent', queue', b, b + 1)
  {
    SweepTree(g, matched, load, parent, queue, parent', queue', b);
  }

  /** The inner loop of a scan: every vertex of bucket `b` that no tree has reached becomes a root. */
  method ScanBucket(g: Graph, b: int) returns (augmented: bool)
    requires ScanReady(g) && 0 <= b <= g.maxRHSLoad - 2
    modifies g`matchedWith, g`numMatched, g`parent, g`queue, g`fLink, g`bLink, g`lists, g`key, g.Buckets
    ensures ScanReady(g) && (old(g.Exact()) ==> g.Exact())
    ensures augmented ==> Cost(g.numMatched) < old(Cost(g.numMatched))
    ensures !augmented ==> g.matchedWith == old(g.matchedWith) && g.numMatched == old(g.numMatched)
    ensures !augmented && old(Swept(g.G(), g.matchedWith, g.numMatched, g.parent, g.queue, b, b + 1)) ==>
              Swept(g.G(), g.matchedWith, g.numMatched, g.parent, g.queue, b + 1, b + 1)
  {
    hide BucketsValid, QueueMarks, PartnersMarked, Cost, IsAssignment, IsPartial, Bipartite.Valid, RHSKey, Loads,
         MarksGrow, Swept, VisitedUpTo, Cut, Covers;
    FirstInBucket(g.Buckets[..], g.fLink, g.bLink, g.lists, g.key, b);
    augmented := false;
    var u := g.Buckets[b];
    ghost var at := 0;
    NothingVisited(g.lists[b], g.parent);
    while u != NONE
      invariant ScanReady(g) && (old(g.Exact()) ==> g.Exact()) && at <= |g.lists[b]| && u == Entry(g.lists[b], at)
      invariant VisitedUpTo(g.lists[b], g.parent, at)
      invariant augmented ==> Cost(g.numMatched) < old(Cost(g.numMatched))
      invariant !augmented ==> g.matchedWith == old(g.matchedWith) && g.numMatched == old(g.numMatched)
      invariant !augmented && old(Swept(g.G(), g.matchedWith, g.numMatched, g.parent, g.queue, b, b + 1)) ==>
                  Swept(g.G(), g.matchedWith, g.numMatched, g.parent, g.queue, b, b + 1)
      decreases |g.lists[b]| - at
    {
      FollowLink(g.Buckets[..], g.fLink, g.bLink, g.lists, g.key, b, at);
      ghost var list, parent := g.lists[b], g.parent;
      var nextU := g.fLink[u];
      var found := false;
      if g.parent[u] == NONE {
        found := TryRoot(g, u, b, at);
        augmented := augmented || found;
      } else {
        MarksGrowSame(g.parent);
      }
      VisitedGrows(list, parent, g.parent, at);
      CutLength(list, at);
      if !found {
        at := at + 1;
      }
      u := nextU;
    }
    NoNullInBucket(g.Buckets[..], g.fLink, g.bLink, g.lists, g.key, b);
    if !augmented && old(Swept(g.G(), g.matchedWith, g.numMatched, g.parent, g.queue, b, b + 1)) {
      BucketSwept(g.G(), g.matchedWith, g.numMatched, g.parent, g.queue, g.Buckets[..], g.fLink, g.bLink, g.lists, b,
                  at);
    }
  }

  lemma NothingVisited(list: seq<int>, parent: seq<int>)
    ensures VisitedUpTo(list, parent, 0)
  {
  }

  lemma CutLength(list: seq<int>, at: nat)
    requires at < |list|
    ensures |Cut(list, at)| == |list| - 1
  {
  }

  lemma BucketSwept(g: Bipartite, matched: seq<int>, load: seq<int>, parent: seq<int>, queue: seq<int>,
                    heads: seq<int>, fLink: seq<int>, bLink: seq<int>, lists: seq<seq<int>>, b: nat, count: nat)
    requires |g.adj| == g.size && |load| == g.numRHS && BucketsValid(heads, fLink, bLink, lists, RHSKey(g, load))
    requires b < |lists| && |lists[b]| <= count && VisitedUpTo(lists[b], parent, count)
    requires Swept(g, matched, load, parent, queue, b, b + 1)
    ensures Swept(g, matched, load, parent, queue, b + 1, b + 1)
  {
    forall r | g.IsRHS(r) && g.adj[r] != [] && load[r - g.numLHS] == b ensures Marked(parent, r) {
      assert RHSKey(g, load)[r] == b;
      var i :| 0 <= i < |lists[b]| && lists[b][i] == r;
    }
    SweepBucket(g, matched, load, parent, queue, b);
  }

  /** Scans all buckets from low to high load. If nothing was improved and the recorded loads are the real ones, the
      assignment is certified. The final loop runs off the front of the bucket array, here a fault, exactly when there
      is no edge. */
  method DoFullScan(g: Graph) returns (augmented: bool, fault: bool)
    requires ScanReady(g) && g.queue == []
    modifies g`matchedWith, g`numMatched, g`parent, g`queue, g`fLink, g`bLink, g`lists, g`key, g`maxRHSLoad, g.Buckets
    ensures fault <==> !g.G().HasEdge()
    ensures !fault ==> ScanReady(g)
    ensures old(g.Exact()) ==> g.Exact()
    ensures augmented ==> Cost(g.numMatched) < old(Cost(g.numMatched))
    ensures !augmented ==> g.matchedWith == old(g.matchedWith) && g.numMatched == old(g.numMatched)
    ensures !augmented && old(g.Exact()) ==> Certified(g.G(), g.matchedWith)
  {
    hide BucketsValid, QueueMarks, PartnersMarked, Cost, IsAssignment, IsPartial, Bipartite.Valid, RHSKey, Loads,
         Swept, HasCertificate, Covers;
    augmented := false;
    var b := 0;
    CoversNatural(g.G(), g.numMatched, g.matchedWith);
    EmptySweep(g.G(), g.matchedWith, g.numMatched, g.parent);
    while b <= g.maxRHSLoad - 2
      invariant ScanReady(g) && (old(g.Exact()) ==> g.Exact()) && 0 <= b && g.maxRHSLoad == old(g.maxRHSLoad)
                && (b == 0 || b < g.maxRHSLoad)
      invariant augmented ==> Cost(g.numMatched) < old(Cost(g.numMatched))
      invariant !augmented ==> g.matchedWith == old(g.matchedWith) && g.numMatched == old(g.numMatched)
      invariant !augmented ==> Swept(g.G(), g.matchedWith, g.numMatched, g.parent, g.queue, b, b)
      invariant !augmented && old(g.Exact()) ==> forall k: nat :: k < b ==> HasCertificate(g.G(), g.matchedWith, k)
    {
      if !augmented {
        if g.Exact() {
          SweptCertifies(g.G(), g.matchedWith, g.parent, g.queue, b);
        }
        SweptLoosens(g.G(), g.matchedWith, g.numMatched, g.parent, g.queue, b);
      }
      var found := ScanBucket(g, b);
      augmented := augmented || found;
      b := b + 1;
    }
    if !augmented && old(g.Exact()) {
      SweptCertifies(g.G(), g.matchedWith, g.parent, g.queue, b);
      forall k: nat ensures HasCertificate(g.G(), g.matchedWith, k) {
        if b < k {
          NothingAbove(g.G(), g.matchedWith, k);
        }
      }
    }
    fault := LowerMaximum(g);
  }

  lemma EmptySweep(g: Bipartite, matched: seq<int>, load: seq<int>, parent: seq<int>)
    requires |g.adj| == g.size && |parent| == g.size && QueueMarks([], parent) && |load| == g.numRHS && Natural(load)
    ensures Swept(g, matched, load, parent, [], 0, 0)
  {
    forall v | 0 <= v < |parent| ensures parent[v] == NONE {
      assert v !in [] && (Marked(parent, v) <==> parent[v] != NONE);
    }
    SweepStarts(g, matched, load, parent);
  }

  lemma SweptLoosens(g: Bipartite, matched: seq<int>, load: seq<int>, parent: seq<int>, queue: seq<int>, b: int)
    requires Swept(g, matched, load, parent, queue, b, b)
    ensures Swept(g, matched, load, parent, queue, b, b + 1)
  {
  }

  /** Brings maxRHSLoad down to the highest bucket in use. */
  method LowerMaximum(g: Graph) returns (fault: bool)
    requires ScanReady(g)
    modifies g`maxRHSLoad
    ensures fault <==> !g.G().HasEdge()
    ensures !fault ==> ScanReady(g)
  {
    hide QueueMarks, PartnersMarked, Loads, Covers, Natural, BucketsValid, RHSKey, IsAssignment, IsPartial,
         Bipartite.Valid, Bipartite.HasEdge;
    CoversNatural(g.G(), g.numMatched, g.matchedWith);
    BoundedStarts(g.G(), g.numMatched, g.maxRHSLoad);
    while 0 <= g.maxRHSLoad && g.Buckets[g.maxRHSLoad] == NONE
      invariant g.maxRHSLoad < |g.lists|
      invariant Bounded(g.G(), g.numMatched, g.maxRHSLoad)
      decreases g.maxRHSLoad
    {
      BoundedStep(g.G(), g.numMatched, g.Buckets[..], g.fLink, g.bLink, g.lists, g.maxRHSLoad);
      g.maxRHSLoad := g.maxRHSLoad - 1;
    }
    fault := g.maxRHSLoad < 0;
    if fault {
      NoEdge(g.G(), g.numMatched, g.maxRHSLoad);
    } else {
      FirstInBucket(g.Buckets[..], g.fLink, g.bLink, g.lists, g.key, g.maxRHSLoad);
      FiledHasNeighbour(g.G(), g.numMatched, g.Buckets[..], g.fLink, g.bLink, g.lists, g.maxRHSLoad, 0);
      EdgeFromRight(g.G(), g.lists[g.maxRHSLoad][0]);
      BoundedEnds(g.G(), g.numMatched, g.matchedWith, g.maxRHSLoad);
    }
  }

  /** No right-hand vertex with a neighbour carries more than `top`. */
  ghost predicate Bounded(g: Bipartite, load: seq<int>, top: int)
    requires |load| == g.numRHS && |g.adj| == g.size
  {
    forall r :: g.IsRHS(r) && g.adj[r] != [] ==> load[r - g.numLHS] <= top
  }

  lemma BoundedStarts(g: Bipartite, load: seq<int>, top: int)
    requires |load| == g.numRHS && |g.adj| == g.size && forall j :: 0 <= j < |load| ==> load[j] <= top
    ensures Bounded(g, load, top)
  {
  }

  lemma BoundedStep(g: Bipartite, load: seq<int>, heads: seq<int>, fLink: seq<int>, bLink: seq<int>,
                    lists: seq<seq<int>>, top: nat)
    requires |load| == g.numRHS && |g.adj| == g.size && BucketsValid(heads, fLink, bLink, lists, RHSKey(g, load))
    requires Bounded(g, load, top) && top < |lists| && heads[top] == NONE
    ensures Bounded(g, load, top - 1)
  {
    FirstInBucket(heads, fLink, bLink, lists, RHSKey(g, load), top);
    forall r | g.IsRHS(r) && g.adj[r] != [] ensures load[r - g.numLHS] <= top - 1 {
      assert RHSKey(g, load)[r] == load[r - g.numLHS];
    }
  }

  lemma BoundedEnds(g: Bipartite, load: seq<int>, matched: seq<int>, top: nat)
    requires g.Valid() && Covers(g, load, matched) && Bounded(g, load, top)
    ensures forall j :: 0 <= j < g.numRHS ==> load[j] <= top
  {
    forall j | 0 <= j < g.numRHS ensures load[j] <= top {
      assert g.IsRHS(g.numLHS + j);
    }
  }

  lemma NoEdge(g: Bipartite, load: seq<int>, top: int)
    requires g.Valid() && |load| == g.numRHS && Natural(load) && Bounded(g, load, top) && top < 0
    ensures !g.HasEdge()
  {
    forall l | g.IsLHS(l) ensures g.adj[l] == [] {
      if g.adj[l] != [] {
        EdgeToRight(g, l);
      }
    }
  }

  lemma EdgeToRight(g: Bipartite, l: int)
    requires g.Valid() && g.IsLHS(l) && g.adj[l] != []
    ensures g.IsRHS(g.adj[l][0]) && g.adj[g.adj[l][0]] != []
  {
    var r := g.adj[l][0];
    assert r in g.adj[l] && l in g.adj[r];
  }

  lemma EdgeFromRight(g: Bipartite, r: int)
    requires g.Valid() && g.IsRHS(r) && g.adj[r] != []
    ensures g.HasEdge()
  {
    var l := g.adj[r][0];
    assert l in g.adj[r] && r in g.adj[l];
  }

  /** Scans again and again until one makes no improvement. */
  method MainLoop(g: Graph) returns (fault: bool)
    requires ScanReady(g)
    modifies g`matchedWith, g`numMatched, g`parent, g`queue, g`fLink, g`bLink, g`lists, g`key, g`maxRHSLoad, g.Buckets
    ensures fault <==> !g.G().HasEdge()
    ensures !fault ==> ScanReady(g)
    ensures !fault && old(g.Exact()) ==> g.Exact() && Certified(g.G(), g.matchedWith)
  {
    hide Loads, Covers, BucketsValid, RHSKey, QueueMarks, Marked, Cost, Bipartite.Valid, Bipartite.HasEdge, Certified;
    var improved := true;
    fault := false;
    while improved && !fault
      invariant !fault ==> ScanReady(g)
      invariant fault ==> !g.G().HasEdge()
      invariant old(g.Exact()) ==> g.Exact()
      invariant !improved && !fault ==> g.G().HasEdge() && (old(g.Exact()) ==> Certified(g.G(), g.matchedWith))
      decreases Cost(g.numMatched), improved
    {
      CoversNatural(g.G(), g.numMatched, g.matchedWith);
      CostNonNegative(g.numMatched);
      ClearMarks(g);
      NoPartners(g.G(), g.matchedWith, g.parent);
      improved, fault := DoFullScan(g);
    }
  }

  lemma NoPartners(g: Bipartite, matched: seq<int>, parent: seq<int>)
    requires |matched| == g.numLHS && forall v :: 0 <= v < |parent| ==> parent[v] == NONE
    ensures PartnersMarked(g, matched, parent)
  {
  }

  /** Clears all parent pointers and empties the queue. */
  method InitializeBFS(g: Graph)
    modifies g`parent, g`queue
    ensures g.queue == [] && |g.parent| == old(|g.parent|)
    ensures forall v :: 0 <= v < |g.parent| ==> g.parent[v] == NONE
  {
    for i := 0 to |g.parent|
      invariant |g.parent| == old(|g.parent|) && forall v :: 0 <= v < i ==> g.parent[v] == NONE
    {
      g.parent := g.parent[i := NONE];
    }
    g.queue := [];
  }

  lemma NoMarks(parent: seq<int>)
    requires forall v :: 0 <= v < |parent| ==> parent[v] == NONE
    ensures QueueMarks([], parent)
  {
  }

  /** The whole algorithm. From every partial matching whose loads are recorded, on every graph with an edge, it ends
      with an LH matching; if some recorded loads are too high, still with an assignment. */
  method LHAlgBFS(g: Graph) returns (fault: bool)
    requires g.Sound() && g.Covered()
    modifies g
    ensures g.adj == old(g.adj)
    ensures fault <==> !g.G().HasEdge()
    ensures !fault ==> g.Sound() && g.Covered() && IsAssignment(g.G(), g.matchedWith)
    ensures !fault && old(g.Exact()) ==> g.Exact() && IsLHMatching(g.G(), g.matchedWith)
  {
    hide BucketsValid, RHSKey, LHSKey, QueueMarks, Bipartite.Valid, Bipartite.HasEdge, Certified, IsLHMatching,
         Loads, PartnersMarked, Covers, IsAssignment, IsPartial;
    OrderedGreedyAssignment(g);
    InitializeBFS(g);
    CoversNatural(g.G(), g.numMatched, g.matchedWith);
    InitializeRHSBuckets(g);
    NoMarks(g.parent);
    NoPartners(g.G(), g.matchedWith, g.parent);
    fault := MainLoop(g);
    if !fault && old(g.Exact()) {
      CertifiedIsLHMatching(g.G(), g.matchedWith);
    }
  }
}
