/** The online algorithm: one left-hand vertex at a time, each along a path to the least loaded vertex in reach. */
module LHOnline {
  import opened Totals
  import opened LoadVectors
  import opened Assignments
  import opened Buckets
  import opened SearchTrees
  import opened LHMain
  import opened OnlineTrees
  import opened Cardinality

  /** Enqueues the unmarked neighbours of `v`; only those matched with it if `matchedOnly`. */
  method EnqueueNbr(g: Graph, v: int, matchedOnly: bool, ghost u: int)
    requires g.Sound() && Rooted(g.G(), g.matchedWith, g.parent, g.queue, u)
    requires v in g.queue && 0 <= v < g.G().size && (matchedOnly <==> g.G().IsRHS(v))
    modifies g`parent, g`queue
    ensures Rooted(g.G(), g.matchedWith, g.parent, g.queue, u)
    ensures old(g.queue) <= g.queue && MarksGrow(old(g.parent), g.parent)
    ensures Followed(g.G(), g.matchedWith, g.parent, v, |g.adj[v]|)
  {
    hide Rooted, Followed, MarksGrow, Marked, Bipartite.Valid, IsPartial;
    FollowedNothing(g.G(), g.matchedWith, g.parent, v);
    MarksGrowSame(g.parent);
    var i := 0;
    while i < |g.adj[v]|
      invariant 0 <= i <= |g.adj[v]|
      invariant Rooted(g.G(), g.matchedWith, g.parent, g.queue, u)
      invariant old(g.queue) <= g.queue && MarksGrow(old(g.parent), g.parent) && v in g.queue
      invariant Followed(g.G(), g.matchedWith, g.parent, v, i)
    {
      var n := g.adj[v][i];
      ghost var parent := g.parent;
      Neighbour(g.G(), g.matchedWith, g.parent, g.queue, u, v, i);
      if !matchedOnly || g.matchedWith[n] == v {
        if g.parent[n] == NONE {
          RootedGrows(g.G(), g.matchedWith, g.parent, g.queue, u, v, n);
          g.queue := g.queue + [n];
          g.parent := g.parent[n := v];
        }
      }
      MarksGrowSame(parent);
      IsMarked(g.parent, n);
      MarksGrowFurther(old(g.parent), parent, g.parent);
      FollowedGrows(g.G(), g.matchedWith, parent, g.parent, v, i);
      i := i + 1;
    }
  }

  lemma FollowedNothing(g: Bipartite, matched: seq<int>, parent: seq<int>, v: int)
    requires |g.adj| == g.size && 0 <= v < g.size
    ensures Followed(g, matched, parent, v, 0)
  {
  }

  lemma IsMarked(parent: seq<int>, n: nat)
    requires n < |parent|
    ensures parent[n] != NONE ==> Marked(parent, n)
  {
  }

  lemma Neighbour(g: Bipartite, matched: seq<int>, parent: seq<int>, queue: seq<int>, u: int, v: int, i: nat)
    requires g.Valid() && |matched| == g.numLHS && Rooted(g, matched, parent, queue, u) && 0 <= v < g.size
             && i < |g.adj[v]|
    ensures 0 <= g.adj[v][i] < g.size == |parent|
    ensures g.IsRHS(v) ==> g.IsLHS(g.adj[v][i])
  {
    assert g.IsLHS(v) || g.IsRHS(v);
  }

  /** Recomputes the least load, capped by the number of left-hand vertices. */
  method UpdateMinRHSLoad(g: Graph)
    requires |g.numMatched| == g.numRHS
    modifies g`minRHSLoad
    ensures forall j :: 0 <= j < g.numRHS ==> g.minRHSLoad <= g.numMatched[j]
    ensures g.minRHSLoad == g.numLHS || g.minRHSLoad in g.numMatched
    ensures g.minRHSLoad <= g.numLHS
  {
    g.minRHSLoad := g.numLHS;
    for i := 0 to g.numRHS
      invariant forall j :: 0 <= j < i ==> g.minRHSLoad <= g.numMatched[j]
      invariant g.minRHSLoad == g.numLHS || g.minRHSLoad in g.numMatched
      invariant g.minRHSLoad <= g.numLHS
    {
      g.minRHSLoad := if g.minRHSLoad < g.numMatched[i] then g.minRHSLoad else g.numMatched[i];
    }
  }

  /** One iteration of the search: follows entry `q` and compares it with the best so far. Stops at a
      right-hand vertex of the least load of all. */
  method VisitEntry(g: Graph, ghost u: int, q: nat, bestV: int) returns (better: int, stop: bool)
    requires g.Sound() && q < |g.queue|
    requires Searching(g.G(), g.matchedWith, g.numMatched, g.parent, g.queue, u, q, bestV)
    modifies g`parent, g`queue
    ensures Searching(g.G(), g.matchedWith, g.numMatched, g.parent, g.queue, u, q + 1, better)
    ensures stop ==> g.G().IsRHS(better) && g.LoadOf(better) == g.minRHSLoad
  {
    hide Rooted, Searching, Followed, MarksGrow, QueueMarks, Bipartite.Valid, IsPartial;
    SearchingParts(g.G(), g.matchedWith, g.numMatched, g.parent, g.queue, u, q, bestV);
    var v := g.queue[q];
    ghost var parent, queue := g.parent, g.queue;
    EnqueueNbr(g, v, !g.G().IsLHS(v), u);
    SearchingGrows(g.G(), g.matchedWith, g.numMatched, parent, queue, g.parent, g.queue, u, q, bestV);
    better, stop := bestV, false;
    if !g.G().IsLHS(v) {
      if bestV == NONE || g.LoadOf(v) < g.LoadOf(bestV) {
        better, stop := v, g.LoadOf(v) == g.minRHSLoad;
      }
    }
    SearchingAdvances(g.G(), g.matchedWith, g.numMatched, g.parent, g.queue, u, q, bestV, better);
  }

  /** Searches from the left-hand vertex `u` for a right-hand vertex of least load, stopping early at one
      whose load is the least of all. */
  method BFS(g: Graph, u: int) returns (bestV: int)
    requires g.Sound() && g.G().IsLHS(u)
    requires forall v :: 0 <= v < |g.parent| ==> g.parent[v] == NONE
    modifies g`parent, g`queue
    ensures Rooted(g.G(), g.matchedWith, g.parent, g.queue, u) && QueueMarks(g.queue, g.parent)
    ensures |g.queue| <= |g.parent| == g.G().size
    ensures bestV == NONE <==> g.adj[u] == []
    ensures bestV != NONE ==> g.G().IsRHS(bestV) && bestV in g.queue
    ensures bestV != NONE && g.LoadOf(bestV) != g.minRHSLoad ==>
              Searching(g.G(), g.matchedWith, g.numMatched, g.parent, g.queue, u, |g.queue|, bestV)
  {
    hide Rooted, Searching, Followed, MarksGrow, QueueMarks, Bipartite.Valid, IsPartial;
    PlantRoot(g.G(), g.matchedWith, g.numMatched, g.parent, u);
    g.parent := g.parent[u := u];
    g.queue := [u];
    bestV := NONE;
    var q, stop := 0, false;
    while q < |g.queue| && !stop
      invariant |g.parent| == g.G().size
      invariant Searching(g.G(), g.matchedWith, g.numMatched, g.parent, g.queue, u, q, bestV)
      invariant stop ==> g.G().IsRHS(bestV) && g.LoadOf(bestV) == g.minRHSLoad
      decreases g.G().size - q
    {
      SearchingParts(g.G(), g.matchedWith, g.numMatched, g.parent, g.queue, u, q, bestV);
      bestV, stop := VisitEntry(g, u, q, bestV);
      q := q + 1;
      SearchingParts(g.G(), g.matchedWith, g.numMatched, g.parent, g.queue, u, q, bestV);
    }
    SearchingParts(g.G(), g.matchedWith, g.numMatched, g.parent, g.queue, u, q, bestV);
    if bestV != NONE {
      ReachesFromNeighbour(g.G(), g.matchedWith, g.parent, g.queue, u, bestV);
    } else if g.adj[u] != [] {
      SomethingInReach(g.G(), g.matchedWith, g.numMatched, g.parent, g.queue, u, bestV);
    }
  }

  /** Reaching any right-hand vertex takes a neighbour of the root. */
  lemma ReachesFromNeighbour(g: Bipartite, matched: seq<int>, parent: seq<int>, queue: seq<int>, u: int, v: int)
    requires g.Valid() && |matched| == g.numLHS && Rooted(g, matched, parent, queue, u) && v in queue && g.IsRHS(v)
    ensures g.adj[u] != []
  {
    var i :| 0 <= i < |queue| && queue[i] == v;
    assert 1 < |queue|;
    assert Follows(g, matched, parent, queue, 1);
    assert queue[..1] == [u];
  }

  /** Switches along the path from `v` up to the root `u`, which gains one matching edge at `v`. */
  method AugmentPath(g: Graph, u: int, v: int)
    requires g.Sound() && Rooted(g.G(), g.matchedWith, g.parent, g.queue, u) && v in g.queue && g.G().IsRHS(v)
             && g.G().IsLHS(u)
    modifies g`matchedWith, g`numMatched, g`minRHSLoad
    ensures g.Sound() && Shifted(g.G(), old(g.matchedWith), g.matchedWith, g.parent, u, v)
    ensures g.numMatched == old(g.numMatched)[v - g.numLHS := old(g.LoadOf(v)) + 1]
    ensures old(MinimumBelow(g.numMatched, g.minRHSLoad)) ==> MinimumBelow(g.numMatched, g.minRHSLoad)
    ensures old(g.Covered()) ==> g.Covered()
  {
    hide Rooted, Shifting, Shifted, Bipartite.Valid, IsPartial, Covers;
    ghost var before := g.matchedWith;
    ghost var i :| 0 <= i < |g.queue| && g.queue[i] == v;
    ShiftStarts(g.G(), g.matchedWith, g.parent, g.queue, u, i);
    var w := v;
    g.numMatched := g.numMatched[w - g.numLHS := g.numMatched[w - g.numLHS] + 1];
    var p := NONE;
    while p != u
      invariant g.Sound() && 0 <= i < |g.queue| && g.minRHSLoad == old(g.minRHSLoad)
      invariant p != u ==>
                  w == g.queue[i] && g.G().IsRHS(w)
                  && Shifting(g.G(), before, g.matchedWith, g.parent, g.queue, u, i, v)
      invariant p == u ==> Shifted(g.G(), before, g.matchedWith, g.parent, u, v)
      invariant g.numMatched == old(g.numMatched)[v - g.numLHS := old(g.LoadOf(v)) + 1]
      decreases p != u, i
    {
      ghost var k := ShiftStep(g.G(), before, g.matchedWith, g.parent, g.queue, u, i, v);
      p := g.parent[w];
      g.matchedWith := g.matchedWith[p := w];
      w := g.parent[p];
      if p != u {
        i := k;
        ShiftingParts(g.G(), before, g.matchedWith, g.parent, g.queue, u, i, v);
      } else {
        ShiftedParts(g.G(), before, g.matchedWith, g.parent, u, v);
      }
    }
    ShiftedMultiset(g.G(), before, g.matchedWith, g.parent, u, v);
    if old(g.Covered()) {
      CoversShifted(g.G(), old(g.numMatched), before, g.matchedWith, before[u], v);
    }
    if g.numMatched[v - g.numLHS] == g.minRHSLoad + 1 {
      UpdateMinRHSLoad(g);
    }
  }

  ghost predicate MinimumBelow(load: seq<int>, least: int) {
    forall j :: 0 <= j < |load| ==> least <= load[j]
  }

  lemma ShiftingParts(g: Bipartite, before: seq<int>, matched: seq<int>, parent: seq<int>, queue: seq<int>, u: int,
                      i: nat, v: int)
    requires Shifting(g, before, matched, parent, queue, u, i, v)
    ensures IsPartial(g, matched) && |matched| == g.numLHS && g.IsRHS(queue[i])
  {
  }

  lemma ShiftedMultiset(g: Bipartite, before: seq<int>, matched: seq<int>, parent: seq<int>, u: int, v: int)
    requires Shifted(g, before, matched, parent, u, v)
    ensures g.Valid() && IsPartial(g, matched) && |before| == g.numLHS && 0 <= u < g.numLHS
    ensures multiset(matched) + multiset{before[u]} == multiset(before) + multiset{v} && before[u] in multiset(before)
  {
  }

  lemma ShiftedParts(g: Bipartite, before: seq<int>, matched: seq<int>, parent: seq<int>, u: int, v: int)
    requires Shifted(g, before, matched, parent, u, v)
    ensures IsPartial(g, matched) && matched[u] != NONE
    ensures forall l :: g.IsLHS(l) && before[l] != NONE ==> matched[l] != NONE
    ensures forall l :: g.IsLHS(l) && l != u && before[l] == NONE ==> matched[l] == NONE
  {
  }

  /** The first `i` left-hand vertices that have a neighbour are matched and the rest are not. */
  ghost predicate MatchedPrefix(g: Bipartite, matched: seq<int>, i: nat)
    requires |g.adj| == g.size && |matched| == g.numLHS
  {
    && (forall l :: 0 <= l < i && l < |matched| && g.adj[l] != [] ==> matched[l] != NONE)
    && (forall l :: i <= l < |matched| ==> matched[l] == NONE)
  }

  /** What an iteration keeps when the algorithm starts without recorded loads: the matching is optimal so far. */
  ghost predicate OptimalSoFar(g: Bipartite, a: Recorded, i: nat) {
    && g.Valid() && |a.matched| == g.numLHS && IsPartial(g, a.matched) && a.load == Loads(g, a.matched)
    && MatchedPrefix(g, a.matched, i) && Certified(g, a.matched)
  }

  /** An LH matching of the graph without the left-hand vertices from `i` on. */
  ghost predicate PrefixOptimal(g: Bipartite, matched: seq<int>, i: nat) {
    |g.adj| == g.size && Restrict(g, i).Valid() && IsLHMatching(Restrict(g, i), matched)
  }

  lemma LeastBelow(load: seq<int>, least: int)
    requires MinimumBelow(load, least)
    ensures forall j :: 0 <= j < |load| ==> least <= load[j]
  {
  }

  lemma StepMoves(g: Bipartite, a: Recorded, b: Recorded, parent: seq<int>, i: nat, v: int)
    requires |a.load| == g.numRHS && g.IsRHS(v) && b.load == a.load[v - g.numLHS := a.load[v - g.numLHS] + 1]
    requires Shifted(g, a.matched, b.matched, parent, i, v) && |g.adj| == g.size && g.IsLHS(i) && g.adj[i] != []
    requires LeastInView(g, a.matched, a.load, i, v)
    ensures OnlineMove(g, i, a, b) && b.matched[i] != NONE && |b.matched| == |a.matched|
    ensures forall l :: 0 <= l < |a.matched| && a.matched[l] != NONE ==> b.matched[l] != NONE
  {
    hide LeastInView, Shifted, IsPartial, Bipartite.Valid;
    ShiftedMultiset(g, a.matched, b.matched, parent, i, v);
    ShiftedParts(g, a.matched, b.matched, parent, i, v);
    assert MovesTo(g, i, v, a, b);
  }

  lemma StepStays(g: Bipartite, i: nat, a: Recorded)
    requires |g.adj| == g.size && g.IsLHS(i) && g.adj[i] == []
    ensures OnlineMove(g, i, a, a)
    ensures OptimalSoFar(g, a, i) && a.matched[i] == NONE ==> OptimalSoFar(g, a, i + 1)
  {
    hide Certified, Loads;
  }

  lemma UnmatchedThere(g: Bipartite, a: Recorded, i: nat)
    requires OptimalSoFar(g, a, i) && i < g.numLHS
    ensures a.matched[i] == NONE
  {
    hide Certified, Loads;
  }

  lemma StepKeepsOptimal(g: Bipartite, a: Recorded, b: Recorded, parent: seq<int>, queue: seq<int>, i: nat, v: int,
                         least: int)
    requires OptimalSoFar(g, a, i) && MinimumBelow(a.load, least) && g.IsRHS(v) && Marked(parent, v)
    requires Shifted(g, a.matched, b.matched, parent, i, v)
             && b.load == a.load[v - g.numLHS := a.load[v - g.numLHS] + 1]
    requires a.load[v - g.numLHS] == least || Searching(g, a.matched, a.load, parent, queue, i, |queue|, v)
    ensures OptimalSoFar(g, b, i + 1)
  {
    hide Certified, Loads, Shifted, Searching, Marked, IsPartial, Bipartite.Valid, MinimumBelow;
    StepKeepsInvariant(g, a.matched, b.matched, parent, queue, i, v, least);
    ShiftedMultiset(g, a.matched, b.matched, parent, i, v);
    SamePartners(a.matched, b.matched, g.numLHS, parent, g, i, v);
  }

  lemma SamePartners(a: seq<int>, b: seq<int>, n: nat, parent: seq<int>, g: Bipartite, i: nat, v: int)
    requires Shifted(g, a, b, parent, i, v)
    ensures |a| == |b| == g.numLHS
  {
  }

  lemma PrefixFromOptimal(g: Bipartite, a: Recorded, i: nat)
    requires OptimalSoFar(g, a, i)
    ensures PrefixOptimal(g, a.matched, i)
  {
    hide Certified, Loads, Restrict, IsLHMatching;
    PrefixIsLHMatching(g, a.matched, i);
  }

  /** One iteration of the algorithm: matches left-hand vertex `i` along a path to a least loaded vertex in reach. If
      the matching was optimal for the vertices before, it is now optimal for one more. */
  method OnlineStep(g: Graph, i: nat)
    requires g.Sound() && g.Covered() && i < g.numLHS && MinimumBelow(g.numMatched, g.minRHSLoad)
    requires forall v :: 0 <= v < |g.parent| ==> g.parent[v] == NONE
    modifies g`parent, g`queue, g`matchedWith, g`numMatched, g`minRHSLoad
    ensures g.Sound() && g.Covered() && MinimumBelow(g.numMatched, g.minRHSLoad)
    ensures forall v :: 0 <= v < |g.parent| ==> g.parent[v] == NONE
    ensures OnlineMove(g.G(), i, old(Recorded(g.matchedWith, g.numMatched)), Recorded(g.matchedWith, g.numMatched))
    ensures g.adj[i] != [] ==> g.matchedWith[i] != NONE
    ensures forall l :: 0 <= l < g.numLHS && old(g.matchedWith[l]) != NONE ==> g.matchedWith[l] != NONE
    ensures Excess(g.numMatched, 0) == old(Excess(g.numMatched, 0)) + if g.adj[i] != [] then 1 else 0
    ensures old(OptimalSoFar(g.G(), Recorded(g.matchedWith, g.numMatched), i)) ==>
      && OptimalSoFar(g.G(), Recorded(g.matchedWith, g.numMatched), i + 1)
      && PrefixOptimal(g.G(), g.matchedWith, i + 1)
  {
    hide Rooted, Shifted, Searching, QueueMarks, Bipartite.Valid, Certified, Loads, IsPartial, Excess, Marked,
         Covers, LeastInView, OnlineMove, OptimalSoFar, PrefixOptimal, MinimumBelow, Natural;
    ghost var bip, a, least := g.G(), Recorded(g.matchedWith, g.numMatched), g.minRHSLoad;
    ghost var optimal := OptimalSoFar(bip, a, i);
    LeastBelow(a.load, least);
    CoversNatural(bip, a.load, a.matched);
    if optimal {
      UnmatchedThere(bip, a, i);
    }
    var bestV := BFS(g, i);
    if bestV != NONE {
      SearchFindsLeast(bip, a.matched, a.load, g.parent, g.queue, i, bestV, least);
      AugmentPath(g, i, bestV);
      ghost var b := Recorded(g.matchedWith, g.numMatched);
      StepMoves(bip, a, b, g.parent, i, bestV);
      LoadRaised(a.load, bestV - g.numLHS);
      if optimal {
        QueuedIsMarked(g.queue, g.parent, bestV);
        StepKeepsOptimal(bip, a, b, g.parent, g.queue, i, bestV, least);
      }
    } else {
      StepStays(bip, i, a);
    }
    if optimal {
      PrefixFromOptimal(bip, Recorded(g.matchedWith, g.numMatched), i + 1);
    }
    ClearMarks(g);
  }

  lemma LoadRaised(load: seq<int>, j: nat)
    requires j < |load|
    ensures Natural(load) ==>
              Natural(load[j := load[j] + 1]) && Excess(load[j := load[j] + 1], 0) == Excess(load, 0) + 1
  {
    TotalUpdate(load, Over(0), j, load[j] + 1);
  }

  lemma QueuedIsMarked(queue: seq<int>, parent: seq<int>, v: int)
    requires QueueMarks(queue, parent) && v in queue
    ensures Marked(parent, v)
  {
    var i :| 0 <= i < |queue| && queue[i] == v;
  }

  lemma StepLoads(g: Bipartite, before: seq<int>, matched: seq<int>, parent: seq<int>, u: int, v: int)
    requires Shifted(g, before, matched, parent, u, v) && before[u] == NONE && g.IsRHS(v)
    ensures Loads(g, matched) == Loads(g, before)[v - g.numLHS := Loads(g, before)[v - g.numLHS] + 1]
  {
    hide Shifted, Bipartite.Valid;
    var c, d := Loads(g, before), Loads(g, matched);
    forall t | 0 <= t < g.numRHS ensures d[t] == c[t] + if t == v - g.numLHS then 1 else 0 {
      var x := g.numLHS + t;
      assert g.IsRHS(x) && c[x - g.numLHS] == Load(before, x) && d[x - g.numLHS] == Load(matched, x);
      ShiftedLoads(g, before, matched, parent, u, v, x);
    }
  }

  lemma NoneLower(g: Bipartite, before: seq<int>, v: int, least: int, r: int)
    requires g.IsRHS(v) && g.IsRHS(r)
    requires MinimumBelow(Loads(g, before), least) && Loads(g, before)[v - g.numLHS] == least
    ensures Load(before, v) <= Load(before, r)
  {
    hide Load;
    assert Loads(g, before)[r - g.numLHS] == Load(before, r);
    assert Loads(g, before)[v - g.numLHS] == Load(before, v);
  }

  lemma StepKeepsInvariant(g: Bipartite, before: seq<int>, matched: seq<int>, parent: seq<int>, queue: seq<int>,
                           i: nat, v: int, least: int)
    requires Shifted(g, before, matched, parent, i, v) && MatchedPrefix(g, before, i) && g.IsRHS(v) && Marked(parent, v)
    requires MinimumBelow(Loads(g, before), least) && Certified(g, before)
    requires Loads(g, before)[v - g.numLHS] == least
             || Searching(g, before, Loads(g, before), parent, queue, i, |queue|, v)
    ensures Loads(g, matched) == Loads(g, before)[v - g.numLHS := Loads(g, before)[v - g.numLHS] + 1]
    ensures MatchedPrefix(g, matched, i + 1) && Certified(g, matched)
  {
    hide Searching, Load, Loads, Certified, MinimumBelow, Complete;
    StepLoads(g, before, matched, parent, i, v);
    if Loads(g, before)[v - g.numLHS] == least {
      forall r | g.IsRHS(r) ensures Load(before, v) <= Load(before, r) {
        NoneLower(g, before, v, least, r);
      }
    } else {
      FinishedIsComplete(g, before, parent, queue, i, v);
    }
    ShiftKeepsCertified(g, before, matched, parent, i, v);
  }

  // ----- every prefix is optimal -----

  ghost function Below(s: seq<int>, i: int): (t: seq<int>)
    ensures forall x :: x in t <==> x in s && x < i
    ensures Distinct(s) ==> Distinct(t)
  {
    if s == [] then []
    else
      var last := |s| - 1;
      assert s == s[..last] + [s[last]];
      assert Distinct(s) ==> s[last] !in s[..last];
      var t := Below(s[..last], i);
      assert s[last] !in s[..last] ==> s[last] !in t;
      t + if s[last] < i then [s[last]] else []
  }

  /** The graph without the edges of left-hand vertices from `i` on. */
  ghost function Restrict(g: Bipartite, i: nat): (h: Bipartite)
    requires |g.adj| == g.size
    ensures h.numLHS == g.numLHS && h.numRHS == g.numRHS && |h.adj| == g.size
    ensures forall v :: 0 <= v < g.size ==>
              h.adj[v] == if g.IsRHS(v) then Below(g.adj[v], i) else if v < i then g.adj[v] else []
  {
    Bipartite(g.numLHS, g.numRHS, seq(g.size, v requires 0 <= v < g.size =>
      if g.IsRHS(v) then Below(g.adj[v], i) else if v < i then g.adj[v] else []))
  }

  lemma RestrictValid(g: Bipartite, i: nat)
    requires g.Valid()
    ensures Restrict(g, i).Valid()
  {
    var h := Restrict(g, i);
    forall v, j, k | 0 <= v < h.size && 0 <= j < k < |h.adj[v]| ensures h.adj[v][j] != h.adj[v][k] {
      assert Distinct(g.adj[v]);
    }
    forall r, j | h.IsRHS(r) && 0 <= j < |h.adj[r]| ensures h.IsLHS(h.adj[r][j]) {
      assert h.adj[r][j] in g.adj[r];
    }
    forall l, r | h.IsLHS(l) && h.IsRHS(r) ensures r in h.adj[l] <==> l in h.adj[r] {
      assert g.IsLHS(l) && g.IsRHS(r);
    }
  }

  /** A certified matching of the first `i` left-hand vertices is an LH matching of the graph restricted
      to them. */
  lemma PrefixIsLHMatching(g: Bipartite, matched: seq<int>, i: nat)
    requires g.Valid() && IsPartial(g, matched) && MatchedPrefix(g, matched, i) && Certified(g, matched)
    ensures Restrict(g, i).Valid() && IsLHMatching(Restrict(g, i), matched)
  {
    var h := Restrict(g, i);
    RestrictValid(g, i);
    assert IsAssignment(h, matched);
    forall k: nat ensures HasCertificate(h, matched, k) {
      assert HasCertificate(g, matched, k);
      var tight :| Certificate(g, matched, k, tight);
      RestrictCertificate(g, matched, i, k, tight);
    }
    CertifiedIsLHMatching(h, matched);
  }

  lemma RestrictCertificate(g: Bipartite, matched: seq<int>, i: nat, k: nat, tight: set<int>)
    requires g.Valid() && Restrict(g, i).Valid() && IsPartial(g, matched) && Certificate(g, matched, k, tight)
    ensures Certificate(Restrict(g, i), matched, k, tight)
  {
    var h := Restrict(g, i);
    assert forall r :: h.IsRHS(r) <==> g.IsRHS(r);
    assert forall l :: h.IsLHS(l) <==> g.IsLHS(l);
  }

  /** Number of left-hand vertices before `i` that have a neighbour. */
  ghost function Connected(g: Bipartite, i: nat): nat
    requires i <= g.numLHS && |g.adj| == g.size
  {
    if i == 0 then 0 else Connected(g, i - 1) + if g.adj[i - 1] == [] then 0 else 1
  }

  lemma {:induction false} ConnectedIsSize(g: Bipartite, matched: seq<int>, i: nat)
    requires g.Valid() && IsAssignment(g, matched) && i <= g.numLHS
    ensures Size(matched[..i]) == Connected(g, i)
  {
    if i == 0 {
    } else {
      ConnectedIsSize(g, matched, i - 1);
      assert matched[..i][..i - 1] == matched[..i - 1];
    }
  }

  lemma TotalIsSize(g: Bipartite, matched: seq<int>)
    requires g.Valid() && IsPartial(g, matched)
    ensures Excess(Loads(g, matched), 0) == Size(matched)
  {
    PartialRange(g, matched);
    TotalCounts(g, matched);
  }

  lemma EmptyCertified(g: Bipartite, matched: seq<int>)
    requires g.Valid() && forall l :: 0 <= l < |matched| ==> matched[l] == NONE
    ensures Certified(g, matched)
  {
    forall k: nat ensures HasCertificate(g, matched, k) {
      forall r | g.IsRHS(r) ensures Load(matched, r) == 0 {
        assert r !in multiset(matched);
      }
      assert Certificate(g, matched, k, {});
    }
  }

  ghost predicate Unmatched(matched: seq<int>) {
    forall l :: 0 <= l < |matched| ==> matched[l] == NONE
  }

  ghost predicate NoneRecorded(load: seq<int>) {
    forall j :: 0 <= j < |load| ==> load[j] == 0
  }

  /** Without recorded loads nothing is matched, and if the recorded loads are right, the other way round. */
  lemma NoneRecordedMeans(g: Bipartite, load: seq<int>, matched: seq<int>)
    requires g.Valid() && IsPartial(g, matched) && Covers(g, load, matched)
    ensures NoneRecorded(load) <==> Excess(load, 0) == 0
    ensures NoneRecorded(load) ==> Unmatched(matched) && load == Loads(g, matched)
    ensures load == Loads(g, matched) && Unmatched(matched) ==> NoneRecorded(load)
  {
    hide Loads, Excess;
    CoversNatural(g, load, matched);
    NothingOver(load);
    if NoneRecorded(load) {
      forall l | 0 <= l < |matched| ensures matched[l] == NONE {
        MatchedIsRecorded(g, load, matched, l);
      }
      LoadsBelow(g, load, matched);
    }
    if Unmatched(matched) {
      var zeros := seq(g.numRHS, _ => 0);
      NoLoads(g, matched, zeros);
    }
  }

  lemma MatchedIsRecorded(g: Bipartite, load: seq<int>, matched: seq<int>, l: nat)
    requires g.Valid() && IsPartial(g, matched) && Covers(g, load, matched) && l < |matched|
    ensures NoneRecorded(load) ==> matched[l] == NONE
  {
    var r := matched[l];
    if r != NONE {
      assert r in g.adj[l] && r in multiset(matched);
      assert g.IsRHS(r) && 0 < Load(matched, r) <= load[r - g.numLHS];
    }
  }

  lemma LoadsBelow(g: Bipartite, load: seq<int>, matched: seq<int>)
    requires Covers(g, load, matched) && NoneRecorded(load)
    ensures load == Loads(g, matched)
  {
    hide Loads;
    forall j | 0 <= j < g.numRHS ensures load[j] == Loads(g, matched)[j] {
      assert g.IsRHS(g.numLHS + j) && Loads(g, matched)[g.numLHS + j - g.numLHS] == Load(matched, g.numLHS + j);
    }
  }

  lemma {:induction false} NothingOver(load: seq<int>)
    requires Natural(load)
    ensures Excess(load, 0) >= 0 && (NoneRecorded(load) <==> Excess(load, 0) == 0)
  {
    if load != [] {
      NothingOver(load[..|load| - 1]);
    }
  }

  /** The whole algorithm. Every left-hand vertex with a neighbour ends up matched, each along a path to a vertex of
      least recorded load in reach. What was recorded before stays recorded, so the loads are right at the end exactly
      if none was; then the result is an LH matching. */
  method LHAlgOnline(g: Graph) returns (ghost trace: seq<Recorded>)
    requires g.Sound() && g.Covered()
    requires forall v :: 0 <= v < |g.parent| ==> g.parent[v] == NONE
    modifies g`parent, g`queue, g`matchedWith, g`numMatched, g`minRHSLoad
    ensures g.Sound() && g.Covered() && IsAssignment(g.G(), g.matchedWith)
    ensures OnlineRun(g.G(), trace) && |trace| == g.numLHS + 1
    ensures trace[0] == old(Recorded(g.matchedWith, g.numMatched))
            && trace[g.numLHS] == Recorded(g.matchedWith, g.numMatched)
    ensures Excess(g.numMatched, 0) == Size(g.matchedWith) + old(Excess(g.numMatched, 0))
    ensures g.Exact() <==> old(NoneRecorded(g.numMatched))
    ensures old(NoneRecorded(g.numMatched)) ==> IsLHMatching(g.G(), g.matchedWith)
  {
    hide Bipartite.Valid, Certified, Loads, IsPartial, IsLHMatching, Excess, Size, Covers, OnlineMove, OnlineRun,
         Restrict, NoneRecorded, Natural;
    g.minRHSLoad := 0;
    g.queue := [];
    UpdateMinRHSLoad(g);
    ghost var bip, empty := g.G(), NoneRecorded(g.numMatched);
    NoneRecordedMeans(bip, g.numMatched, g.matchedWith);
    if empty {
      EmptyCertified(bip, g.matchedWith);
    }
    trace := [Recorded(g.matchedWith, g.numMatched)];
    RunStarts(bip, trace);
    for i := 0 to g.numLHS
      invariant g.Sound() && g.Covered() && MinimumBelow(g.numMatched, g.minRHSLoad)
      invariant forall v :: 0 <= v < |g.parent| ==> g.parent[v] == NONE
      invariant OnlineRun(bip, trace) && |trace| == i + 1
      invariant trace[0] == old(Recorded(g.matchedWith, g.numMatched))
                && trace[i] == Recorded(g.matchedWith, g.numMatched)
      invariant forall l :: 0 <= l < i && g.adj[l] != [] ==> g.matchedWith[l] != NONE
      invariant Excess(g.numMatched, 0) == old(Excess(g.numMatched, 0)) + Connected(bip, i)
      invariant empty ==> OptimalSoFar(bip, Recorded(g.matchedWith, g.numMatched), i)
    {
      OnlineStep(g, i);
      RunExtends(bip, trace, Recorded(g.matchedWith, g.numMatched));
      trace := trace + [Recorded(g.matchedWith, g.numMatched)];
    }
    assert g.matchedWith[..g.numLHS] == g.matchedWith;
    AllConnectedMatched(bip, g.matchedWith);
    ConnectedIsSize(bip, g.matchedWith, g.numLHS);
    TotalIsSize(bip, g.matchedWith);
    if empty {
      CertifiedIsLHMatching(bip, g.matchedWith);
    }
  }

  lemma RunStarts(g: Bipartite, trace: seq<Recorded>)
    requires |g.adj| == g.size && |trace| == 1
    ensures OnlineRun(g, trace)
  {
  }

  lemma AllConnectedMatched(g: Bipartite, matched: seq<int>)
    requires g.Valid() && IsPartial(g, matched)
    requires forall l :: 0 <= l < g.numLHS && g.adj[l] != [] ==> matched[l] != NONE
    ensures IsAssignment(g, matched)
  {
  }
}
