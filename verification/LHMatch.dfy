/** The calls a user of the library makes. Vertices of either side are numbered from 0 here. */
module LHMatch {
  import opened Totals
  import opened LoadVectors
  import opened Assignments
  import opened LHMain
  import opened Cardinality
  import opened OnlineTrees
  import LHBFS
  import LHOnline

  const LH_SUCCESS := 0
  const LH_PARAM_ERR := -2
  const LH_MATCHING_ERR := -4
  const LH_EDGE_EXISTS := -5

  datatype Algorithm = Online | BreadthFirst | Other

  datatype Statistics = Statistics(numEdges: int, numMatchingEdges: int, matchingCost: int, bipMatchingSize: int)

  method LHCreateGraph(numLHSVtx: int, numRHSVtx: int) returns (code: int, g: Graph?)
    ensures code == LH_SUCCESS <==> 0 < numLHSVtx && 0 < numRHSVtx
    ensures code != LH_SUCCESS ==> code == LH_PARAM_ERR && g == null
    ensures code == LH_SUCCESS ==> g != null && fresh(g) && g.numLHS == numLHSVtx && g.numRHS == numRHSVtx
    ensures code == LH_SUCCESS ==> g.Sound() && g.Exact() && g.Covered() && !g.G().HasEdge()
    ensures code == LH_SUCCESS ==> LHOnline.Unmatched(g.matchedWith) && LHOnline.NoneRecorded(g.numMatched)
  {
    if numLHSVtx <= 0 || numRHSVtx <= 0 {
      return LH_PARAM_ERR, null;
    }
    g := new Graph(numLHSVtx, numRHSVtx);
    code := LH_SUCCESS;
  }

  /** Whether `rv` is among the neighbours of `lv`, found by going through the list. */
  method FindNeighbour(g: Graph, lv: int, rv: int) returns (found: bool)
    requires g.Sound() && g.G().IsLHS(lv)
    ensures found <==> rv in g.adj[lv]
  {
    var i := 0;
    while i < |g.adj[lv]|
      invariant 0 <= i <= |g.adj[lv]| && forall j :: 0 <= j < i ==> g.adj[lv][j] != rv
    {
      if g.adj[lv][i] == rv {
        return true;
      }
      i := i + 1;
    }
    return false;
  }

  /** The adjacency lists with one more edge. */
  ghost function WithEdge(adj: seq<seq<int>>, l: nat, r: nat): seq<seq<int>>
    requires l < |adj| && r < |adj| && l != r
  {
    adj[l := adj[l] + [r]][r := adj[r] + [l]]
  }

  lemma WithEdgeValid(g: Bipartite, l: int, r: int, matched: seq<int>)
    requires g.Valid() && g.IsLHS(l) && g.IsRHS(r) && r !in g.adj[l] && IsPartial(g, matched)
    ensures Bipartite(g.numLHS, g.numRHS, WithEdge(g.adj, l, r)).Valid()
    ensures IsPartial(Bipartite(g.numLHS, g.numRHS, WithEdge(g.adj, l, r)), matched)
  {
    var h := Bipartite(g.numLHS, g.numRHS, WithEdge(g.adj, l, r));
    assert l !in g.adj[r];
    forall l', r' | h.IsLHS(l') && h.IsRHS(r') ensures r' in h.adj[l'] <==> l' in h.adj[r'] {
      assert g.IsLHS(l') && g.IsRHS(r');
      assert (r' in h.adj[l']) == (r' in g.adj[l'] || (l' == l && r' == r));
      assert (l' in h.adj[r']) == (l' in g.adj[r'] || (l' == l && r' == r));
    }
    forall x | 0 <= x < |matched| ensures matched[x] == NONE || matched[x] in h.adj[x] {
      assert matched[x] in g.adj[x] ==> matched[x] in h.adj[x];
    }
  }

  lemma SameLoads(g: Bipartite, h: Bipartite, matched: seq<int>)
    requires g.numLHS == h.numLHS && g.numRHS == h.numRHS
    ensures Loads(g, matched) == Loads(h, matched)
  {
    forall j | 0 <= j < g.numRHS ensures Loads(g, matched)[j] == Loads(h, matched)[j] {
      var r := g.numLHS + j;
      assert g.IsRHS(r) && h.IsRHS(r);
      assert Loads(g, matched)[r - g.numLHS] == Load(matched, r) == Loads(h, matched)[r - h.numLHS];
    }
  }

  lemma EdgeCovers(g: Bipartite, h: Bipartite, load: seq<int>, matched: seq<int>, l: nat, r: nat)
    requires l < |g.adj| && r < |g.adj| && l != r && h == Bipartite(g.numLHS, g.numRHS, WithEdge(g.adj, l, r))
    ensures Covers(g, load, matched) ==> Covers(h, load, matched)
  {
    if Covers(g, load, matched) {
      forall x | h.IsRHS(x)
        ensures Load(matched, x) <= load[x - h.numLHS] && (0 < load[x - h.numLHS] ==> h.adj[x] != []) {
        assert g.IsRHS(x);
      }
    }
  }

  method LHAddEdge(g: Graph, lhsVtx: int, rhsVtx: int) returns (code: int)
    requires g.Sound()
    modifies g`adj
    ensures g.Sound()
    ensures (old(g.Exact()) ==> g.Exact()) && (old(g.Covered()) ==> g.Covered())
    ensures code == LH_PARAM_ERR <==> !(0 <= lhsVtx < g.numLHS && 0 <= rhsVtx < g.numRHS)
    ensures code == LH_EDGE_EXISTS <==> code != LH_PARAM_ERR && g.numLHS + rhsVtx in old(g.adj)[lhsVtx]
    ensures code in {LH_SUCCESS, LH_PARAM_ERR, LH_EDGE_EXISTS}
    ensures code != LH_SUCCESS ==> g.adj == old(g.adj)
    ensures code == LH_SUCCESS ==> g.adj == WithEdge(old(g.adj), lhsVtx, g.numLHS + rhsVtx)
  {
    hide Loads, Covers, IsPartial, Bipartite.Valid;
    if lhsVtx < 0 || lhsVtx >= g.numLHS {
      return LH_PARAM_ERR;
    }
    if rhsVtx < 0 || rhsVtx >= g.numRHS {
      return LH_PARAM_ERR;
    }
    var lv, rv := lhsVtx, g.numLHS + rhsVtx;
    var found := FindNeighbour(g, lv, rv);
    if found {
      return LH_EDGE_EXISTS;
    }
    ghost var before := g.G();
    WithEdgeValid(g.G(), lv, rv, g.matchedWith);
    g.adj := g.adj[lv := g.adj[lv] + [rv]];
    g.adj := g.adj[rv := g.adj[rv] + [lv]];
    SameLoads(before, g.G(), g.matchedWith);
    EdgeCovers(before, g.G(), g.numMatched, g.matchedWith, lv, rv);
    code := LH_SUCCESS;
  }

  method LHSetMatchingEdge(g: Graph, lhsVtx: int, rhsVtx: int) returns (code: int)
    requires g.Sound()
    modifies g`matchedWith, g`numMatched
    ensures g.Sound()
    ensures (old(g.Exact()) ==> g.Exact()) && (old(g.Covered()) ==> g.Covered())
    ensures code == LH_SUCCESS <==>
              0 <= lhsVtx < g.numLHS && 0 <= rhsVtx < g.numRHS && g.numLHS + rhsVtx in g.adj[lhsVtx]
    ensures code != LH_SUCCESS ==>
              code == LH_PARAM_ERR && g.matchedWith == old(g.matchedWith) && g.numMatched == old(g.numMatched)
    ensures code == LH_SUCCESS ==> g.matchedWith == old(g.matchedWith)[lhsVtx := g.numLHS + rhsVtx]
    ensures code == LH_SUCCESS && old(g.matchedWith)[lhsVtx] == g.numLHS + rhsVtx ==> g.numMatched == old(g.numMatched)
    ensures code == LH_SUCCESS && old(g.matchedWith)[lhsVtx] != g.numLHS + rhsVtx ==>
              g.numMatched == Moved(g.G(), old(g.numMatched), old(g.matchedWith)[lhsVtx], g.numLHS + rhsVtx)
  {
    hide Loads, Moved, Bipartite.Valid, IsPartial, Covers;
    if lhsVtx < 0 || lhsVtx >= g.numLHS || rhsVtx < 0 || rhsVtx >= g.numRHS {
      return LH_PARAM_ERR;
    }
    var lv, rv := lhsVtx, g.numLHS + rhsVtx;
    var found := FindNeighbour(g, lv, rv);
    if !found {
      return LH_PARAM_ERR;
    }
    if rv == g.matchedWith[lv] {
      return LH_SUCCESS;
    }
    ghost var before, load := g.matchedWith, g.numMatched;
    PartialChange(g.G(), g.matchedWith, lv, rv);
    MatchedOnRight(g.G(), g.matchedWith, lv);
    RematchedLoads(g.G(), g.matchedWith, lv, rv);
    NeighbourOnRight(g.G(), lv, rv);
    if g.Covered() {
      CoversChange(g.G(), g.numMatched, g.matchedWith, lv, rv);
    }
    if g.matchedWith[lv] != NONE {
      var previous := g.matchedWith[lv] - g.numLHS;
      g.numMatched := g.numMatched[previous := g.numMatched[previous] - 1];
    }
    g.matchedWith := g.matchedWith[lv := rv];
    g.numMatched := g.numMatched[rhsVtx := g.numMatched[rhsVtx] + 1];
    assert g.numMatched == Moved(g.G(), load, before[lv], rv);
    code := LH_SUCCESS;
  }

  lemma NeighbourOnRight(g: Bipartite, l: nat, r: int)
    requires g.Valid() && g.IsLHS(l) && r in g.adj[l]
    ensures g.IsRHS(r)
  {
  }

  lemma MatchedOnRight(g: Bipartite, a: seq<int>, l: nat)
    requires g.Valid() && IsPartial(g, a) && l < |a|
    ensures a[l] == NONE || g.IsRHS(a[l])
  {
    if a[l] != NONE {
      assert a[l] in g.adj[l];
    }
  }

  method LHClearMatching(g: Graph) returns (code: int)
    requires g.Sound()
    modifies g`matchedWith, g`numMatched
    ensures code == LH_SUCCESS && g.Sound() && g.Exact() && g.Covered()
    ensures LHOnline.Unmatched(g.matchedWith) && LHOnline.NoneRecorded(g.numMatched)
  {
    for i := 0 to g.numLHS
      invariant |g.matchedWith| == g.numLHS && |g.numMatched| == g.numRHS
      invariant forall l :: 0 <= l < i ==> g.matchedWith[l] == NONE
    {
      g.matchedWith := g.matchedWith[i := NONE];
    }
    for i := 0 to g.numRHS
      invariant |g.matchedWith| == g.numLHS && |g.numMatched| == g.numRHS
      invariant forall l :: 0 <= l < g.numLHS ==> g.matchedWith[l] == NONE
      invariant forall j :: 0 <= j < i ==> g.numMatched[j] == 0
    {
      g.numMatched := g.numMatched[i := 0];
    }
    NoLoads(g.G(), g.matchedWith, g.numMatched);
    LoadsCover(g.G(), g.matchedWith);
    code := LH_SUCCESS;
  }

  /** The matching partner of a left-hand vertex, or an error code. */
  method LHGetMatchedVtx(g: Graph, lhsVtx: int) returns (result: int)
    requires g.Sound()
    ensures 0 <= result ==> 0 <= lhsVtx < g.numLHS && result < g.numRHS && g.matchedWith[lhsVtx] == g.numLHS + result
    ensures result < 0 ==> result == if 0 <= lhsVtx < g.numLHS then LH_MATCHING_ERR else LH_PARAM_ERR
    ensures result == LH_MATCHING_ERR ==> g.matchedWith[lhsVtx] == NONE
  {
    if lhsVtx < 0 || lhsVtx >= g.numLHS {
      return LH_PARAM_ERR;
    }
    if g.matchedWith[lhsVtx] == NONE {
      return LH_MATCHING_ERR;
    }
    MatchedOnRight(g.G(), g.matchedWith, lhsVtx);
    result := g.matchedWith[lhsVtx] - g.numLHS;
  }

  // ----- statistics -----

  ghost function DegreeSum(adj: seq<seq<int>>): nat {
    if adj == [] then 0 else DegreeSum(adj[..|adj| - 1]) + |adj[|adj| - 1]|
  }

  ghost function Same(x: int): int { x }

  /** Adds up the degrees, loads and costs of the right-hand vertices. */
  method LHGetStatistics(g: Graph) returns (stats: Statistics)
    requires g.Sound()
    ensures stats.numEdges == DegreeSum(g.adj[g.numLHS..])
    ensures stats.numMatchingEdges == Total(g.numMatched, Same)
    ensures stats.matchingCost == Cost(g.numMatched)
    ensures stats.bipMatchingSize == Used(g.numMatched)
  {
    var m, mrv, trmd, cost := 0, 0, 0, 0;
    ghost var right := g.adj[g.numLHS..];
    for i := 0 to g.numRHS
      invariant m == DegreeSum(right[..i]) && trmd == Total(g.numMatched[..i], Same)
      invariant cost == Cost(g.numMatched[..i]) && mrv == Used(g.numMatched[..i])
    {
      m := m + |g.adj[g.numLHS + i]|;
      if g.numMatched[i] > 0 {
        mrv := mrv + 1;
      }
      trmd := trmd + g.numMatched[i];
      cost := cost + g.numMatched[i] * (g.numMatched[i] + 1) / 2;
      assert right[..i + 1][..i] == right[..i] && g.numMatched[..i + 1][..i] == g.numMatched[..i];
    }
    assert right[..g.numRHS] == right && g.numMatched[..g.numRHS] == g.numMatched;
    stats := Statistics(m, trmd, cost, mrv);
  }

  // ----- finding a matching -----

  /** Clears parents, links and counters; edges and matching stay. */
  method ClearAlgState(g: Graph)
    requires g.Sound()
    modifies g`parent, g`fLink, g`bLink, g`queue, g`maxRHSLoad, g`minRHSLoad
    ensures g.Sound() && g.queue == []
    ensures forall v :: 0 <= v < |g.parent| ==> g.parent[v] == NONE
  {
    g.maxRHSLoad, g.minRHSLoad, g.queue := 0, 0, [];
    for i := 0 to |g.parent|
      invariant |g.parent| == |g.fLink| == |g.bLink| == g.numLHS + g.numRHS
      invariant forall v :: 0 <= v < i ==> g.parent[v] == NONE
      invariant g.queue == []
    {
      g.parent := g.parent[i := NONE];
      g.fLink := g.fLink[i := NONE];
      g.bLink := g.bLink[i := NONE];
    }
  }

  /** The online algorithm leads from `a` to `b`. */
  ghost predicate RunsTo(g: Bipartite, a: Recorded, b: Recorded) {
    exists trace :: OnlineRun(g, trace) && |trace| == g.numLHS + 1 && trace[0] == a && trace[g.numLHS] == b
  }

  /** Finds an LH matching, except that the breadth-first algorithm faults on a graph without edges and the online one
      leaves all recorded loads recorded. */
  method LHFindLHMatching(g: Graph, alg: Algorithm) returns (code: int, fault: bool)
    requires g.Sound() && g.Covered()
    modifies g
    ensures g.adj == old(g.adj)
    ensures fault <==> alg.BreadthFirst? && !g.G().HasEdge()
    ensures !fault ==> g.Sound() && g.Covered() && (!alg.Other? ==> IsAssignment(g.G(), g.matchedWith))
    ensures !fault ==> code == if alg.Other? then LH_PARAM_ERR else LH_SUCCESS
    ensures !fault && alg.BreadthFirst? && old(g.Exact()) ==> g.Exact() && IsLHMatching(g.G(), g.matchedWith)
    ensures alg.Online? ==> RunsTo(g.G(), old(Recorded(g.matchedWith, g.numMatched)),
                                   Recorded(g.matchedWith, g.numMatched))
    ensures alg.Online? ==> Excess(g.numMatched, 0) == Size(g.matchedWith) + old(Excess(g.numMatched, 0))
    ensures alg.Online? ==> (g.Exact() <==> old(LHOnline.NoneRecorded(g.numMatched)))
    ensures alg.Online? && old(LHOnline.NoneRecorded(g.numMatched)) ==> IsLHMatching(g.G(), g.matchedWith)
    ensures alg.Other? ==> g.matchedWith == old(g.matchedWith) && g.numMatched == old(g.numMatched)
  {
    hide IsLHMatching, Loads, Bipartite.Valid, IsAssignment, Bipartite.HasEdge, Covers, LHOnline.NoneRecorded,
         OnlineRun;
    ClearAlgState(g);
    fault := false;
    match alg {
      case Online =>
        ghost var trace := LHOnline.LHAlgOnline(g);
        code := LH_SUCCESS;
      case BreadthFirst =>
        fault := LHBFS.LHAlgBFS(g);
        code := LH_SUCCESS;
      case Other =>
        code := LH_PARAM_ERR;
    }
  }

  /** What the statistics say after a successful run: the least possible cost and the size of a maximum
      cardinality matching. */
  method StatisticsOfLHMatching(g: Graph) returns (stats: Statistics)
    requires g.Sound() && g.Exact() && IsLHMatching(g.G(), g.matchedWith)
    ensures stats.numMatchingEdges == Size(g.matchedWith)
    ensures forall b :: IsAssignment(g.G(), b) ==> stats.matchingCost <= Cost(Loads(g.G(), b))
    ensures IsMatching(g.G(), KeepOne(g.matchedWith)) && Size(KeepOne(g.matchedWith)) == stats.bipMatchingSize
    ensures forall m :: IsMatching(g.G(), m) ==> Size(m) <= stats.bipMatchingSize
  {
    hide IsLHMatching, Loads, Bipartite.Valid, IsAssignment, Cost, Used, Size, KeepOne;
    stats := LHGetStatistics(g);
    ghost var bip, a := g.G(), g.matchedWith;
    LHMatchingGivesMaximumMatching(bip, a);
    forall b | IsAssignment(bip, b) ensures stats.matchingCost <= Cost(Loads(bip, b)) {
      LHMatchingMinimisesCost(bip, a, b);
    }
    TotalSplit(g.numMatched, Same, Over(0), Over(0), 0);
    LHMatchingIsPartial(bip, a);
    LHOnline.TotalIsSize(bip, a);
  }

  lemma LHMatchingIsPartial(g: Bipartite, a: seq<int>)
    requires g.Valid() && IsLHMatching(g, a)
    ensures IsPartial(g, a) && IsAssignment(g, a)
  {
  }
}
