/** Whole runs of the library's calls. */
module LHRuns {
  import opened Totals
  import opened LoadVectors
  import opened Assignments
  import opened LHMain
  import opened Cardinality
  import opened LHMatch
  import LHOnline

  /** What a client does to a graph. */
  datatype Operation =
    | AddEdge(lhs: int, rhs: int)
    | SetMatchingEdge(lhs: int, rhs: int)
    | ClearMatching
    | FindMatching(alg: Algorithm)

  /** The operation adds an edge, or tries to, between these vertices of the two sides. */
  ghost predicate AddsLegally(numLHS: nat, numRHS: nat, op: Operation) {
    op.AddEdge? && 0 <= op.lhs < numLHS && 0 <= op.rhs < numRHS
  }

  /** The edges of the graph are the legal ones among those that were added. */
  ghost predicate EdgesAdded(g: Bipartite, ops: seq<Operation>) {
    && |g.adj| == g.size
    && forall l, r :: 0 <= l < g.numLHS && 0 <= r < g.numRHS ==> (g.numLHS + r in g.adj[l] <==> AddEdge(l, r) in ops)
  }

  /** Operation `i` is a breadth-first search before any edge has been added. */
  ghost predicate TooEarly(numLHS: nat, numRHS: nat, ops: seq<Operation>, i: nat) {
    && i < |ops| && ops[i] == FindMatching(BreadthFirst)
    && forall j :: 0 <= j < i ==> !AddsLegally(numLHS, numRHS, ops[j])
  }

  ghost predicate Matches(op: Operation) {
    op.SetMatchingEdge? || (op.FindMatching? && !op.alg.Other?)
  }

  /** Whatever was matched by the first `i` operations has been cleared since. */
  ghost predicate FromScratch(ops: seq<Operation>, i: nat)
    requires i <= |ops|
  {
    forall k :: 0 <= k < i && Matches(ops[k]) ==> exists j :: k < j < i && ops[j].ClearMatching?
  }

  /** Every online search starts from a cleared matching. */
  ghost predicate CountsKept(ops: seq<Operation>) {
    forall i :: 0 <= i < |ops| && ops[i] == FindMatching(Online) ==> FromScratch(ops, i)
  }

  lemma EdgesStay(g: Bipartite, ops: seq<Operation>, op: Operation)
    requires EdgesAdded(g, ops)
    requires AddsLegally(g.numLHS, g.numRHS, op) ==> g.numLHS + op.rhs in g.adj[op.lhs]
    ensures EdgesAdded(g, ops + [op])
  {
  }

  lemma EdgeJoins(g: Bipartite, h: Bipartite, ops: seq<Operation>, l: nat, r: nat)
    requires EdgesAdded(g, ops) && l < g.numLHS && r < g.numRHS
    requires h == Bipartite(g.numLHS, g.numRHS, WithEdge(g.adj, l, g.numLHS + r))
    ensures EdgesAdded(h, ops + [AddEdge(l, r)])
  {
    forall x, y | 0 <= x < h.numLHS && 0 <= y < h.numRHS
      ensures h.numLHS + y in h.adj[x] <==> AddEdge(x, y) in ops + [AddEdge(l, r)]
    {
      assert g.numLHS + y in g.adj[x] <==> AddEdge(x, y) in ops;
      assert h.numLHS + y in h.adj[x] <==> (g.numLHS + y in g.adj[x] || (x == l && y == r));
    }
  }

  /** There is an edge exactly if one has been added. */
  lemma EarlyMeansNone(g: Bipartite, ops: seq<Operation>, i: nat)
    requires g.Valid() && i < |ops| && ops[i] == FindMatching(BreadthFirst) && EdgesAdded(g, ops[..i])
    ensures !g.HasEdge() <==> TooEarly(g.numLHS, g.numRHS, ops, i)
  {
    if l :| g.IsLHS(l) && g.adj[l] != [] {
      var r := g.adj[l][0] - g.numLHS;
      assert g.IsRHS(g.adj[l][0]);
      assert g.numLHS + r in g.adj[l];
      assert AddEdge(l, r) in ops[..i];
      var j :| 0 <= j < i && ops[j] == AddEdge(l, r);
      assert AddsLegally(g.numLHS, g.numRHS, ops[j]);
    }
    if j :| 0 <= j < i && AddsLegally(g.numLHS, g.numRHS, ops[j]) {
      assert ops[..i][j] == AddEdge(ops[j].lhs, ops[j].rhs);
      assert g.numLHS + ops[j].rhs in g.adj[ops[j].lhs];
    }
  }

  /** The matching is an LH matching. */
  ghost predicate Solved(g: Graph)
    reads g
  {
    g.G().Valid() && IsLHMatching(g.G(), g.matchedWith)
  }

  method Perform(g: Graph, op: Operation) returns (fault: bool)
    requires g.Sound() && g.Covered()
    modifies g
    ensures fault <==> op == FindMatching(BreadthFirst) && !old(g.G()).HasEdge()
    ensures !fault ==> g.Sound() && g.Covered()
    ensures !fault && old(g.Exact()) && (op != FindMatching(Online) || old(LHOnline.NoneRecorded(g.numMatched))) ==>
              g.Exact()
    ensures !fault && !Matches(op) && (op.ClearMatching? || old(LHOnline.NoneRecorded(g.numMatched))) ==>
              LHOnline.NoneRecorded(g.numMatched)
    ensures !fault && op == FindMatching(BreadthFirst) && old(g.Exact()) ==> Solved(g)
    ensures op == FindMatching(Online) && old(LHOnline.NoneRecorded(g.numMatched)) ==> Solved(g)
    ensures forall ops :: old(EdgesAdded(g.G(), ops)) ==> EdgesAdded(g.G(), ops + [op])
  {
    hide IsLHMatching, Loads, Bipartite.Valid, EdgesAdded, Covers, RunsTo, Excess, Size, LHOnline.NoneRecorded,
         IsAssignment, IsPartial;
    ghost var before := g.G();
    var code;
    fault := false;
    match op {
      case AddEdge(l, r) =>
        code := LHAddEdge(g, l, r);
        forall ops | EdgesAdded(before, ops) ensures EdgesAdded(g.G(), ops + [op]) {
          if code == LH_SUCCESS {
            EdgeJoins(before, g.G(), ops, l, r);
          } else {
            EdgesStay(before, ops, op);
          }
        }
      case SetMatchingEdge(l, r) =>
        code := LHSetMatchingEdge(g, l, r);
      case ClearMatching =>
        code := LHClearMatching(g);
      case FindMatching(alg) =>
        code, fault := LHFindLHMatching(g, alg);
    }
    if !op.AddEdge? {
      forall ops | EdgesAdded(before, ops) ensures EdgesAdded(g.G(), ops + [op]) {
        EdgesStay(before, ops, op);
      }
    }
  }

  // ----- the number of edges -----

  /** The legal edges among those that were added. */
  ghost function LegalEdges(numLHS: nat, numRHS: nat, ops: seq<Operation>): set<(int, int)> {
    set i | 0 <= i < |ops| && AddsLegally(numLHS, numRHS, ops[i]) :: (ops[i].lhs, ops[i].rhs)
  }

  /** The edges at the first `n` right-hand vertices. */
  ghost function EdgesBelow(g: Bipartite, n: nat): set<(int, int)>
    requires n <= g.numRHS && |g.adj| == g.size
  {
    if n == 0 then {} else EdgesBelow(g, n - 1) + EdgesAt(g.adj[g.numLHS + n - 1], n - 1)
  }

  ghost function EdgesAt(list: seq<int>, r: int): set<(int, int)> {
    set i | 0 <= i < |list| :: (list[i], r)
  }

  lemma {:induction false} EdgesAtSize(list: seq<int>, r: int)
    requires forall i, j :: 0 <= i < j < |list| ==> list[i] != list[j]
    ensures |EdgesAt(list, r)| == |list|
  {
    if list != [] {
      var last := |list| - 1;
      EdgesAtSize(list[..last], r);
      assert EdgesAt(list, r) == EdgesAt(list[..last], r) + {(list[last], r)};
    }
  }

  lemma EdgesAtHolds(list: seq<int>, n: int, l: int, r: int)
    ensures (l, r) in EdgesAt(list, n) <==> r == n && l in list
  {
    if l in list {
      var i :| 0 <= i < |list| && list[i] == l;
    }
  }

  lemma {:induction false} EdgesBelowHold(g: Bipartite, n: nat, l: int, r: int)
    requires |g.adj| == g.size && n <= g.numRHS
    ensures (l, r) in EdgesBelow(g, n) <==> 0 <= r < n && l in g.adj[g.numLHS + r]
  {
    if n != 0 {
      EdgesBelowHold(g, n - 1, l, r);
      EdgesAtHolds(g.adj[g.numLHS + n - 1], n - 1, l, r);
    }
  }

  lemma {:induction false} EdgesBelowSize(g: Bipartite, n: nat)
    requires g.Valid() && |g.adj| == g.size && n <= g.numRHS
    ensures |EdgesBelow(g, n)| == DegreeSum(g.adj[g.numLHS..g.numLHS + n])
  {
    hide EdgesAt, Bipartite.Valid, DegreeSum;
    if n == 0 {
      NoDegrees(g.adj[g.numLHS..g.numLHS]);
    } else {
      EdgesBelowSize(g, n - 1);
      var list, before := g.adj[g.numLHS + n - 1], EdgesBelow(g, n - 1);
      DegreesNext(g.adj, g.numLHS, n - 1);
      NoneTwice(g, g.numLHS + n - 1);
      EdgesAtSize(list, n - 1);
      LaterEdges(g, n - 1, list);
      Together(before, EdgesAt(list, n - 1));
    }
  }

  lemma NoDegrees(adj: seq<seq<int>>)
    ensures adj == [] ==> DegreeSum(adj) == 0
  {
  }

  lemma DegreesNext(adj: seq<seq<int>>, low: nat, n: nat)
    requires low + n < |adj|
    ensures DegreeSum(adj[low..low + (n + 1)]) == DegreeSum(adj[low..low + n]) + |adj[low + n]|
  {
    assert adj[low..low + (n + 1)][..n] == adj[low..low + n];
  }

  lemma LaterEdges(g: Bipartite, n: nat, list: seq<int>)
    requires |g.adj| == g.size && n <= g.numRHS
    ensures EdgesBelow(g, n) !! EdgesAt(list, n)
  {
    hide EdgesBelow, EdgesAt;
    forall e | e in EdgesBelow(g, n) ensures e !in EdgesAt(list, n) {
      assert e == (e.0, e.1);
      EdgesBelowHold(g, n, e.0, e.1);
      EdgesAtHolds(list, n, e.0, e.1);
    }
  }

  lemma NoneTwice(g: Bipartite, r: int)
    requires g.Valid() && g.IsRHS(r)
    ensures forall i, j :: 0 <= i < j < |g.adj[r]| ==> g.adj[r][i] != g.adj[r][j]
  {
  }

  lemma Together(a: set<(int, int)>, b: set<(int, int)>)
    requires a !! b
    ensures |a + b| == |a| + |b|
  {
  }

  /** The degrees on the right add up to the number of different legal edges that were added. */
  lemma EdgeCount(g: Bipartite, ops: seq<Operation>)
    requires g.Valid() && EdgesAdded(g, ops)
    ensures DegreeSum(g.adj[g.numLHS..]) == |LegalEdges(g.numLHS, g.numRHS, ops)|
  {
    hide Bipartite.Valid, EdgesAdded, LegalEdges, EdgesBelow;
    SidesAdded(g, ops);
    var edges, legal := EdgesBelow(g, g.numRHS), LegalEdges(g.numLHS, g.numRHS, ops);
    EdgesBelowSize(g, g.numRHS);
    assert g.adj[g.numLHS..g.numLHS + g.numRHS] == g.adj[g.numLHS..];
    forall e: (int, int) ensures e in edges <==> e in legal {
      EdgesBelowHold(g, g.numRHS, e.0, e.1);
      EdgeEither(g, ops, e.0, e.1);
      assert (e.0, e.1) == e;
    }
    assert edges == legal;
  }

  lemma SidesAdded(g: Bipartite, ops: seq<Operation>)
    requires EdgesAdded(g, ops)
    ensures |g.adj| == g.size
  {
  }

  lemma EdgeEither(g: Bipartite, ops: seq<Operation>, l: int, r: int)
    requires g.Valid() && |g.adj| == g.size && EdgesAdded(g, ops)
    ensures 0 <= r < g.numRHS && l in g.adj[g.numLHS + r] <==> (l, r) in LegalEdges(g.numLHS, g.numRHS, ops)
  {
    if 0 <= r < g.numRHS && l in g.adj[g.numLHS + r] {
      var i :| 0 <= i < |g.adj[g.numLHS + r]| && g.adj[g.numLHS + r][i] == l;
      assert g.IsRHS(g.numLHS + r) && g.IsLHS(l);
      assert g.numLHS + r in g.adj[l];
      var j :| 0 <= j < |ops| && ops[j] == AddEdge(l, r);
      assert AddsLegally(g.numLHS, g.numRHS, ops[j]);
    }
    if (l, r) in LegalEdges(g.numLHS, g.numRHS, ops) {
      var j :| 0 <= j < |ops| && AddsLegally(g.numLHS, g.numRHS, ops[j]) && (ops[j].lhs, ops[j].rhs) == (l, r);
      assert ops[j] == AddEdge(l, r);
      assert g.numLHS + r in g.adj[l] && g.IsLHS(l) && g.IsRHS(g.numLHS + r);
    }
  }

  // ----- what holds after a run -----

  /** The state after the operations, if none was too early. */
  ghost predicate Consistent(g: Graph, ops: seq<Operation>)
    reads g
  {
    && g.Sound() && g.Covered() && EdgesAdded(g.G(), ops)
    && (CountsKept(ops) ==> g.Exact())
    && (FromScratch(ops, |ops|) ==> LHOnline.NoneRecorded(g.numMatched))
  }

  lemma CountsPrefix(ops: seq<Operation>, op: Operation)
    ensures CountsKept(ops + [op]) ==> CountsKept(ops) && (op == FindMatching(Online) ==> FromScratch(ops, |ops|))
    ensures FromScratch(ops + [op], |ops| + 1) ==> !Matches(op) && (op.ClearMatching? || FromScratch(ops, |ops|))
  {
    var all := ops + [op];
    if CountsKept(all) {
      forall i | 0 <= i < |ops| && ops[i] == FindMatching(Online) ensures FromScratch(ops, i) {
        assert all[i] == FindMatching(Online);
        ScratchPrefix(all, ops, i);
      }
      if op == FindMatching(Online) {
        assert all[|ops|] == op;
        ScratchPrefix(all, ops, |ops|);
      }
    }
    if FromScratch(all, |ops| + 1) {
      assert all[|ops|] == op;
      if !op.ClearMatching? {
        forall k | 0 <= k < |ops| && Matches(ops[k]) ensures exists j :: k < j < |ops| && ops[j].ClearMatching? {
          assert Matches(all[k]);
          var j :| k < j < |ops| + 1 && all[j].ClearMatching?;
          assert ops[j].ClearMatching?;
        }
      }
    }
  }

  lemma ScratchPrefix(all: seq<Operation>, ops: seq<Operation>, i: nat)
    requires ops <= all && i <= |ops| && FromScratch(all, i)
    ensures FromScratch(ops, i)
  {
    forall k | 0 <= k < i && Matches(ops[k]) ensures exists j :: k < j < i && ops[j].ClearMatching? {
      assert Matches(all[k]);
      var j :| k < j < i && all[j].ClearMatching?;
      assert ops[j].ClearMatching?;
    }
  }

  /** Every run of edge additions, matching-edge settings, clearings and searches: the edges are exactly the legal
      ones that were added, and matched pairs are edges. If every online search starts from a cleared matching, the
      counters and the statistics are right, and a search at the end leaves an LH matching. The only fault is a
      breadth-first search before the first edge. */
  method RunOperations(numLHS: nat, numRHS: nat, ops: seq<Operation>) returns (g: Graph, fault: bool, stats: Statistics)
    requires 0 < numLHS && 0 < numRHS
    ensures fresh(g) && g.numLHS == numLHS && g.numRHS == numRHS
    ensures fault <==> exists i :: TooEarly(numLHS, numRHS, ops, i)
    ensures !fault ==> Consistent(g, ops)
    ensures !fault ==> stats.numEdges == |LegalEdges(numLHS, numRHS, ops)|
    ensures !fault && CountsKept(ops) ==>
              && stats.numMatchingEdges == Size(g.matchedWith)
              && stats.matchingCost == Cost(Loads(g.G(), g.matchedWith))
              && Size(KeepOne(g.matchedWith)) == stats.bipMatchingSize && IsMatching(g.G(), KeepOne(g.matchedWith))
    ensures !fault && CountsKept(ops) && ops != [] && Finds(ops[|ops| - 1]) ==> Solved(g)
  {
    hide IsLHMatching, Loads, Bipartite.Valid, Bipartite.HasEdge, TooEarly, Cost, Used, Size, KeepOne, IsMatching,
         IsPartial, Solved, Consistent, CountsKept, FromScratch, LegalEdges, EdgesAdded;
    stats := Statistics(0, 0, 0, 0);
    var code, created := LHCreateGraph(numLHS, numRHS);
    g := created;
    EmptyRun(g);
    for i := 0 to |ops|
      invariant fresh(g) && g.numLHS == numLHS && g.numRHS == numRHS
      invariant Consistent(g, ops[..i])
      invariant forall k :: 0 <= k < i ==> !TooEarly(numLHS, numRHS, ops, k)
      invariant 0 < i && Finds(ops[i - 1]) && CountsKept(ops[..i]) ==> Solved(g)
    {
      assert ops[..i + 1] == ops[..i] + [ops[i]];
      fault := ConsistentStep(g, ops, i);
      if fault {
        return;
      }
    }
    assert ops[..|ops|] == ops;
    fault := false;
    NeverLate(numLHS, numRHS, ops);
    stats := FinalStatistics(g, ops);
  }

  ghost predicate Finds(op: Operation) {
    op.FindMatching? && !op.alg.Other?
  }

  /** One more operation. */
  method ConsistentStep(g: Graph, ops: seq<Operation>, i: nat) returns (fault: bool)
    requires i < |ops| && Consistent(g, ops[..i])
    modifies g
    ensures fault <==> TooEarly(g.numLHS, g.numRHS, ops, i)
    ensures !fault ==> Consistent(g, ops[..i] + [ops[i]])
    ensures !fault && Finds(ops[i]) && CountsKept(ops[..i] + [ops[i]]) ==> Solved(g)
  {
    hide IsLHMatching, Loads, Bipartite.Valid, Bipartite.HasEdge, TooEarly, IsPartial, CountsKept, FromScratch,
         EdgesAdded, Covers, LHOnline.NoneRecorded;
    assert ops[..i] <= ops[..i] + [ops[i]];
    CountsPrefix(ops[..i], ops[i]);
    if ops[i] == FindMatching(BreadthFirst) {
      EarlyMeansNone(g.G(), ops, i);
    } else {
      OnlySearches(g.numLHS, g.numRHS, ops, i);
    }
    fault := Perform(g, ops[i]);
  }

  lemma OnlySearches(numLHS: nat, numRHS: nat, ops: seq<Operation>, i: nat)
    requires i < |ops| && ops[i] != FindMatching(BreadthFirst)
    ensures !TooEarly(numLHS, numRHS, ops, i)
  {
  }

  lemma EmptyRun(g: Graph)
    requires g.Sound() && g.Exact() && LHOnline.Unmatched(g.matchedWith) && !g.G().HasEdge()
    ensures forall ops: seq<Operation> :: ops == [] ==> Consistent(g, ops)
  {
    hide Loads;
    var none: seq<Operation> := [];
    LoadsCover(g.G(), g.matchedWith);
    LHOnline.NoneRecordedMeans(g.G(), g.numMatched, g.matchedWith);
    forall l, r | 0 <= l < g.numLHS && 0 <= r < g.numRHS ensures g.numLHS + r in g.adj[l] <==> AddEdge(l, r) in none {
      assert g.G().IsLHS(l);
    }
  }

  method FinalStatistics(g: Graph, ghost ops: seq<Operation>) returns (stats: Statistics)
    requires Consistent(g, ops)
    ensures stats.numEdges == |LegalEdges(g.numLHS, g.numRHS, ops)|
    ensures CountsKept(ops) ==>
              && stats.numMatchingEdges == Size(g.matchedWith)
              && stats.matchingCost == Cost(Loads(g.G(), g.matchedWith))
              && Size(KeepOne(g.matchedWith)) == stats.bipMatchingSize && IsMatching(g.G(), KeepOne(g.matchedWith))
  {
    hide Loads, Bipartite.Valid, Cost, Used, Size, KeepOne, IsMatching, IsPartial, CountsKept, FromScratch,
         LegalEdges, EdgesAdded, Covers;
    stats := LHGetStatistics(g);
    EdgeCount(g.G(), ops);
    if CountsKept(ops) {
      CoversNatural(g.G(), g.numMatched, g.matchedWith);
      TotalSplit(g.numMatched, Same, Over(0), Over(0), 0);
      LHOnline.TotalIsSize(g.G(), g.matchedWith);
      KeepOneIsMatching(g.G(), g.matchedWith);
    }
  }

  lemma NeverLate(numLHS: nat, numRHS: nat, ops: seq<Operation>)
    requires forall k :: 0 <= k < |ops| ==> !TooEarly(numLHS, numRHS, ops, k)
    ensures !exists i :: TooEarly(numLHS, numRHS, ops, i)
  {
  }
}
