/** The online algorithm on matchings it has not made itself. */
module OnlineExamples {
  import opened Totals
  import opened LoadVectors
  import opened Assignments
  import opened LHMain
  import opened Cardinality
  import opened OnlineTrees
  import opened LHMatch

  /** If one neighbour has less load than all else that can be reached, the step goes there. */
  lemma ForcedMove(g: Bipartite, u: int, w: int, members: set<int>, a: Recorded, b: Recorded)
    requires |g.adj| == g.size && g.IsLHS(u) && |a.load| == g.numRHS && OnlineMove(g, u, a, b) && w in g.adj[u]
             && g.IsRHS(w)
    requires Outward(g, a.matched, u, members)
    requires forall r :: r in members && r != w && g.IsRHS(r) ==> a.load[r - g.numLHS] > a.load[w - g.numLHS]
    ensures MovesTo(g, u, w, a, b)
  {
    var v :| MovesTo(g, u, v, a, b);
    assert InReach(g, a.matched, u, w);
    assert v in members;
  }

  /** The right-hand vertices of the example. */
  const X := 3

  const Y := 4

  const Z := 5

  /** Vertex 0 with the neighbours x and z, on its own. */
  ghost predicate Alone(g: Bipartite) {
    g.Valid() && g.numLHS == g.numRHS == 3 && g.adj[0] == [X, Z] && g.adj[1] == [] && g.adj[2] == []
  }

  /** The run moves 0 from x to z, and x keeps its recorded load. */
  lemma AloneMoves(g: Bipartite, a: Recorded, b: Recorded, m: nat)
    requires Alone(g) && RunsTo(g, a, b) && 0 < m && a == Recorded([X, NONE, NONE], [m, 0, 0])
    ensures b == Recorded([Z, NONE, NONE], [m, 0, 1])
  {
    var trace: seq<Recorded> :| OnlineRun(g, trace) && |trace| == g.numLHS + 1 && trace[0] == a && trace[g.numLHS] == b;
    assert OnlineMove(g, 0, trace[0], trace[0 + 1]) && OnlineMove(g, 1, trace[1], trace[1 + 1])
           && OnlineMove(g, 2, trace[2], trace[2 + 1]);
    FirstMoves(g, a, b, m);
  }

  lemma FirstMoves(g: Bipartite, a: Recorded, b: Recorded, m: nat)
    requires Alone(g) && OnlineMove(g, 0, a, b) && 0 < m && a == Recorded([X, NONE, NONE], [m, 0, 0])
    ensures b == Recorded([Z, NONE, NONE], [m, 0, 1])
  {
    hide OnlineMove, InReach;
    assert Z in g.adj[0];
    ForcedMove(g, 0, Z, {X, Z}, a, b);
    OnlyPartner(g, b.matched, Z);
  }

  lemma OnlyPartner(g: Bipartite, matched: seq<int>, w: int)
    requires |matched| == 3 && matched[1] == NONE && matched[2] == NONE
    requires exists lost :: multiset(matched) + multiset{lost} == multiset{lost, NONE, NONE} + multiset{w}
    ensures matched == [w, NONE, NONE]
  {
    var lost :| multiset(matched) + multiset{lost} == multiset{lost, NONE, NONE} + multiset{w};
    CountOfThree(matched, lost, w, multiset{lost, NONE, NONE} + multiset{w});
  }

  /** Vertices 1 and 2 with the neighbours x and y have joined. */
  ghost predicate Three(g: Bipartite) {
    g.Valid() && g.numLHS == g.numRHS == 3 && g.adj[0] == [X, Z] && g.adj[1] == [X, Y] && g.adj[2] == [X, Y]
  }

  /** What vertex 0 does then: it stays. */
  lemma FirstStays(g: Bipartite, a: Recorded, b: Recorded)
    requires Three(g) && OnlineMove(g, 0, a, b) && a == Recorded([Z, NONE, NONE], [2, 0, 1])
    ensures b == Recorded([Z, NONE, NONE], [2, 0, 2])
  {
    hide OnlineMove, InReach;
    assert Z in g.adj[0];
    ForcedMove(g, 0, Z, {X, Z}, a, b);
    OnlyPartner(g, b.matched, Z);
  }

  lemma SecondToY(g: Bipartite, a: Recorded, b: Recorded)
    requires Three(g) && OnlineMove(g, 1, a, b) && a == Recorded([Z, NONE, NONE], [2, 0, 2])
    ensures b == Recorded([Z, Y, NONE], [2, 1, 2])
  {
    hide OnlineMove, InReach;
    assert Y in g.adj[1];
    ForcedMove(g, 1, Y, {X, Y}, a, b);
    SecondPartner(g, b.matched);
  }

  lemma ThirdToY(g: Bipartite, a: Recorded, b: Recorded)
    requires Three(g) && OnlineMove(g, 2, a, b) && a == Recorded([Z, Y, NONE], [2, 1, 2])
    ensures b.matched == [Z, Y, Y]
  {
    hide OnlineMove, InReach;
    assert Y in g.adj[2];
    ForcedMove(g, 2, Y, {X, Y}, a, b);
    ThirdPartner(g, b.matched);
  }

  /** With two units recorded at x and none there, both go to y. */
  lemma BothToY(g: Bipartite, a: Recorded, b: Recorded)
    requires Three(g) && RunsTo(g, a, b) && a == Recorded([Z, NONE, NONE], [2, 0, 1])
    ensures b.matched == [Z, Y, Y]
  {
    hide OnlineMove, Three;
    SidesOfThree(g);
    var trace: seq<Recorded> :| OnlineRun(g, trace) && |trace| == g.numLHS + 1 && trace[0] == a && trace[g.numLHS] == b;
    assert OnlineMove(g, 0, trace[0], trace[0 + 1]) && OnlineMove(g, 1, trace[1], trace[1 + 1])
           && OnlineMove(g, 2, trace[2], trace[2 + 1]);
    FirstStays(g, a, trace[1]);
    SecondToY(g, trace[1], trace[2]);
    ThirdToY(g, trace[2], b);
  }

  lemma SidesOfThree(g: Bipartite)
    requires Three(g)
    ensures g.numLHS == g.numRHS == 3 && |g.adj| == g.size
  {
  }

  lemma SecondPartner(g: Bipartite, matched: seq<int>)
    requires Three(g) && |matched| == 3 && matched[2] == NONE && IsPartial(g, matched) && matched[1] != NONE
    requires multiset(matched) + multiset{NONE} == multiset([Z, NONE, NONE]) + multiset{Y}
    ensures matched == [Z, Y, NONE]
  {
    assert matched[1] in g.adj[1];
    CountOfThree(matched, NONE, X, multiset([Z, NONE, NONE]) + multiset{Y});
    CountOfThree(matched, NONE, Z, multiset([Z, NONE, NONE]) + multiset{Y});
  }

  lemma ThirdPartner(g: Bipartite, matched: seq<int>)
    requires Three(g) && |matched| == 3 && IsPartial(g, matched) && matched[2] != NONE
    requires multiset(matched) + multiset{NONE} == multiset([Z, Y, NONE]) + multiset{Y}
    ensures matched == [Z, Y, Y]
  {
    assert matched[2] in g.adj[2] && (matched[1] == NONE || matched[1] in g.adj[1]);
    CountOfThree(matched, NONE, X, multiset([Z, Y, NONE]) + multiset{Y});
    CountOfThree(matched, NONE, NONE, multiset([Z, Y, NONE]) + multiset{Y});
    CountOfThree(matched, NONE, Z, multiset([Z, Y, NONE]) + multiset{Y});
  }

  /** How often `x` is among three entries and one more. */
  lemma CountOfThree(s: seq<int>, y: int, x: int, all: multiset<int>)
    requires |s| == 3 && multiset(s) + multiset{y} == all
    ensures (if s[0] == x then 1 else 0) + (if s[1] == x then 1 else 0) + (if s[2] == x then 1 else 0) +
              (if y == x then 1 else 0) == all[x]
  {
    assert s == [s[0], s[1], s[2]];
  }

  /** Two of three at y and none at x is not optimal: one of them can move. */
  lemma UnevenIsNotOptimal(g: Bipartite)
    requires Three(g)
    ensures !IsLHMatching(g, [Z, Y, Y])
  {
    hide Loads, Cost, IsLHMatching;
    var even, uneven := [Z, X, Y], [Z, Y, Y];
    LoadsOfThree(g, even);
    LoadsOfThree(g, uneven);
    CostOfThree(1, 1, 1);
    CostOfThree(0, 2, 1);
    if IsLHMatching(g, uneven) {
      LHMatchingMinimisesCost(g, uneven, even);
    }
  }

  lemma LoadsOfThree(g: Bipartite, a: seq<int>)
    requires Three(g) && |a| == 3 && (a == [Z, X, Y] || a == [Z, Y, Y])
    ensures IsAssignment(g, a) && Loads(g, a) == if a[1] == X then [1, 1, 1] else [0, 2, 1]
  {
    hide Loads;
    assert a == [a[0], a[1], a[2]];
    assert multiset(a) == multiset{a[0], a[1], a[2]};
    assert Load(a, X) == (if a[1] == X then 1 else 0) && Load(a, Y) == (if a[1] == X then 1 else 2) && Load(a, Z) == 1;
    var c := Loads(g, a);
    assert g.IsRHS(X) && g.IsRHS(Y) && g.IsRHS(Z);
    assert c[X - g.numLHS] == Load(a, X) && c[Y - g.numLHS] == Load(a, Y) && c[Z - g.numLHS] == Load(a, Z);
  }

  lemma CostOfThree(x: int, y: int, z: int)
    ensures Cost([x, y, z]) == Triangle(x) + Triangle(y) + Triangle(z)
  {
    assert [x, y, z] == [] + [x] + [y] + [z];
    TotalOneMore([], x, Triangle);
    TotalOneMore([] + [x], y, Triangle);
    TotalOneMore([] + [x] + [y], z, Triangle);
  }

  lemma EdgesOfAlone()
    ensures WithEdge([[], [], [], [], [], []], 0, X) == [[X], [], [], [0], [], []]
    ensures WithEdge([[X], [], [], [0], [], []], 0, Z) == [[X, Z], [], [], [0], [], [0]]
  {
    assert [] + [X] == [X] && [] + [0] == [0] && [X] + [Z] == [X, Z];
  }

  lemma EdgesOfThree()
    ensures WithEdge([[X, Z], [], [], [0], [], [0]], 1, X) == [[X, Z], [X], [], [0, 1], [], [0]]
    ensures WithEdge([[X, Z], [X], [], [0, 1], [], [0]], 1, Y) == [[X, Z], [X, Y], [], [0, 1], [1], [0]]
    ensures WithEdge([[X, Z], [X, Y], [], [0, 1], [1], [0]], 2, X) == [[X, Z], [X, Y], [X], [0, 1, 2], [1], [0]]
    ensures WithEdge([[X, Z], [X, Y], [X], [0, 1, 2], [1], [0]], 2, Y) ==
              [[X, Z], [X, Y], [X, Y], [0, 1, 2], [1, 2], [0]]
  {
    assert [] + [X] == [X] && [0] + [1] == [0, 1] && [X] + [Y] == [X, Y] && [] + [1] == [1]
           && [0, 1] + [2] == [0, 1, 2] && [1] + [2] == [1, 2];
  }

  /** The state of the graph as far as the online algorithm is concerned. */
  ghost predicate At(g: Graph, adj: seq<seq<int>>, matched: seq<int>, load: seq<int>)
    reads g
  {
    g.Sound() && g.Covered() && g.numLHS == g.numRHS == 3 && g.adj == adj && g.matchedWith == matched
        && g.numMatched == load
  }

  /** Vertex 0 is matched to x by hand and moved to z by the online algorithm, which leaves one more unit recorded at
      x. */
  method MoveAway(g: Graph, ghost m: nat)
    requires At(g, [[X, Z], [], [], [0], [], [0]], [if m == 0 then NONE else Z, NONE, NONE],
                [m, 0, if m == 0 then 0 else 1])
    modifies g
    ensures At(g, [[X, Z], [], [], [0], [], [0]], [Z, NONE, NONE], [m + 1, 0, 1])
  {
    hide IsLHMatching, Loads, IsAssignment, Excess, Size, Cost, RunsTo, Covers, Bipartite.Valid, IsPartial,
         Bipartite.HasEdge;
    var code := LHSetMatchingEdge(g, 0, 0);
    assert g.matchedWith == [X, NONE, NONE] && g.numMatched == [m + 1, 0, 0];
    var fault;
    code, fault := LHFindLHMatching(g, Online);
    AloneMoves(g.G(), Recorded([X, NONE, NONE], [m + 1, 0, 0]), Recorded(g.matchedWith, g.numMatched), m + 1);
  }

  /** Vertices 1 and 2 join, both with the neighbours x and y. */
  method Join(g: Graph)
    requires At(g, [[X, Z], [], [], [0], [], [0]], g.matchedWith, g.numMatched)
    modifies g`adj
    ensures At(g, [[X, Z], [X, Y], [X, Y], [0, 1, 2], [1, 2], [0]], g.matchedWith, g.numMatched)
  {
    hide Loads, Covers, Bipartite.Valid, IsPartial, WithEdge;
    EdgesOfThree();
    var code := LHAddEdge(g, 1, 0);
    code := LHAddEdge(g, 1, 1);
    code := LHAddEdge(g, 2, 0);
    code := LHAddEdge(g, 2, 1);
  }

  /** Vertex 0 with the neighbours x and z. */
  method Begin() returns (g: Graph)
    ensures fresh(g) && At(g, [[X, Z], [], [], [0], [], [0]], [NONE, NONE, NONE], [0, 0, 0])
  {
    hide Loads, Covers, Bipartite.Valid, IsPartial, Bipartite.HasEdge, WithEdge;
    EdgesOfAlone();
    g := new Graph(3, 3);
    assert g.adj == [[], [], [], [], [], []] && g.matchedWith == [NONE, NONE, NONE] && g.numMatched == [0, 0, 0];
    var code := LHAddEdge(g, 0, 0);
    code := LHAddEdge(g, 0, 2);
  }

  /** Vertex 0 is matched by hand and moved by the online algorithm, twice, which leaves two units recorded at x and
      none there; then two more vertices come. The third call gives both the same partner, although each could have
      its own. */
  method OnlineUneven() returns (g: Graph)
    ensures fresh(g) && g.Sound() && Three(g.G()) && g.matchedWith == [Z, Y, Y] && !IsLHMatching(g.G(), g.matchedWith)
  {
    hide IsLHMatching, Loads, IsAssignment, Excess, Size, Cost, RunsTo, Covers, IsPartial, Bipartite.HasEdge,
         Bipartite.Valid;
    g := Begin();
    MoveAway(g, 0);
    MoveAway(g, 1);
    Join(g);
    ghost var matched, load := g.matchedWith, g.numMatched;
    assert matched == [Z, NONE, NONE] && load == [2, 0, 1];
    var code, fault := LHFindLHMatching(g, Online);
    BothToY(g.G(), Recorded(matched, load), Recorded(g.matchedWith, g.numMatched));
    UnevenIsNotOptimal(g.G());
  }
}
