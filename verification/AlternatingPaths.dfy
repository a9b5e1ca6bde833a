/** Switching matching edges along the parent pointers of a search tree, as values. */
module AlternatingPaths {
  import opened LoadVectors
  import opened Assignments
  import opened SearchTrees

  /** The matching halfway through a switch that began at `v` and has reached entry `i`: one edge has
      been moved from `v` to queue[i], and only vertices of this tree have changed partner. */
  ghost predicate Switching(g: Bipartite, before: seq<int>, matched: seq<int>, parent: seq<int>, queue: seq<int>,
                            start: nat, i: nat, v: int) {
    && g.Valid() && IsAssignment(g, before) && IsAssignment(g, matched)
    && Search(g, before, parent, queue, start) && start <= i < |queue| && g.IsRHS(queue[i])
    && multiset(matched) + multiset{v} == multiset(before) + multiset{queue[i]}
    && (forall t :: start <= t < i && g.IsLHS(queue[t]) ==> matched[queue[t]] == before[queue[t]])
    && (forall l :: g.IsLHS(l) && matched[l] != before[l] ==> l in queue[start..])
    && PartnersMarked(g, matched, parent)
  }

  lemma SwitchStarts(g: Bipartite, matched: seq<int>, parent: seq<int>, queue: seq<int>, start: nat, i: nat)
    requires g.Valid() && IsAssignment(g, matched) && Search(g, matched, parent, queue, start)
    requires start <= i < |queue| && g.IsRHS(queue[i])
    ensures Switching(g, matched, matched, parent, queue, start, i, queue[i])
  {
  }

  lemma SwitchingParts(g: Bipartite, before: seq<int>, matched: seq<int>, parent: seq<int>, queue: seq<int>,
                       start: nat, i: nat, v: int)
    requires Switching(g, before, matched, parent, queue, start, i, v)
    ensures IsAssignment(g, matched) && PartnersMarked(g, matched, parent) && g.IsRHS(queue[i])
    ensures multiset(matched) + multiset{v} == multiset(before) + multiset{queue[i]}
    ensures forall l :: g.IsLHS(l) && matched[l] != before[l] ==> l in queue[start..]
  {
  }

  /** The walk stops at the root and nowhere else, since no vertex is queued twice. */
  lemma SwitchingEnds(g: Bipartite, before: seq<int>, matched: seq<int>, parent: seq<int>, queue: seq<int>,
                      start: nat, i: nat, v: int)
    requires Switching(g, before, matched, parent, queue, start, i, v) && queue[i] == queue[start]
    ensures i == start
  {
  }

  lemma InSlice(queue: seq<int>, start: nat, stop: nat, x: int) returns (t: nat)
    requires start <= stop <= |queue| && x in queue[start..stop]
    ensures start <= t < stop && queue[t] == x
  {
    var k :| 0 <= k < stop - start && queue[start..stop][k] == x;
    t := start + k;
  }

  /** The two parent steps from a right-hand entry lead back to an earlier right-hand entry. */
  lemma TwoStepsUp(g: Bipartite, matched: seq<int>, parent: seq<int>, queue: seq<int>, start: nat, i: nat)
    returns (j: nat, k: nat)
    requires Search(g, matched, parent, queue, start) && start < i < |queue| && g.IsRHS(queue[i])
    ensures start <= k < j < i && g.IsLHS(queue[j]) && g.IsRHS(queue[k]) && |parent| == g.size && |g.adj| == g.size
    ensures parent[queue[i]] == queue[j] && parent[queue[j]] == queue[k]
    ensures matched[queue[j]] == queue[i] && queue[k] in g.adj[queue[j]]
  {
    assert Hangs(g, matched, parent, queue, start, i);
    j := InSlice(queue, start, i, parent[queue[i]]);
    assert g.IsLHS(queue[j]) && j != start;
    assert Hangs(g, matched, parent, queue, start, j);
    k := InSlice(queue, start, j, parent[queue[j]]);
  }

  lemma SwitchStep(g: Bipartite, before: seq<int>, matched: seq<int>, parent: seq<int>, queue: seq<int>, start: nat,
                   i: nat, v: int)
    returns (k: nat)
    requires Switching(g, before, matched, parent, queue, start, i, v) && start < i
    ensures |parent| == g.size && g.IsLHS(parent[queue[i]]) && 0 <= parent[parent[queue[i]]] < g.size
    ensures start <= k < i && queue[k] == parent[parent[queue[i]]]
    ensures Switching(g, before, matched[parent[queue[i]] := queue[k]], parent, queue, start, k, v)
  {
    var j;
    j, k := TwoStepsUp(g, before, parent, queue, start, i);
    var p, w := queue[j], queue[k];
    assert matched[p] == before[p] == queue[i];
    var matched' := matched[p := w];
    SwitchedIsAssignment(g, matched, p, w);
    EdgeMoves(before, matched, p, w, v);
    assert Marked(parent, w) by { assert Marked(parent, queue[k]); }
    assert PartnersMarked(g, matched', parent);
    assert p in queue[start..] by { assert queue[start..][j - start] == p; }
    forall t | start <= t < k && g.IsLHS(queue[t]) ensures matched'[queue[t]] == before[queue[t]] {
      assert queue[t] != queue[j];
    }
  }

  lemma EdgeMoves(before: seq<int>, matched: seq<int>, p: nat, w: int, v: int)
    requires p < |matched| && multiset(matched) + multiset{v} == multiset(before) + multiset{matched[p]}
    ensures multiset(matched[p := w]) + multiset{v} == multiset(before) + multiset{w}
  {
    var m, m', x := multiset(matched), multiset(matched[p := w]), matched[p];
    assert x in m;
    assert m' == m - multiset{x} + multiset{w};
    assert m - multiset{x} + multiset{x} == m;
    assert m' + multiset{x} == m + multiset{w};
    forall y ensures (m' + multiset{v})[y] == (multiset(before) + multiset{w})[y] {
      assert (m' + multiset{x})[y] == (m + multiset{w})[y];
      assert (m + multiset{v})[y] == (multiset(before) + multiset{x})[y];
    }
  }

  lemma SwitchedIsAssignment(g: Bipartite, matched: seq<int>, p: int, w: int)
    requires g.Valid() && IsAssignment(g, matched) && g.IsLHS(p) && w in g.adj[p]
    ensures IsAssignment(g, matched[p := w])
  {
  }

  /** One unit of load moved from `v` to `u`. */
  ghost function Balanced(g: Bipartite, load: seq<int>, u: int, v: int): seq<int>
    requires g.IsRHS(u) && g.IsRHS(v) && |load| == g.numRHS
  {
    load[u - g.numLHS := load[u - g.numLHS] + 1][v - g.numLHS := load[v - g.numLHS] - 1]
  }

  lemma BalancedCost(g: Bipartite, load: seq<int>, u: int, v: int)
    requires g.IsRHS(u) && g.IsRHS(v) && |load| == g.numRHS
    requires load[u - g.numLHS] + 2 <= load[v - g.numLHS]
    ensures Cost(Balanced(g, load, u, v)) < Cost(load)
  {
    BalancingLowersCost(load, u - g.numLHS, v - g.numLHS);
  }

  /** What a finished switch from `v` to the root does to the loads. */
  lemma SwitchedLoads(g: Bipartite, before: seq<int>, matched: seq<int>, u: int, v: int)
    requires multiset(matched) + multiset{v} == multiset(before) + multiset{u}
    requires g.IsRHS(u) && g.IsRHS(v) && u != v
    ensures Loads(g, matched) == Balanced(g, Loads(g, before), u, v)
  {
    hide Load;
    var c, d := Loads(g, before), Loads(g, matched);
    forall t | 0 <= t < g.numRHS ensures d[t] == Balanced(g, c, u, v)[t] {
      var r := g.numLHS + t;
      assert g.IsRHS(r) && c[r - g.numLHS] == Load(before, r) && d[r - g.numLHS] == Load(matched, r);
      SwitchedLoad(before, matched, u, v, r);
    }
  }

  lemma SwitchedLoad(before: seq<int>, matched: seq<int>, u: int, v: int, r: int)
    requires multiset(matched) + multiset{v} == multiset(before) + multiset{u} && u != v
    ensures Load(matched, r) == Load(before, r) + (if r == u then 1 else 0) - (if r == v then 1 else 0)
  {
    assert (multiset(matched) + multiset{v})[r] == (multiset(before) + multiset{u})[r];
  }
}
