/** Why a full scan that finds no cost-reducing path certifies the assignment. */
module Sweeps {
  // A scan visits the right-hand vertices from low to high load. Before bucket `k` is scanned, the vertices no tree
  // has reached form a tight set for threshold `k`.

  import opened LoadVectors
  import opened Assignments
  import opened SearchTrees

  /** All trees so far are explored, every vertex loaded below `below` is in one, and no vertex in one
      is loaded above `bound`. */
  ghost predicate Swept(g: Bipartite, matched: seq<int>, load: seq<int>, parent: seq<int>, queue: seq<int>,
                        below: int, bound: int) {
    && |g.adj| == g.size && |load| == g.numRHS && |parent| == g.size
    && AllExplored(g, matched, parent, queue, 0, |queue|)
    && (forall r :: g.IsRHS(r) && g.adj[r] != [] && load[r - g.numLHS] < below ==> Marked(parent, r))
    && (forall r :: g.IsRHS(r) && Marked(parent, r) ==> load[r - g.numLHS] <= bound)
  }

  ghost function Unreached(g: Bipartite, parent: seq<int>): set<int>
    requires |g.adj| == g.size
  {
    set r | g.numLHS <= r < g.size && g.IsRHS(r) && g.adj[r] != [] && !Marked(parent, r)
  }

  lemma MatchedHasNeighbour(g: Bipartite, matched: seq<int>, r: int)
    requires g.Valid() && IsAssignment(g, matched) && g.IsRHS(r) && 0 < Load(matched, r)
    ensures g.adj[r] != []
  {
    assert r in multiset(matched);
    var l :| 0 <= l < |matched| && matched[l] == r;
    assert r in g.adj[l] && l in g.adj[r];
  }

  /** Explored trees are closed: a left-hand vertex with a marked neighbour is matched to a marked one. */
  lemma ReachedIsClosed(g: Bipartite, matched: seq<int>, parent: seq<int>, queue: seq<int>, l: int, r: int)
    requires g.Valid() && IsAssignment(g, matched) && QueueMarks(queue, parent)
    requires AllExplored(g, matched, parent, queue, 0, |queue|)
    requires g.IsLHS(l) && r in g.adj[l] && Marked(parent, r)
    ensures Marked(parent, matched[l])
  {
    assert g.IsRHS(r) && l in g.adj[r];
    var t :| 0 <= t < |queue| && queue[t] == r;
    assert Explored(g, matched, parent, queue[t], |g.adj[queue[t]]|);
    var i :| 0 <= i < |g.adj[r]| && g.adj[r][i] == l;
  }

  lemma SweptCertifies(g: Bipartite, matched: seq<int>, parent: seq<int>, queue: seq<int>, k: nat)
    requires g.Valid() && IsAssignment(g, matched) && QueueMarks(queue, parent)
    requires Swept(g, matched, Loads(g, matched), parent, queue, k, k)
    ensures HasCertificate(g, matched, k)
  {
    var tight, load := Unreached(g, parent), Loads(g, matched);
    forall r | r in tight ensures g.IsRHS(r) && Load(matched, r) >= k {
      assert load[r - g.numLHS] == Load(matched, r);
    }
    forall r | g.IsRHS(r) && Load(matched, r) > k ensures r in tight {
      assert load[r - g.numLHS] == Load(matched, r);
      MatchedHasNeighbour(g, matched, r);
    }
    forall l, i | 0 <= l < |matched| && matched[l] in tight && g.IsLHS(l) && 0 <= i < |g.adj[l]|
      ensures g.adj[l][i] in tight
    {
      var r := g.adj[l][i];
      assert r in g.adj[l] && l in g.adj[r];
      if Marked(parent, r) {
        ReachedIsClosed(g, matched, parent, queue, l, r);
      }
    }
    assert Certificate(g, matched, k, tight);
  }

  /** Above the highest load the empty set is tight. */
  lemma NothingAbove(g: Bipartite, matched: seq<int>, k: nat)
    requires g.Valid() && forall j :: 0 <= j < g.numRHS ==> Loads(g, matched)[j] <= k
    ensures HasCertificate(g, matched, k)
  {
    forall r | g.IsRHS(r) ensures Load(matched, r) <= k {
      assert Loads(g, matched)[r - g.numLHS] == Load(matched, r);
    }
    assert Certificate(g, matched, k, {});
  }

  lemma SweepStarts(g: Bipartite, matched: seq<int>, load: seq<int>, parent: seq<int>)
    requires |g.adj| == g.size && |load| == g.numRHS && |parent| == g.size && Natural(load)
    requires forall v :: 0 <= v < |parent| ==> parent[v] == NONE
    ensures Swept(g, matched, load, parent, [], 0, 0)
  {
  }

  /** A fruitless tree from a root of load `b` keeps the sweep going. */
  lemma SweepTree(g: Bipartite, matched: seq<int>, load: seq<int>, parent: seq<int>, queue: seq<int>,
                  parent': seq<int>, queue': seq<int>, b: int)
    requires Swept(g, matched, load, parent, queue, b, b + 1)
    requires |parent'| == g.size && queue <= queue' && MarksGrow(parent, parent') && QueueMarks(queue', parent')
    requires AllExplored(g, matched, parent', queue', |queue|, |queue'|)
    requires QueueMarks(queue, parent)
    requires forall i :: |queue| <= i < |queue'| && g.IsRHS(queue'[i]) ==> load[queue'[i] - g.numLHS] <= b + 1
    ensures Swept(g, matched, load, parent', queue', b, b + 1)
  {
    ExploredGrows(g, matched, parent, parent', queue, queue', 0, |queue|);
    forall r | g.IsRHS(r) && Marked(parent', r) ensures load[r - g.numLHS] <= b + 1 {
      var i :| 0 <= i < |queue'| && queue'[i] == r;
      if i < |queue| {
        assert Marked(parent, queue[i]);
      }
    }
  }

  /** Once a whole bucket has been visited, the next threshold is reached. */
  lemma SweepBucket(g: Bipartite, matched: seq<int>, load: seq<int>, parent: seq<int>, queue: seq<int>, b: int)
    requires Swept(g, matched, load, parent, queue, b, b + 1)
    requires forall r :: g.IsRHS(r) && g.adj[r] != [] && load[r - g.numLHS] == b ==> Marked(parent, r)
    ensures Swept(g, matched, load, parent, queue, b + 1, b + 1)
  {
  }
}
