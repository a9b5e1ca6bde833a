/** Marks, queue and parent pointers of a breadth-first search, as values. */
module SearchTrees {
  // A vertex is marked when it has a parent; the queue lists the marked vertices in the order in which they were
  // marked, so it doubles as the record of what to unmark.

  import opened Assignments
  import opened Buckets

  ghost predicate Marked(parent: seq<int>, v: int) {
    0 <= v < |parent| && parent[v] != NONE
  }

  /** The queue holds exactly the marked vertices, each once. */
  ghost predicate QueueMarks(queue: seq<int>, parent: seq<int>) {
    && Distinct(queue)
    && (forall i :: 0 <= i < |queue| ==> Marked(parent, queue[i]))
    && (forall v :: Marked(parent, v) ==> v in queue)
  }

  ghost function Range(n: nat): (all: set<int>)
    ensures forall v :: v in all <==> 0 <= v < n
    ensures |all| == n
  {
    if n == 0 then {} else Range(n - 1) + {n - 1}
  }

  ghost function Elements(s: seq<int>): set<int> {
    set v | v in s
  }

  lemma {:induction false} DistinctSize(s: seq<int>)
    requires Distinct(s)
    ensures |Elements(s)| == |s|
  {
    if s == [] {
      assert Elements(s) == {};
    } else {
      var last := |s| - 1;
      DistinctSize(s[..last]);
      assert Elements(s) == Elements(s[..last]) + {s[last]};
    }
  }

  lemma SubsetSize<T>(small: set<T>, large: set<T>)
    requires small <= large
    ensures |small| <= |large|
  {
    assert |large| == |small| + |large - small| by {
      assert large == small + (large - small);
    }
  }

  /** Marking each vertex at most once keeps the queue inside |LHS| + |RHS| slots. */
  lemma QueueFits(queue: seq<int>, parent: seq<int>)
    requires QueueMarks(queue, parent)
    ensures |queue| <= |parent|
    ensures forall v :: 0 <= v < |parent| && parent[v] == NONE ==> |queue| < |parent|
  {
    DistinctSize(queue);
    SubsetSize(Elements(queue), Range(|parent|));
    forall v | 0 <= v < |parent| && parent[v] == NONE ensures |queue| < |parent| {
      assert v !in queue;
      SubsetSize(Elements(queue), Range(|parent|) - {v});
    }
  }

  lemma MarkNext(queue: seq<int>, parent: seq<int>, v: nat, p: int)
    requires QueueMarks(queue, parent) && v < |parent| && parent[v] == NONE && p != NONE
    ensures QueueMarks(queue + [v], parent[v := p])
  {
    var queue', parent' := queue + [v], parent[v := p];
    forall i | 0 <= i < |queue'| ensures Marked(parent', queue'[i]) {
      if i < |queue| {
        assert Marked(parent, queue[i]);
      }
    }
    forall i, j | 0 <= i < j < |queue'| ensures queue'[i] != queue'[j] {
      assert Marked(parent, queue[i]);
    }
    forall w | Marked(parent', w) ensures w in queue' {
      if w == v {
        assert queue'[|queue|] == v;
      } else {
        assert Marked(parent, w);
        var i :| 0 <= i < |queue| && queue[i] == w;
        assert queue'[i] == w;
      }
    }
  }

  /** Entry `i` hangs off an earlier entry of the tree that starts at `start`: a left-hand vertex off
      a neighbour, a right-hand vertex off a left-hand vertex matched with it. */
  ghost predicate Hangs(g: Bipartite, matched: seq<int>, parent: seq<int>, queue: seq<int>, start: nat, i: int)
    requires start < i < |queue| && |g.adj| == g.size && |matched| == g.numLHS
  {
    var v := queue[i];
    && 0 <= v < |parent|
    && parent[v] in queue[start..i]
    && if g.IsLHS(v) then g.IsRHS(parent[v]) && parent[v] in g.adj[v]
       else g.IsRHS(v) && g.IsLHS(parent[v]) && matched[parent[v]] == v
  }

  /** queue[start..] is a search tree rooted at the right-hand vertex queue[start]. */
  ghost predicate Tree(g: Bipartite, matched: seq<int>, parent: seq<int>, queue: seq<int>, start: nat) {
    && |g.adj| == g.size && |matched| == g.numLHS && |parent| == g.size
    && start < |queue|
    && g.IsRHS(queue[start])
    && forall i :: start < i < |queue| ==> Hangs(g, matched, parent, queue, start, i)
  }

  lemma TreeGrows(g: Bipartite, matched: seq<int>, parent: seq<int>, queue: seq<int>, start: nat, v: nat, p: int)
    requires Tree(g, matched, parent, queue, start)
    requires v < g.size && p in queue[start..]
    requires v !in queue
    requires if g.IsLHS(v) then g.IsRHS(p) && p in g.adj[v] else g.IsRHS(v) && g.IsLHS(p) && matched[p] == v
    ensures Tree(g, matched, parent[v := p], queue + [v], start)
  {
    var queue', parent' := queue + [v], parent[v := p];
    forall i | start < i < |queue'| ensures Hangs(g, matched, parent', queue', start, i) {
      if i < |queue| {
        assert Hangs(g, matched, parent, queue, start, i);
        assert queue'[start..i] == queue[start..i];
        assert queue'[i] == queue[i] != v;
      } else {
        assert queue'[start..i] == queue[start..];
      }
    }
  }

  /** Wherever a marked left-hand vertex is matched, that vertex is marked too. */
  ghost predicate PartnersMarked(g: Bipartite, matched: seq<int>, parent: seq<int>)
    requires |matched| == g.numLHS
  {
    forall l :: g.IsLHS(l) && Marked(parent, l) ==> Marked(parent, matched[l])
  }

  /** The first `upto` alternating steps from `r` lead to marked vertices. */
  ghost predicate Explored(g: Bipartite, matched: seq<int>, parent: seq<int>, r: int, upto: int)
    requires |g.adj| == g.size && g.IsRHS(r)
  {
    forall i :: 0 <= i < upto && i < |g.adj[r]| && 0 <= g.adj[r][i] < |matched| ==> Marked(parent, matched[g.adj[r][i]])
  }

  /** All alternating steps from the right-hand vertices among queue[start..stop] do. */
  ghost predicate AllExplored(g: Bipartite, matched: seq<int>, parent: seq<int>, queue: seq<int>, start: nat, stop: nat)
    requires |g.adj| == g.size && stop <= |queue|
  {
    forall i :: start <= i < stop && g.IsRHS(queue[i]) ==>
      Explored(g, matched, parent, queue[i], |g.adj[queue[i]]|)
  }

  ghost predicate MarksGrow(parent: seq<int>, parent': seq<int>) {
    forall v :: Marked(parent, v) ==> Marked(parent', v)
  }

  lemma ExploredGrows(g: Bipartite, matched: seq<int>, parent: seq<int>, parent': seq<int>, queue: seq<int>,
                      queue': seq<int>, start: nat, stop: nat)
    requires |g.adj| == g.size && stop <= |queue| && queue <= queue'
    requires AllExplored(g, matched, parent, queue, start, stop) && MarksGrow(parent, parent')
    ensures AllExplored(g, matched, parent', queue', start, stop)
  {
    forall i | start <= i < stop && g.IsRHS(queue'[i])
      ensures Explored(g, matched, parent', queue'[i], |g.adj[queue'[i]]|)
    {
      assert Explored(g, matched, parent, queue[i], |g.adj[queue[i]]|);
    }
  }

  lemma ExploredNext(g: Bipartite, matched: seq<int>, parent: seq<int>, parent': seq<int>, r: int, j: nat)
    requires |g.adj| == g.size && g.IsRHS(r) && j < |g.adj[r]|
    requires Explored(g, matched, parent, r, j) && MarksGrow(parent, parent')
    requires 0 <= g.adj[r][j] < |matched| && Marked(parent', matched[g.adj[r][j]])
    ensures Explored(g, matched, parent', r, j + 1)
  {
  }

  lemma ExploredNothing(g: Bipartite, matched: seq<int>, parent: seq<int>, r: int)
    requires |g.adj| == g.size && g.IsRHS(r)
    ensures Explored(g, matched, parent, r, 0)
  {
  }

  lemma MarksGrowSame(parent: seq<int>)
    ensures MarksGrow(parent, parent)
  {
  }

  lemma MarksGrowFurther(parent: seq<int>, parent': seq<int>, parent'': seq<int>)
    requires MarksGrow(parent, parent') && MarksGrow(parent', parent'')
    ensures MarksGrow(parent, parent'')
  {
  }

  /** A search in progress: queue and marks agree, and queue[start..] is a tree. */
  ghost predicate Search(g: Bipartite, matched: seq<int>, parent: seq<int>, queue: seq<int>, start: nat) {
    && |matched| == g.numLHS && |parent| == g.size
    && QueueMarks(queue, parent)
    && PartnersMarked(g, matched, parent)
    && Tree(g, matched, parent, queue, start)
  }

  lemma SearchParts(g: Bipartite, matched: seq<int>, parent: seq<int>, queue: seq<int>, start: nat)
    requires Search(g, matched, parent, queue, start)
    ensures QueueMarks(queue, parent) && PartnersMarked(g, matched, parent)
    ensures |parent| == g.size && start < |queue|
    ensures forall i :: start <= i < |queue| ==> 0 <= queue[i] < g.size
  {
    assert forall i :: start <= i < |queue| ==> Marked(parent, queue[i]);
  }

  lemma PlantTree(g: Bipartite, matched: seq<int>, parent: seq<int>, queue: seq<int>, u: int)
    requires g.Valid() && |matched| == g.numLHS && |parent| == g.size && QueueMarks(queue, parent)
    requires PartnersMarked(g, matched, parent)
    requires g.IsRHS(u) && parent[u] == NONE
    ensures Search(g, matched, parent[u := u], queue + [u], |queue|)
    ensures MarksGrow(parent, parent[u := u])
  {
    MarkNext(queue, parent, u, u);
  }

  /** Marking an unmarked neighbour together with the vertex it is matched with. */
  ghost function WithPair(parent: seq<int>, v: int, n: int, m: int): seq<int>
    requires 0 <= n < |parent| && 0 <= m < |parent|
  {
    if parent[m] == NONE then parent[n := v][m := n] else parent[n := v]
  }

  lemma MarkPair(g: Bipartite, matched: seq<int>, parent: seq<int>, queue: seq<int>, start: nat, v: int, n: int)
    requires g.Valid() && IsAssignment(g, matched) && Search(g, matched, parent, queue, start)
    requires v in queue[start..] && g.IsRHS(v) && n in g.adj[v] && parent[n] == NONE
    ensures g.IsLHS(n) && g.IsRHS(matched[n]) && v != NONE && n != NONE
    ensures var m := matched[n];
            Search(g, matched, WithPair(parent, v, n, m),
                   if parent[m] == NONE then queue + [n] + [m] else queue + [n], start)
    ensures MarksGrow(parent, WithPair(parent, v, n, matched[n]))
    ensures Marked(WithPair(parent, v, n, matched[n]), matched[n])
  {
    assert g.IsLHS(n) && v in g.adj[n];
    var m := matched[n];
    assert m in g.adj[n];
    var parent1, queue1 := parent[n := v], queue + [n];
    assert n !in queue;
    TreeGrows(g, matched, parent, queue, start, n, v);
    MarkNext(queue, parent, n, v);
    if parent[m] == NONE {
      assert m !in queue1;
      assert queue1[start..][|queue| - start] == n;
      TreeGrows(g, matched, parent1, queue1, start, m, n);
      MarkNext(queue1, parent1, m, n);
    }
  }

  /** A neighbour that is passed over leads to a marked vertex anyway. */
  lemma PassedOver(g: Bipartite, matched: seq<int>, parent: seq<int>, queue: seq<int>, start: nat, v: int, n: int)
    requires g.Valid() && IsAssignment(g, matched) && Search(g, matched, parent, queue, start)
    requires v in queue && g.IsRHS(v) && n in g.adj[v] && (matched[n] == v || parent[n] != NONE)
    ensures g.IsLHS(n) && Marked(parent, matched[n]) && MarksGrow(parent, parent)
  {
    var i :| 0 <= i < |queue| && queue[i] == v;
    assert Marked(parent, queue[i]);
    assert g.IsLHS(n);
    if matched[n] != v {
      assert Marked(parent, n);
    }
  }
}
