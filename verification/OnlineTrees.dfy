/** The search trees of the online algorithm, as values. */
module OnlineTrees {
  // They lead from a new left-hand vertex to any neighbour, and from a right-hand vertex to the vertices matched with
  // it.

  import opened Assignments
  import opened SearchTrees

  /** Entry `i` of the queue hangs off an earlier one. */
  ghost predicate Follows(g: Bipartite, matched: seq<int>, parent: seq<int>, queue: seq<int>, i: int)
    requires 0 < i < |queue| && |g.adj| == g.size && |matched| == g.numLHS
  {
    var v := queue[i];
    && 0 <= v < |parent|
    && parent[v] in queue[..i]
    && if g.IsRHS(v) then g.IsLHS(parent[v]) && v in g.adj[parent[v]]
       else g.IsLHS(v) && g.IsRHS(parent[v]) && matched[v] == parent[v]
  }

  /** The queue is a search tree rooted at the left-hand vertex `u`. */
  ghost predicate Rooted(g: Bipartite, matched: seq<int>, parent: seq<int>, queue: seq<int>, u: int) {
    && |g.adj| == g.size && |matched| == g.numLHS && |parent| == g.size
    && QueueMarks(queue, parent)
    && 0 < |queue| && queue[0] == u && g.IsLHS(u) && parent[u] == u
    && forall i :: 0 < i < |queue| ==> Follows(g, matched, parent, queue, i)
  }

  /** Whether the search goes from `v` to its neighbour `n`. */
  ghost predicate Steps(g: Bipartite, matched: seq<int>, v: int, n: int) {
    g.IsLHS(v) || (0 <= n < |matched| && matched[n] == v)
  }

  ghost predicate Followed(g: Bipartite, matched: seq<int>, parent: seq<int>, v: int, upto: int)
    requires |g.adj| == g.size && 0 <= v < g.size
  {
    forall i :: 0 <= i < upto && i < |g.adj[v]| && Steps(g, matched, v, g.adj[v][i]) ==> Marked(parent, g.adj[v][i])
  }

  /** Entries before `q` are followed, and `best` is a right-hand one of least load among them. */
  ghost predicate Searching(g: Bipartite, matched: seq<int>, load: seq<int>, parent: seq<int>, queue: seq<int>,
                            u: int, q: nat, best: int) {
    && Rooted(g, matched, parent, queue, u) && q <= |queue| && |load| == g.numRHS
    && (forall i :: 0 <= i < q ==> 0 <= queue[i] < g.size && Followed(g, matched, parent, queue[i], |g.adj[queue[i]]|))
    && (best != NONE ==> g.IsRHS(best) && best in queue[..q])
    && (forall i :: 0 <= i < q && g.IsRHS(queue[i]) ==>
        best != NONE && load[best - g.numLHS] <= load[queue[i] - g.numLHS])
  }

  lemma PlantRoot(g: Bipartite, matched: seq<int>, load: seq<int>, parent: seq<int>, u: int)
    requires |g.adj| == g.size && |matched| == g.numLHS && |load| == g.numRHS && |parent| == g.size && g.IsLHS(u)
    requires forall v :: 0 <= v < |parent| ==> parent[v] == NONE
    ensures Searching(g, matched, load, parent[u := u], [u], u, 0, NONE)
  {
    MarkNext([], parent, u, u);
    assert [] + [u] == [u];
  }

  lemma RootedGrows(g: Bipartite, matched: seq<int>, parent: seq<int>, queue: seq<int>, u: int, v: int, n: int)
    requires g.Valid() && Rooted(g, matched, parent, queue, u)
    requires v in queue && 0 <= v < g.size && n in g.adj[v] && Steps(g, matched, v, n) && parent[n] == NONE
    ensures 0 <= n < g.size && v != NONE
    ensures Rooted(g, matched, parent[n := v], queue + [n], u) && MarksGrow(parent, parent[n := v])
  {
    var queue', parent' := queue + [n], parent[n := v];
    assert g.IsLHS(v) ==> g.IsRHS(n);
    assert g.IsRHS(v) ==> g.IsLHS(n);
    MarkNext(queue, parent, n, v);
    assert Marked(parent, u) by { assert Marked(parent, queue[0]); }
    forall i | 0 < i < |queue'| ensures Follows(g, matched, parent', queue', i) {
      if i < |queue| {
        assert Follows(g, matched, parent, queue, i);
        assert queue'[..i] == queue[..i];
        assert Marked(parent, queue[i]);
      } else {
        assert queue'[..i] == queue;
      }
    }
  }

  lemma FollowedGrows(g: Bipartite, matched: seq<int>, parent: seq<int>, parent': seq<int>, v: int, upto: int)
    requires |g.adj| == g.size && 0 <= v < g.size && Followed(g, matched, parent, v, upto) && MarksGrow(parent, parent')
    ensures Followed(g, matched, parent', v, upto)
    ensures 0 <= upto < |g.adj[v]| && (Steps(g, matched, v, g.adj[v][upto]) ==> Marked(parent', g.adj[v][upto])) ==>
              Followed(g, matched, parent', v, upto + 1)
  {
  }

  lemma SearchingGrows(g: Bipartite, matched: seq<int>, load: seq<int>, parent: seq<int>, queue: seq<int>,
                       parent': seq<int>, queue': seq<int>, u: int, q: nat, best: int)
    requires Searching(g, matched, load, parent, queue, u, q, best)
    requires Rooted(g, matched, parent', queue', u) && queue <= queue' && MarksGrow(parent, parent')
    ensures Searching(g, matched, load, parent', queue', u, q, best)
  {
    forall i | 0 <= i < q
      ensures 0 <= queue'[i] < g.size && Followed(g, matched, parent', queue'[i], |g.adj[queue'[i]]|) {
      assert Followed(g, matched, parent, queue[i], |g.adj[queue[i]]|);
      FollowedGrows(g, matched, parent, parent', queue[i], |g.adj[queue[i]]|);
    }
    assert queue'[..q] == queue[..q];
  }

  lemma SearchingAdvances(g: Bipartite, matched: seq<int>, load: seq<int>, parent: seq<int>, queue: seq<int>, u: int,
                          q: nat, best: int, best': int)
    requires Searching(g, matched, load, parent, queue, u, q, best) && q < |queue|
    requires 0 <= queue[q] < g.size && Followed(g, matched, parent, queue[q], |g.adj[queue[q]]|)
    requires best' == if g.IsRHS(queue[q])
             && (best == NONE || load[queue[q] - g.numLHS] < load[best - g.numLHS]) then queue[q] else best
    ensures Searching(g, matched, load, parent, queue, u, q + 1, best')
  {
    var v := queue[q];
    assert queue[..q + 1] == queue[..q] + [v];
    assert v in queue[..q + 1];
    forall i | 0 <= i < q + 1 && g.IsRHS(queue[i])
      ensures best' != NONE && load[best' - g.numLHS] <= load[queue[i] - g.numLHS] {
      if i < q {
        assert best != NONE;
      }
    }
  }

  lemma SearchingParts(g: Bipartite, matched: seq<int>, load: seq<int>, parent: seq<int>, queue: seq<int>, u: int,
                       q: nat, best: int)
    requires Searching(g, matched, load, parent, queue, u, q, best)
    ensures Rooted(g, matched, parent, queue, u) && QueueMarks(queue, parent) && |queue| <= |parent| == g.size
            && q <= |queue|
    ensures q < |queue| ==> 0 <= queue[q] < g.size
    ensures best != NONE ==> g.IsRHS(best) && best in queue
  {
    QueueFits(queue, parent);
    if q < |queue| {
      assert Marked(parent, queue[q]);
    }
    if best != NONE {
      var i :| 0 <= i < q && queue[..q][i] == best;
      assert queue[i] == best;
    }
  }

  /** A search that ran to the end: the marked vertices are closed, and `best` has the least load. */
  ghost predicate Complete(g: Bipartite, matched: seq<int>, parent: seq<int>, best: int)
    requires g.Valid()
  {
    && (forall l, i :: g.IsLHS(l) && Marked(parent, l) && 0 <= i < |g.adj[l]| ==> Marked(parent, g.adj[l][i]))
    && (forall l :: g.IsLHS(l) && l < |matched| && g.IsRHS(matched[l]) && Marked(parent, matched[l]) ==>
        Marked(parent, l))
    && (forall r :: g.IsRHS(r) && Marked(parent, r) ==> Load(matched, best) <= Load(matched, r))
  }

  /** A search that ran to the end has marked everything it could step to. */
  lemma MarkedIsClosed(g: Bipartite, matched: seq<int>, load: seq<int>, parent: seq<int>, queue: seq<int>, u: int,
                       best: int)
    requires g.Valid() && IsPartial(g, matched) && Searching(g, matched, load, parent, queue, u, |queue|, best)
    ensures forall l, i :: g.IsLHS(l) && Marked(parent, l) && 0 <= i < |g.adj[l]| ==> Marked(parent, g.adj[l][i])
    ensures forall l :: g.IsLHS(l) && l < |matched| && g.IsRHS(matched[l]) && Marked(parent, matched[l]) ==>
              Marked(parent, l)
  {
    forall l, i | g.IsLHS(l) && Marked(parent, l) && 0 <= i < |g.adj[l]| ensures Marked(parent, g.adj[l][i]) {
      var t :| 0 <= t < |queue| && queue[t] == l;
      assert Followed(g, matched, parent, queue[t], |g.adj[queue[t]]|);
      assert Steps(g, matched, l, g.adj[l][i]);
    }
    forall l | g.IsLHS(l) && l < |matched| && g.IsRHS(matched[l]) && Marked(parent, matched[l])
      ensures Marked(parent, l) {
      var r := matched[l];
      var t :| 0 <= t < |queue| && queue[t] == r;
      assert Followed(g, matched, parent, queue[t], |g.adj[queue[t]]|);
      assert r in g.adj[l] && l in g.adj[r];
      var i :| 0 <= i < |g.adj[r]| && g.adj[r][i] == l;
      assert Steps(g, matched, r, g.adj[r][i]);
    }
  }

  lemma FinishedIsComplete(g: Bipartite, matched: seq<int>, parent: seq<int>, queue: seq<int>, u: int, best: int)
    requires g.Valid() && IsPartial(g, matched) && best != NONE
    requires Searching(g, matched, Loads(g, matched), parent, queue, u, |queue|, best)
    ensures Complete(g, matched, parent, best)
  {
    hide Searching, Load, Marked;
    MarkedIsClosed(g, matched, Loads(g, matched), parent, queue, u, best);
    forall r | g.IsRHS(r) && Marked(parent, r) ensures Load(matched, best) <= Load(matched, r) {
      BestIsLeast(g, matched, parent, queue, u, best, r);
    }
  }

  lemma BestIsLeast(g: Bipartite, matched: seq<int>, parent: seq<int>, queue: seq<int>, u: int, best: int, r: int)
    requires Searching(g, matched, Loads(g, matched), parent, queue, u, |queue|, best) && best != NONE
    requires g.IsRHS(r) && Marked(parent, r)
    ensures Load(matched, best) <= Load(matched, r)
  {
    hide Load, Followed, Follows;
    var t :| 0 <= t < |queue| && queue[t] == r;
    var load := Loads(g, matched);
    assert load[best - g.numLHS] == Load(matched, best) && load[r - g.numLHS] == Load(matched, r);
  }

  /** A root with a neighbour has a right-hand vertex in reach. */
  lemma SomethingInReach(g: Bipartite, matched: seq<int>, load: seq<int>, parent: seq<int>, queue: seq<int>, u: int,
                         best: int)
    requires g.Valid() && Searching(g, matched, load, parent, queue, u, |queue|, best) && g.adj[u] != []
    ensures best != NONE
  {
    assert Followed(g, matched, parent, queue[0], |g.adj[queue[0]]|);
    var r := g.adj[u][0];
    assert Steps(g, matched, u, g.adj[u][0]);
    assert Marked(parent, r);
    var t :| 0 <= t < |queue| && queue[t] == r;
  }

  // ----- switching along the path from the root to `v` -----

  /** No left-hand vertex matched into `members` has a neighbour outside. */
  ghost predicate ClosedSet(g: Bipartite, matched: seq<int>, members: set<int>)
    requires |g.adj| == g.size
  {
    forall l, i :: g.IsLHS(l) && l < |matched| && matched[l] in members && 0 <= i < |g.adj[l]| ==>
        g.adj[l][i] in members
  }

  /** Halfway through: `w` = queue[i] has lost a partner it is about to get back, every changed vertex is
      in the tree, and closed sets that miss `v` are left alone. */
  ghost predicate Shifting(g: Bipartite, before: seq<int>, matched: seq<int>, parent: seq<int>, queue: seq<int>,
                           u: int, i: nat, v: int) {
    && g.Valid() && IsPartial(g, before) && IsPartial(g, matched)
    && Rooted(g, before, parent, queue, u) && i < |queue| && g.IsRHS(queue[i])
    && multiset(matched) + multiset{queue[i]} == multiset(before) + multiset{v}
    && (forall t :: 0 <= t < i && g.IsLHS(queue[t]) ==> matched[queue[t]] == before[queue[t]])
    && (forall l :: g.IsLHS(l) && matched[l] != before[l] ==> Marked(parent, l) && (l == u || before[l] != NONE))
    && (forall members :: ClosedSet(g, before, members) && v !in members ==> queue[i] !in members)
    && (forall l, members ::
          ClosedSet(g, before, members) && v !in members && g.IsLHS(l) && matched[l] != before[l] ==>
            matched[l] !in members)
    && (forall l :: g.IsLHS(l) && before[l] != NONE ==> matched[l] != NONE)
  }

  /** The finished switch. */
  ghost predicate Shifted(g: Bipartite, before: seq<int>, matched: seq<int>, parent: seq<int>, u: int, v: int) {
    && g.Valid() && IsPartial(g, before) && IsPartial(g, matched) && g.IsLHS(u) && matched[u] != NONE
    && multiset(matched) + multiset{before[u]} == multiset(before) + multiset{v}
    && (forall l :: g.IsLHS(l) && matched[l] != before[l] ==> Marked(parent, l) && (l == u || before[l] != NONE))
    && (forall l, members ::
          ClosedSet(g, before, members) && v !in members && g.IsLHS(l) && matched[l] != before[l] ==>
            matched[l] !in members)
    && (forall l :: g.IsLHS(l) && before[l] != NONE ==> matched[l] != NONE)
  }

  lemma ShiftStarts(g: Bipartite, matched: seq<int>, parent: seq<int>, queue: seq<int>, u: int, i: nat)
    requires g.Valid() && IsPartial(g, matched) && Rooted(g, matched, parent, queue, u) && i < |queue|
             && g.IsRHS(queue[i])
    ensures Shifting(g, matched, matched, parent, queue, u, i, queue[i])
  {
  }

  lemma InPrefix(queue: seq<int>, stop: nat, x: int) returns (t: nat)
    requires stop <= |queue| && x in queue[..stop]
    ensures t < stop && queue[t] == x
  {
    t :| 0 <= t < stop && queue[..stop][t] == x;
  }

  lemma OneStepUp(g: Bipartite, matched: seq<int>, parent: seq<int>, queue: seq<int>, u: int, i: nat) returns (j: nat)
    requires Rooted(g, matched, parent, queue, u) && i < |queue| && g.IsRHS(queue[i])
    ensures j < i && g.IsLHS(queue[j]) && parent[queue[i]] == queue[j] && queue[i] in g.adj[queue[j]]
    ensures 0 < j ==>
              g.IsRHS(parent[queue[j]]) && matched[queue[j]] == parent[queue[j]] && parent[queue[j]] in queue[..j]
    ensures 0 < j ==> queue[j] != u
  {
    assert i != 0;
    assert Follows(g, matched, parent, queue, i);
    j := InPrefix(queue, i, parent[queue[i]]);
    if 0 < j {
      assert Follows(g, matched, parent, queue, j);
      assert queue[0] != queue[j];
    }
  }

  lemma PartialChange(g: Bipartite, matched: seq<int>, p: int, w: int)
    requires g.Valid() && IsPartial(g, matched) && g.IsLHS(p) && w in g.adj[p]
    ensures IsPartial(g, matched[p := w]) && w != NONE
  {
    assert g.IsRHS(w);
  }

  lemma HoleMoves(before: seq<int>, matched: seq<int>, p: nat, w: int, v: int)
    requires p < |matched| && multiset(matched) + multiset{w} == multiset(before) + multiset{v}
    ensures multiset(matched[p := w]) + multiset{matched[p]} == multiset(before) + multiset{v}
  {
    var m, m', x := multiset(matched), multiset(matched[p := w]), matched[p];
    assert x in m;
    assert m' == m - multiset{x} + multiset{w};
    assert m - multiset{x} + multiset{x} == m;
    assert m' + multiset{x} == m + multiset{w};
  }

  /** Handing `w` over to its parent leaves closed sets alone. */
  lemma ShiftAvoids(g: Bipartite, before: seq<int>, p: int, w: int, members: set<int>)
    requires |g.adj| == g.size && g.IsLHS(p) && p < |before| && ClosedSet(g, before, members)
    requires w in g.adj[p] && w !in members
    ensures before[p] !in members
  {
    var i :| 0 <= i < |g.adj[p]| && g.adj[p][i] == w;
  }

  lemma ShiftStep(g: Bipartite, before: seq<int>, matched: seq<int>, parent: seq<int>, queue: seq<int>, u: int,
                  i: nat, v: int)
    returns (k: nat)
    requires Shifting(g, before, matched, parent, queue, u, i, v)
    ensures |parent| == g.size && g.IsLHS(parent[queue[i]])
    ensures parent[queue[i]] == u ==> Shifted(g, before, matched[u := queue[i]], parent, u, v)
    ensures var p := parent[queue[i]];
            p != u ==>
                  k < i && parent[p] == queue[k] && Shifting(g, before, matched[p := queue[i]], parent, queue, u, k, v)
  {
    var j := OneStepUp(g, before, parent, queue, u, i);
    var p, w := queue[j], queue[i];
    assert matched[p] == before[p];
    var matched' := matched[p := w];
    PartialChange(g, matched, p, w);
    HoleMoves(before, matched, p, w, v);
    assert Marked(parent, p) by { assert Marked(parent, queue[j]); }
    forall members | ClosedSet(g, before, members) && v !in members
      ensures w !in members && before[p] !in members
    {
      ShiftAvoids(g, before, p, w, members);
    }
    k := 0;
    if p != u {
      k := InPrefix(queue, j, parent[p]);
      assert forall t :: 0 <= t < k ==> queue[t] != queue[j];
    }
  }

  // ----- optimality survives -----

  lemma ShiftedLoads(g: Bipartite, before: seq<int>, matched: seq<int>, parent: seq<int>, u: int, v: int, x: int)
    requires Shifted(g, before, matched, parent, u, v) && before[u] == NONE && x != NONE
    ensures Load(matched, x) == Load(before, x) + if x == v then 1 else 0
  {
    assert (multiset(matched) + multiset{NONE})[x] == (multiset(before) + multiset{v})[x];
  }

  /** Thresholds above the load of `v` keep their tight sets. */
  lemma KeepsHighCertificate(g: Bipartite, before: seq<int>, matched: seq<int>, parent: seq<int>, u: int, v: int,
                             k: nat, tight: set<int>)
    requires Shifted(g, before, matched, parent, u, v) && before[u] == NONE && g.IsRHS(v)
    requires Certificate(g, before, k, tight) && Load(before, v) < k
    ensures Certificate(g, matched, k, tight)
  {
    forall r | g.IsRHS(r) ensures Load(matched, r) == Load(before, r) + if r == v then 1 else 0 {
      ShiftedLoads(g, before, matched, parent, u, v, r);
    }
    assert v !in tight;
    assert ClosedSet(g, before, tight);
  }

  ghost function Reached(g: Bipartite, parent: seq<int>): set<int> {
    set r | g.numLHS <= r < g.size && g.IsRHS(r) && Marked(parent, r)
  }

  lemma ShiftedFacts(g: Bipartite, before: seq<int>, matched: seq<int>, parent: seq<int>, u: int, v: int)
    requires Shifted(g, before, matched, parent, u, v) && before[u] == NONE
    ensures g.Valid() && |before| == |matched| == g.numLHS
    ensures forall r :: g.IsRHS(r) ==> Load(matched, r) == Load(before, r) + if r == v then 1 else 0
    ensures forall l :: g.IsLHS(l) && matched[l] != before[l] ==> Marked(parent, l)
  {
    forall r | g.IsRHS(r) ensures Load(matched, r) == Load(before, r) + if r == v then 1 else 0 {
      ShiftedLoads(g, before, matched, parent, u, v, r);
    }
  }

  lemma LeastInReach(g: Bipartite, matched: seq<int>, parent: seq<int>, best: int, r: int)
    requires g.Valid() && Complete(g, matched, parent, best) && g.IsRHS(r) && Marked(parent, r)
    ensures Load(matched, best) <= Load(matched, r)
  {
  }

  lemma WideIsClosed(g: Bipartite, before: seq<int>, parent: seq<int>, v: int, k: nat, tight: set<int>, l: int,
                     partner: int, i: nat)
    requires g.Valid() && Complete(g, before, parent, v) && Certificate(g, before, k, tight)
    requires g.IsLHS(l) && l < |before| && (partner != before[l] ==> Marked(parent, l))
    requires partner in tight + Reached(g, parent) && i < |g.adj[l]|
    ensures g.adj[l][i] in tight + Reached(g, parent)
  {
    assert g.IsRHS(g.adj[l][i]);
    if partner == before[l] && partner in tight {
    } else {
      assert Marked(parent, l);
    }
  }

  /** Thresholds up to the load of `v` take in everything in reach. */
  lemma ExtendsLowCertificate(g: Bipartite, before: seq<int>, matched: seq<int>, parent: seq<int>, u: int, v: int,
                              k: nat, tight: set<int>)
    requires Shifted(g, before, matched, parent, u, v) && before[u] == NONE && g.IsRHS(v) && Marked(parent, v)
    requires Complete(g, before, parent, v)
    requires Certificate(g, before, k, tight) && k <= Load(before, v)
    ensures Certificate(g, matched, k, tight + Reached(g, parent))
  {
    hide Shifted, Load, Complete, Bipartite.Valid;
    ShiftedFacts(g, before, matched, parent, u, v);
    var wide := tight + Reached(g, parent);
    forall r | r in wide ensures g.IsRHS(r) && Load(matched, r) >= k {
      if r !in tight {
        LeastInReach(g, before, parent, v, r);
      }
    }
    assert v in wide;
    forall l, i | 0 <= l < |matched| && matched[l] in wide && g.IsLHS(l) && 0 <= i < |g.adj[l]|
      ensures g.adj[l][i] in wide
    {
      WideIsClosed(g, before, parent, v, k, tight, l, matched[l], i);
    }
  }

  /** When `v` has the least load of all, everything is tight up to that load. */
  lemma EverythingTight(g: Bipartite, before: seq<int>, matched: seq<int>, parent: seq<int>, u: int, v: int, k: nat)
    requires Shifted(g, before, matched, parent, u, v) && before[u] == NONE && g.IsRHS(v)
    requires forall r :: g.IsRHS(r) ==> k <= Load(before, r)
    ensures HasCertificate(g, matched, k)
  {
    var all := set r | g.numLHS <= r < g.size && g.IsRHS(r);
    forall r | g.IsRHS(r) ensures k <= Load(matched, r) {
      ShiftedLoads(g, before, matched, parent, u, v, r);
    }
    assert Certificate(g, matched, k, all);
  }

  lemma ShiftKeepsCertified(g: Bipartite, before: seq<int>, matched: seq<int>, parent: seq<int>, u: int, v: int)
    requires Shifted(g, before, matched, parent, u, v) && before[u] == NONE && g.IsRHS(v) && Marked(parent, v)
    requires Complete(g, before, parent, v) || forall r :: g.IsRHS(r) ==> Load(before, v) <= Load(before, r)
    requires Certified(g, before)
    ensures Certified(g, matched)
  {
    hide Certificate, Complete, ClosedSet;
    forall k: nat ensures HasCertificate(g, matched, k) {
      assert HasCertificate(g, before, k);
      var tight :| Certificate(g, before, k, tight);
      if Load(before, v) < k {
        KeepsHighCertificate(g, before, matched, parent, u, v, k, tight);
      } else if Complete(g, before, parent, v) {
        ExtendsLowCertificate(g, before, matched, parent, u, v, k, tight);
      } else {
        EverythingTight(g, before, matched, parent, u, v, k);
      }
    }
  }

  // ----- what a step chooses -----

  /** `members` holds all neighbours of `u` and everything an alternating path leads to from there. */
  ghost predicate Outward(g: Bipartite, matched: seq<int>, u: int, members: set<int>)
    requires |g.adj| == g.size && g.IsLHS(u)
  {
    (forall i :: 0 <= i < |g.adj[u]| ==> g.adj[u][i] in members) && ClosedSet(g, matched, members)
  }

  ghost predicate InReach(g: Bipartite, matched: seq<int>, u: int, v: int)
    requires |g.adj| == g.size && g.IsLHS(u)
  {
    forall members :: Outward(g, matched, u, members) ==> v in members
  }

  /** `v` is in reach of `u`, and nothing in reach has a lower recorded load. */
  ghost predicate LeastInView(g: Bipartite, matched: seq<int>, load: seq<int>, u: int, v: int)
    requires |g.adj| == g.size && g.IsLHS(u) && |load| == g.numRHS
  {
    && g.IsRHS(v) && InReach(g, matched, u, v)
    && forall r :: g.IsRHS(r) && InReach(g, matched, u, r) ==> load[v - g.numLHS] <= load[r - g.numLHS]
  }

  lemma {:induction false} QueuedInReach(g: Bipartite, matched: seq<int>, parent: seq<int>, queue: seq<int>, u: int,
                                         i: nat, members: set<int>)
    requires g.Valid() && Rooted(g, matched, parent, queue, u) && i < |queue| && g.IsRHS(queue[i])
             && Outward(g, matched, u, members)
    ensures queue[i] in members
    decreases i
  {
    var j := OneStepUp(g, matched, parent, queue, u, i);
    var l := queue[j];
    var t :| 0 <= t < |g.adj[l]| && g.adj[l][t] == queue[i];
    if 0 < j {
      var k := InPrefix(queue, j, parent[l]);
      QueuedInReach(g, matched, parent, queue, u, k, members);
    }
  }

  /** What a search that ran to the end has marked is everything in reach. */
  lemma MarkedIsOutward(g: Bipartite, matched: seq<int>, load: seq<int>, parent: seq<int>, queue: seq<int>, u: int,
                        best: int)
    requires g.Valid() && IsPartial(g, matched) && Searching(g, matched, load, parent, queue, u, |queue|, best)
    ensures Outward(g, matched, u, set r | 0 <= r < g.size && g.IsRHS(r) && Marked(parent, r))
  {
    MarkedIsClosed(g, matched, load, parent, queue, u, best);
    assert Marked(parent, queue[0]);
  }

  /** The vertex the search returns. */
  lemma SearchFindsLeast(g: Bipartite, matched: seq<int>, load: seq<int>, parent: seq<int>, queue: seq<int>, u: int,
                         best: int, least: int)
    requires g.Valid() && IsPartial(g, matched) && Rooted(g, matched, parent, queue, u) && |load| == g.numRHS
    requires g.IsRHS(best) && best in queue && forall j :: 0 <= j < |load| ==> least <= load[j]
    requires load[best - g.numLHS] == least || Searching(g, matched, load, parent, queue, u, |queue|, best)
    ensures LeastInView(g, matched, load, u, best)
  {
    var t :| 0 <= t < |queue| && queue[t] == best;
    forall members | Outward(g, matched, u, members) ensures best in members {
      QueuedInReach(g, matched, parent, queue, u, t, members);
    }
    if load[best - g.numLHS] != least {
      MarkedIsOutward(g, matched, load, parent, queue, u, best);
      forall r | g.IsRHS(r) && InReach(g, matched, u, r) ensures load[best - g.numLHS] <= load[r - g.numLHS] {
        assert Marked(parent, r);
        var i :| 0 <= i < |queue| && queue[i] == r;
      }
    }
  }

  /** One step: the vertex stays as it is if it has no neighbour; otherwise one unit is recorded at a least loaded
      vertex in reach, which gains a partner, and the old partner of `u` loses it. */
  ghost predicate OnlineMove(g: Bipartite, u: int, a: Recorded, b: Recorded)
    requires |g.adj| == g.size && g.IsLHS(u)
  {
    if g.adj[u] == [] then b == a else exists v :: MovesTo(g, u, v, a, b)
  }

  /** Partners and recorded loads. */
  datatype Recorded = Recorded(matched: seq<int>, load: seq<int>)

  ghost predicate MovesTo(g: Bipartite, u: int, v: int, a: Recorded, b: Recorded)
    requires |g.adj| == g.size && g.IsLHS(u)
  {
    && |a.load| == g.numRHS && |a.matched| == |b.matched| == g.numLHS
    && LeastInView(g, a.matched, a.load, u, v) && b.load == a.load[v - g.numLHS := a.load[v - g.numLHS] + 1]
    && multiset(b.matched) + multiset{a.matched[u]} == multiset(a.matched) + multiset{v}
    && g.Valid() && IsPartial(g, b.matched) && b.matched[u] != NONE
    && forall l :: g.IsLHS(l) && l != u && a.matched[l] == NONE ==> b.matched[l] == NONE
  }

  /** The steps for the first vertices, in order. */
  ghost predicate OnlineRun(g: Bipartite, trace: seq<Recorded>) {
    && |g.adj| == g.size && 0 < |trace| <= g.numLHS + 1
    && forall i :: 0 <= i < |trace| - 1 ==> g.IsLHS(i) && OnlineMove(g, i, trace[i], trace[i + 1])
  }

  lemma RunExtends(g: Bipartite, trace: seq<Recorded>, b: Recorded)
    requires OnlineRun(g, trace) && |trace| <= g.numLHS && OnlineMove(g, |trace| - 1, trace[|trace| - 1], b)
    ensures OnlineRun(g, trace + [b])
  {
    hide OnlineMove;
    forall i | 0 <= i < |trace| ensures g.IsLHS(i) && OnlineMove(g, i, (trace + [b])[i], (trace + [b])[i + 1]) {
      if i < |trace| - 1 {
        assert OnlineMove(g, i, trace[i], trace[i + 1]);
      }
    }
  }

  /** The recorded loads still cover the real ones. */
  lemma CoversShifted(g: Bipartite, load: seq<int>, before: seq<int>, matched: seq<int>, lost: int, v: int)
    requires g.Valid() && IsPartial(g, matched) && Covers(g, load, before) && g.IsRHS(v)
    requires multiset(matched) + multiset{lost} == multiset(before) + multiset{v} && lost in multiset(before)
    ensures Covers(g, load[v - g.numLHS := load[v - g.numLHS] + 1], matched)
  {
    forall x ensures Load(matched, x) <= Load(before, x) + if x == v then 1 else 0 {
      assert (multiset(matched) + multiset{lost})[x] == (multiset(before) + multiset{v})[x];
    }
    assert (multiset(matched) + multiset{lost})[v] == (multiset(before) + multiset{v})[v];
    assert 0 < Load(matched, v);
    LoadsCover(g, matched);
    assert g.adj[v] != [];
  }
}
