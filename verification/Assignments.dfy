/** Bipartite graphs, assignments of left-hand vertices to right-hand neighbours, and certificates. */
module Assignments {
  // A family of "tight sets", one per threshold, certifies that an assignment is an LH matching.
  // Vertices are numbered as the library numbers them internally: 0 .. numLHS-1 on the left, numLHS ..
  // numLHS+numRHS-1 on the right.

  import opened Totals
  import opened LoadVectors

  /** The null vertex pointer. */
  const NONE: int := -1

  datatype Bipartite = Bipartite(numLHS: nat, numRHS: nat, adj: seq<seq<int>>) {

    const size: nat := numLHS + numRHS

    predicate IsLHS(v: int) { 0 <= v < numLHS }

    predicate IsRHS(v: int) { numLHS <= v < size }

    /** Adjacency lists join the two sides, hold no vertex twice and are symmetric. */
    ghost predicate Valid() {
      && |adj| == size
      && (forall l, i :: IsLHS(l) && 0 <= i < |adj[l]| ==> IsRHS(adj[l][i]))
      && (forall r, i :: IsRHS(r) && 0 <= i < |adj[r]| ==> IsLHS(adj[r][i]))
      && (forall v, i, j :: 0 <= v < size && 0 <= i < j < |adj[v]| ==> adj[v][i] != adj[v][j])
      && (forall l, r :: IsLHS(l) && IsRHS(r) ==> (r in adj[l] <==> l in adj[r]))
    }

    ghost predicate HasEdge() {
      exists l :: IsLHS(l) && 0 <= l < |adj| && adj[l] != []
    }
  }

  /** A partial assignment: some left-hand vertices matched to a neighbour. */
  ghost predicate IsPartial(g: Bipartite, a: seq<int>)
    requires g.Valid()
  {
    && |a| == g.numLHS
    && forall l :: 0 <= l < |a| ==> a[l] == NONE || a[l] in g.adj[l]
  }

  /** An assignment: every left-hand vertex that has a neighbour is matched to one. */
  ghost predicate IsAssignment(g: Bipartite, a: seq<int>)
    requires g.Valid()
  {
    && IsPartial(g, a)
    && forall l :: 0 <= l < |a| && g.adj[l] != [] ==> a[l] != NONE
  }

  /** Number of left-hand vertices matched with `r`. */
  ghost function Load(a: seq<int>, r: int): nat {
    multiset(a)[r]
  }

  /** What changing one partner does to the loads. */
  lemma LoadAfterChange(a: seq<int>, l: nat, r: int, x: int)
    requires l < |a|
    ensures Load(a[l := r], x) == Load(a, x) + (if x == r then 1 else 0) - (if x == a[l] then 1 else 0)
  {
    var m := multiset(a);
    assert multiset(a[l := r]) == m - multiset{a[l]} + multiset{r};
    assert a[l] in m;
  }

  ghost function Loads(g: Bipartite, a: seq<int>): (c: seq<int>)
    ensures |c| == g.numRHS && Natural(c)
    ensures forall r :: g.IsRHS(r) ==> c[r - g.numLHS] == Load(a, r)
  {
    var c := seq(g.numRHS, j requires 0 <= j => Load(a, g.numLHS + j) as int);
    assert forall j :: 0 <= j < g.numRHS ==> c[j] == Load(a, g.numLHS + j);
    c
  }

  /** The recorded loads are at least the real ones, and only vertices with a neighbour have any. */
  ghost predicate Covers(g: Bipartite, load: seq<int>, a: seq<int>) {
    && |load| == g.numRHS && |g.adj| == g.size
    && forall r :: g.IsRHS(r) ==> Load(a, r) <= load[r - g.numLHS] && (0 < load[r - g.numLHS] ==> g.adj[r] != [])
  }

  lemma CoversNatural(g: Bipartite, load: seq<int>, a: seq<int>)
    requires Covers(g, load, a)
    ensures Natural(load)
    ensures forall r :: g.IsRHS(r) && 0 < load[r - g.numLHS] ==> g.adj[r] != []
  {
    forall j | 0 <= j < |load| ensures 0 <= load[j] {
      assert g.IsRHS(g.numLHS + j);
    }
  }

  /** The real loads. */
  lemma LoadsCover(g: Bipartite, a: seq<int>)
    requires g.Valid() && IsPartial(g, a)
    ensures Covers(g, Loads(g, a), a)
  {
    forall r | g.IsRHS(r) && 0 < Load(a, r) ensures g.adj[r] != [] {
      assert r in multiset(a);
      var l :| 0 <= l < |a| && a[l] == r;
      assert r in g.adj[l] && l in g.adj[r];
    }
  }

  /** A new partner that is counted. */
  lemma CoversChange(g: Bipartite, load: seq<int>, a: seq<int>, l: nat, r: int)
    requires Covers(g, load, a) && g.Valid() && l < |a| && g.IsLHS(l) && r in g.adj[l] && g.IsRHS(r)
    ensures a[l] == NONE ==> Covers(g, load[r - g.numLHS := load[r - g.numLHS] + 1], a[l := r])
    ensures a[l] != r ==> Covers(g, Moved(g, load, a[l], r), a[l := r])
  {
    assert l in g.adj[r];
    forall x | g.IsRHS(x)
      ensures Load(a[l := r], x) == Load(a, x) + (if x == r then 1 else 0) - (if x == a[l] then 1 else 0) {
      LoadAfterChange(a, l, r, x);
    }
  }

  /** One unit of load moved from one right-hand vertex (or from nowhere) to another. */
  ghost function Moved(g: Bipartite, c: seq<int>, from: int, to: int): (d: seq<int>)
    ensures |d| == |c|
    ensures forall j :: 0 <= j < |c| ==>
              d[j] == c[j] + (if g.numLHS + j == to then 1 else 0) - (if g.numLHS + j == from then 1 else 0)
  {
    seq(|c|, j requires 0 <= j < |c| => c[j] + (if g.numLHS + j == to then 1 else 0) -
        (if g.numLHS + j == from then 1 else 0))
  }

  lemma RematchedLoads(g: Bipartite, a: seq<int>, l: nat, r: int)
    requires l < |a| && a[l] != r
    ensures Loads(g, a[l := r]) == Moved(g, Loads(g, a), a[l], r)
  {
    hide Loads, Moved;
    var c, e := Loads(g, a), Loads(g, a[l := r]);
    forall t | 0 <= t < g.numRHS
      ensures e[t] == c[t] + (if g.numLHS + t == r then 1 else 0) - (if g.numLHS + t == a[l] then 1 else 0)
    {
      var x := g.numLHS + t;
      assert g.IsRHS(x) && c[x - g.numLHS] == Load(a, x) && e[x - g.numLHS] == Load(a[l := r], x);
      LoadAfterChange(a, l, r, x);
    }
  }

  /** `tight` certifies that no assignment has a smaller excess over `k` than `a` has: it holds
      every load above `k` and none below `k`, and no vertex matched into it could go elsewhere. */
  ghost predicate Certificate(g: Bipartite, a: seq<int>, k: int, tight: set<int>)
    requires g.Valid()
  {
    && (forall r :: r in tight ==> g.IsRHS(r) && Load(a, r) >= k)
    && (forall r :: g.IsRHS(r) && Load(a, r) > k ==> r in tight)
    && (forall l, i :: 0 <= l < |a| && a[l] in tight && g.IsLHS(l) && 0 <= i < |g.adj[l]| ==> g.adj[l][i] in tight)
  }

  ghost predicate HasCertificate(g: Bipartite, a: seq<int>, k: int)
    requires g.Valid()
  {
    exists tight :: Certificate(g, a, k, tight)
  }

  ghost predicate Certified(g: Bipartite, a: seq<int>)
    requires g.Valid()
  {
    forall k: nat :: HasCertificate(g, a, k)
  }

  // ----- alternating paths -----

  /** Right-hand vertices, each next one a neighbour of a vertex matched with the one before: one unit of load can be
      moved from the first to the last. */
  ghost predicate Alternates(g: Bipartite, a: seq<int>, path: seq<int>) {
    && path != [] && |g.adj| == g.size && (forall i :: 0 <= i < |path| ==> g.IsRHS(path[i]))
    && forall i :: 0 <= i < |path| - 1 ==> Passes(g, a, path[i], path[i + 1])
  }

  ghost predicate Passes(g: Bipartite, a: seq<int>, r: int, s: int)
    requires |g.adj| == g.size
  {
    exists l :: 0 <= l < |a| && g.IsLHS(l) && a[l] == r && s in g.adj[l]
  }

  /** No alternating path leads to a load lower by two or more. */
  ghost predicate NoReducingPath(g: Bipartite, a: seq<int>) {
    forall path :: Alternates(g, a, path) ==> Load(a, path[0]) <= Load(a, path[|path| - 1]) + 1
  }

  lemma {:induction false} PathStaysInside(g: Bipartite, a: seq<int>, k: int, tight: set<int>, path: seq<int>)
    requires g.Valid() && Certificate(g, a, k, tight) && Alternates(g, a, path) && path[0] in tight
    ensures path[|path| - 1] in tight
  {
    var last := |path| - 1;
    if last != 0 {
      PathStaysInside(g, a, k, tight, path[..last]);
      assert Passes(g, a, path[last - 1], path[last - 1 + 1]);
    }
  }

  /** The certificates say exactly that no alternating path can even out the loads. */
  lemma CertifiedIffNoPath(g: Bipartite, a: seq<int>)
    requires g.Valid()
    ensures Certified(g, a) <==> NoReducingPath(g, a)
  {
    if Certified(g, a) {
      forall path | Alternates(g, a, path) ensures Load(a, path[0]) <= Load(a, path[|path| - 1]) + 1 {
        if Load(a, path[0]) > 0 {
          var k: nat := Load(a, path[0]) - 1;
          assert HasCertificate(g, a, k);
          var tight :| Certificate(g, a, k, tight);
          PathStaysInside(g, a, k, tight, path);
        }
      }
    }
    if NoReducingPath(g, a) {
      forall k: nat ensures HasCertificate(g, a, k) {
        NoPathCertifies(g, a, k);
      }
    }
  }

  ghost predicate ReachedFromAbove(g: Bipartite, a: seq<int>, k: nat, r: int) {
    exists path :: Alternates(g, a, path) && Load(a, path[0]) > k && path[|path| - 1] == r
  }

  lemma NoPathCertifies(g: Bipartite, a: seq<int>, k: nat)
    requires g.Valid() && NoReducingPath(g, a)
    ensures HasCertificate(g, a, k)
  {
    hide NoReducingPath, ReachedFromAbove, Load;
    var tight := set r | 0 <= r < g.size && ReachedFromAbove(g, a, k, r);
    forall r | r in tight ensures g.IsRHS(r) && Load(a, r) >= k {
      ReachedLoad(g, a, k, r);
    }
    forall r | g.IsRHS(r) && Load(a, r) > k ensures r in tight {
      ReachedAtOnce(g, a, k, r);
    }
    forall l, i | 0 <= l < |a| && a[l] in tight && g.IsLHS(l) && 0 <= i < |g.adj[l]| ensures g.adj[l][i] in tight {
      ReachedNext(g, a, k, l, g.adj[l][i]);
      ReachedLoad(g, a, k, g.adj[l][i]);
    }
    assert Certificate(g, a, k, tight);
  }

  lemma ReachedLoad(g: Bipartite, a: seq<int>, k: nat, r: int)
    requires g.Valid() && NoReducingPath(g, a) && ReachedFromAbove(g, a, k, r)
    ensures g.IsRHS(r) && Load(a, r) >= k
  {
    hide Load;
  }

  lemma ReachedAtOnce(g: Bipartite, a: seq<int>, k: nat, r: int)
    requires g.Valid() && g.IsRHS(r) && Load(a, r) > k
    ensures ReachedFromAbove(g, a, k, r)
  {
    hide Load;
    assert Alternates(g, a, [r]);
  }

  lemma ReachedNext(g: Bipartite, a: seq<int>, k: nat, l: int, s: int)
    requires g.Valid() && g.IsLHS(l) && l < |a| && ReachedFromAbove(g, a, k, a[l]) && s in g.adj[l]
    ensures ReachedFromAbove(g, a, k, s)
  {
    hide Load;
    var path :| Alternates(g, a, path) && Load(a, path[0]) > k && path[|path| - 1] == a[l];
    PathExtends(g, a, path, l, s);
    assert (path + [s])[0] == path[0];
  }

  lemma PathExtends(g: Bipartite, a: seq<int>, path: seq<int>, l: int, s: int)
    requires g.Valid() && Alternates(g, a, path) && g.IsLHS(l) && l < |a| && a[l] == path[|path| - 1] && s in g.adj[l]
    ensures Alternates(g, a, path + [s])
  {
    var i :| 0 <= i < |g.adj[l]| && g.adj[l][i] == s;
    assert Passes(g, a, path[|path| - 1], s);
    forall j | 0 <= j < |path| ensures Passes(g, a, (path + [s])[j], (path + [s])[j + 1]) {
      if j < |path| - 1 {
        assert Passes(g, a, path[j], path[j + 1]);
      }
    }
  }

  // ----- loads inside a set of right-hand vertices -----

  /** Sum of (c[j] - k) over the positions j whose vertex lo + j is in `set`. */
  ghost function SumIn(c: seq<int>, lo: int, members: set<int>, k: int): int {
    if c == [] then 0
    else
      var last := |c| - 1;
      SumIn(c[..last], lo, members, k) + if lo + last in members then c[last] - k else 0
  }

  ghost function CountIn(a: seq<int>, members: set<int>): nat {
    if a == [] then 0
    else CountIn(a[..|a| - 1], members) + if a[|a| - 1] in members then 1 else 0
  }

  lemma {:induction false} SumInBelowExcess(c: seq<int>, lo: int, members: set<int>, k: int)
    ensures SumIn(c, lo, members, k) <= Excess(c, k)
  {
    if c != [] {
      SumInBelowExcess(c[..|c| - 1], lo, members, k);
    }
  }

  lemma {:induction false} SumInTight(c: seq<int>, lo: int, members: set<int>, k: int)
    requires forall j :: 0 <= j < |c| ==> if lo + j in members then c[j] >= k else c[j] <= k
    ensures SumIn(c, lo, members, k) == Excess(c, k)
  {
    if c != [] {
      var last := |c| - 1;
      assert lo + last in members || c[last] <= k;
      forall j | 0 <= j < |c[..last]|
        ensures if lo + j in members then c[..last][j] >= k else c[..last][j] <= k
      {
        assert c[..last][j] == c[j];
      }
      SumInTight(c[..last], lo, members, k);
    }
  }

  lemma {:induction false} SumInShift(c: seq<int>, d: seq<int>, lo: int, members: set<int>, k: int)
    requires |c| == |d|
    ensures SumIn(c, lo, members, k) - SumIn(d, lo, members, k) == SumIn(c, lo, members, 0) - SumIn(d, lo, members, 0)
  {
    if c != [] {
      SumInShift(c[..|c| - 1], d[..|d| - 1], lo, members, k);
    }
  }

  lemma {:induction false} SumInUpdate(c: seq<int>, lo: int, members: set<int>, i: nat, x: int)
    requires i < |c|
    ensures SumIn(c[i := x], lo, members, 0) == SumIn(c, lo, members, 0) + if lo + i in members then x - c[i] else 0
  {
    var last := |c| - 1;
    if i < last {
      SumInUpdate(c[..last], lo, members, i, x);
      assert c[i := x][..last] == c[..last][i := x];
    } else {
      assert c[i := x][..last] == c[..last];
    }
  }

  lemma {:induction false} SumInZero(c: seq<int>, lo: int, members: set<int>)
    requires forall j :: 0 <= j < |c| ==> c[j] == 0
    ensures SumIn(c, lo, members, 0) == 0
  {
    if c != [] {
      SumInZero(c[..|c| - 1], lo, members);
    }
  }

  /** Adding up loads over a set of right-hand vertices counts the vertices matched into it. */
  lemma {:induction false} LoadsCountMatched(g: Bipartite, a: seq<int>, members: set<int>)
    requires forall r :: r in members ==> g.IsRHS(r)
    ensures SumIn(Loads(g, a), g.numLHS, members, 0) == CountIn(a, members)
  {
    if a == [] {
      SumInZero(Loads(g, a), g.numLHS, members);
    } else {
      var last := |a| - 1;
      var c := Loads(g, a[..last]);
      LoadsCountMatched(g, a[..last], members);
      assert a == a[..last] + [a[last]];
      if g.IsRHS(a[last]) {
        var i := a[last] - g.numLHS;
        assert Loads(g, a) == c[i := c[i] + 1];
        SumInUpdate(c, g.numLHS, members, i, c[i] + 1);
      } else {
        assert Loads(g, a) == c;
      }
    }
  }

  lemma {:induction false} CountInMonotone(a: seq<int>, b: seq<int>, members: set<int>)
    requires |a| == |b|
    requires forall l :: 0 <= l < |a| && a[l] in members ==> b[l] in members
    ensures CountIn(a, members) <= CountIn(b, members)
  {
    if a != [] {
      var last := |a| - 1;
      forall l | 0 <= l < last && a[..last][l] in members ensures b[..last][l] in members {
        assert a[l] in members;
      }
      CountInMonotone(a[..last], b[..last], members);
      assert a[last] in members ==> b[last] in members;
    }
  }

  // ----- a certificate proves minimality -----

  lemma CertificateMinimisesExcess(g: Bipartite, a: seq<int>, k: int, tight: set<int>, b: seq<int>)
    requires g.Valid() && IsPartial(g, a) && IsAssignment(g, b)
    requires Certificate(g, a, k, tight)
    ensures Excess(Loads(g, a), k) <= Excess(Loads(g, b), k)
  {
    hide Certificate, IsAssignment, IsPartial, Load, Loads, Excess, SumIn, CountIn, Bipartite.Valid;
    var c, d, lo := Loads(g, a), Loads(g, b), g.numLHS;
    CertificateSide(g, a, k, tight);
    CertificateLoads(g, a, k, tight);
    SumInTight(c, lo, tight, k);
    SumInBelowExcess(d, lo, tight, k);
    SumInShift(c, d, lo, tight, k);
    LoadsCountMatched(g, a, tight);
    LoadsCountMatched(g, b, tight);
    TightStays(g, a, k, tight, b);
    CountInMonotone(a, b, tight);
  }

  lemma CertificateSide(g: Bipartite, a: seq<int>, k: int, tight: set<int>)
    requires g.Valid() && Certificate(g, a, k, tight)
    ensures forall r :: r in tight ==> g.IsRHS(r)
  {
    hide Load;
  }

  lemma CertificateAt(g: Bipartite, a: seq<int>, k: int, tight: set<int>, r: int)
    requires g.Valid() && Certificate(g, a, k, tight) && g.IsRHS(r)
    ensures if r in tight then Load(a, r) >= k else Load(a, r) <= k
  {
    hide Load, Bipartite.Valid;
  }

  lemma CertificateLoads(g: Bipartite, a: seq<int>, k: int, tight: set<int>)
    requires g.Valid() && Certificate(g, a, k, tight)
    ensures var c := Loads(g, a);
      forall j :: 0 <= j < |c| ==> if g.numLHS + j in tight then c[j] >= k else c[j] <= k
  {
    hide Load, Loads, Certificate, Bipartite.Valid;
    var c, lo := Loads(g, a), g.numLHS;
    forall j | 0 <= j < |c| ensures if lo + j in tight then c[j] >= k else c[j] <= k {
      LoadAt(g, a, j);
      CertificateAt(g, a, k, tight, lo + j);
    }
  }

  lemma LoadAt(g: Bipartite, a: seq<int>, j: nat)
    requires j < g.numRHS
    ensures g.IsRHS(g.numLHS + j) && Loads(g, a)[j] == Load(a, g.numLHS + j)
  {
    hide Load;
    assert Loads(g, a)[g.numLHS + j - g.numLHS] == Load(a, g.numLHS + j);
  }

  /** Who is matched into the tight set in one assignment is so in every other. */
  lemma TightStays(g: Bipartite, a: seq<int>, k: int, tight: set<int>, b: seq<int>)
    requires g.Valid() && IsPartial(g, a) && IsAssignment(g, b) && Certificate(g, a, k, tight)
    ensures |a| == |b| && forall l :: 0 <= l < |a| && a[l] in tight ==> b[l] in tight
  {
    hide Load;
    forall l | 0 <= l < |a| && a[l] in tight ensures b[l] in tight {
      assert a[l] in g.adj[l] && b[l] in g.adj[l];
    }
  }

  /** Every two assignments carry the same total load. */
  lemma AssignmentsSameTotal(g: Bipartite, a: seq<int>, b: seq<int>)
    requires g.Valid() && IsAssignment(g, a) && IsAssignment(g, b)
    ensures Excess(Loads(g, a), 0) == Excess(Loads(g, b), 0)
  {
    var all := set r | g.numLHS <= r < g.size && g.IsRHS(r);
    forall x | IsAssignment(g, x) ensures Certificate(g, x, 0, all) {
    }
    CertificateMinimisesExcess(g, a, 0, all, b);
    CertificateMinimisesExcess(g, b, 0, all, a);
  }

  /** A certified assignment has the least cost, for every convex cost function of the loads. */
  ghost predicate IsLHMatching(g: Bipartite, a: seq<int>)
    requires g.Valid()
  {
    && IsAssignment(g, a)
    && forall b, f: int -> int :: IsAssignment(g, b) && Convex(f) ==> Total(Loads(g, a), f) <= Total(Loads(g, b), f)
  }

  lemma CertifiedDominates(g: Bipartite, a: seq<int>, b: seq<int>)
    requires g.Valid() && IsAssignment(g, a) && Certified(g, a) && IsAssignment(g, b)
    ensures ExcessDominated(Loads(g, a), Loads(g, b))
  {
    AssignmentsSameTotal(g, a, b);
    forall k | 0 <= k ensures Excess(Loads(g, a), k) <= Excess(Loads(g, b), k) {
      HasCertificateMinimisesExcess(g, a, k, b);
    }
  }

  lemma HasCertificateMinimisesExcess(g: Bipartite, a: seq<int>, k: nat, b: seq<int>)
    requires g.Valid() && IsPartial(g, a) && Certified(g, a) && IsAssignment(g, b)
    ensures Excess(Loads(g, a), k) <= Excess(Loads(g, b), k)
  {
    assert HasCertificate(g, a, k);
    var tight :| Certificate(g, a, k, tight);
    CertificateMinimisesExcess(g, a, k, tight, b);
  }

  lemma CertifiedIsLHMatching(g: Bipartite, a: seq<int>)
    requires g.Valid() && IsAssignment(g, a) && Certified(g, a)
    ensures IsLHMatching(g, a)
  {
    forall b, f: int -> int | IsAssignment(g, b) && Convex(f)
      ensures Total(Loads(g, a), f) <= Total(Loads(g, b), f)
    {
      CertifiedDominates(g, a, b);
      ExcessBoundsConvexCost(Loads(g, a), Loads(g, b), f);
    }
  }

  lemma LHMatchingMinimises(g: Bipartite, a: seq<int>, b: seq<int>, f: int -> int)
    requires g.Valid() && IsLHMatching(g, a) && IsAssignment(g, b) && Convex(f)
    ensures IsAssignment(g, a) && Total(Loads(g, a), f) <= Total(Loads(g, b), f)
  {
  }

  /** In particular the documented cost c(c+1)/2 and the sum of squares (hence the variance, the total
      being fixed) are least. */
  lemma LHMatchingMinimisesCost(g: Bipartite, a: seq<int>, b: seq<int>)
    requires g.Valid() && IsLHMatching(g, a) && IsAssignment(g, b)
    ensures Cost(Loads(g, a)) <= Cost(Loads(g, b))
    ensures Total(Loads(g, a), Square) <= Total(Loads(g, b), Square)
    ensures Excess(Loads(g, a), 0) == Excess(Loads(g, b), 0)
  {
    hide IsLHMatching, IsAssignment, Convex, Bipartite.Valid;
    TriangleConvex();
    SquareConvex();
    LHMatchingMinimises(g, a, b, Triangle);
    LHMatchingMinimises(g, a, b, Square);
    AssignmentsSameTotal(g, a, b);
  }

  ghost function Square(x: int): int { x * x }

  lemma SquareStep(x: int)
    ensures Square(x + 1) == Square(x) + 2 * x + 1
  {
  }

  lemma SquareConvex()
    ensures Convex(Square)
  {
    hide Square;
    forall x | 0 <= x ensures 2 * Square(x + 1) <= Square(x) + Square(x + 2) {
      SquareStep(x);
      SquareStep(x + 1);
    }
  }

  lemma OverConvex(k: int)
    ensures Convex(Over(k))
  {
  }

  lemma LHMatchingMinimisesMaximum(g: Bipartite, a: seq<int>, b: seq<int>, bound: int)
    requires g.Valid() && IsLHMatching(g, a) && IsAssignment(g, b) && 0 <= bound
    requires forall j :: 0 <= j < g.numRHS ==> Loads(g, b)[j] <= bound
    ensures forall j :: 0 <= j < g.numRHS ==> Loads(g, a)[j] <= bound
  {
    LHMatchingDominates(g, a, b);
    ExcessBoundsMaximum(Loads(g, a), Loads(g, b), bound);
  }

  lemma LHMatchingDominates(g: Bipartite, a: seq<int>, b: seq<int>)
    requires g.Valid() && IsLHMatching(g, a) && IsAssignment(g, b)
    ensures ExcessDominated(Loads(g, a), Loads(g, b))
  {
    hide IsLHMatching, IsAssignment, Bipartite.Valid;
    OverConvex(0);
    LHMatchingMinimises(g, a, b, Over(0));
    AssignmentsSameTotal(g, a, b);
    forall k | 0 <= k ensures Excess(Loads(g, a), k) <= Excess(Loads(g, b), k) {
      OverConvex(k);
      LHMatchingMinimises(g, a, b, Over(k));
    }
  }

  /** Any two LH matchings have the same loads up to renaming the right-hand vertices. */
  lemma LHMatchingsAgree(g: Bipartite, a: seq<int>, b: seq<int>)
    requires g.Valid() && IsLHMatching(g, a) && IsLHMatching(g, b)
    ensures multiset(Loads(g, a)) == multiset(Loads(g, b))
  {
    LHMatchingDominates(g, a, b);
    LHMatchingDominates(g, b, a);
    SameExcessSameMultiset(Loads(g, a), Loads(g, b));
  }
}
