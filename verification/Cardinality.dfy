/** Ordinary bipartite matchings, and how an LH matching yields a largest one. */
module Cardinality {
  import opened Totals
  import opened LoadVectors
  import opened Assignments

  /** An ordinary matching: no right-hand vertex is used twice. */
  ghost predicate IsMatching(g: Bipartite, m: seq<int>)
    requires g.Valid()
  {
    && IsPartial(g, m)
    && forall i, j :: 0 <= i < j < |m| && m[i] != NONE ==> m[i] != m[j]
  }

  ghost function Size(m: seq<int>): nat {
    if m == [] then 0 else Size(m[..|m| - 1]) + if m[|m| - 1] == NONE then 0 else 1
  }

  /** Number of right-hand vertices with at least one matching edge (`bipMatchingSize`). */
  ghost function Used(c: seq<int>): int {
    Total(c, Above(0))
  }

  /** At each right-hand vertex, throw away every matching edge but one. */
  ghost function KeepOne(a: seq<int>): (m: seq<int>)
    ensures |m| == |a|
    ensures forall l :: 0 <= l < |a| ==> m[l] == if a[l] in a[..l] then NONE else a[l]
  {
    seq(|a|, l requires 0 <= l < |a| => if a[l] in a[..l] then NONE else a[l])
  }

  /** Give every vertex a matching leaves out its first neighbour. */
  ghost function Completed(g: Bipartite, m: seq<int>): (b: seq<int>)
    requires g.Valid() && IsPartial(g, m)
    ensures IsAssignment(g, b)
    ensures forall l :: 0 <= l < |m| && m[l] != NONE ==> b[l] == m[l]
  {
    seq(|m|, l requires 0 <= l < |m| =>
      if m[l] == NONE && g.adj[l] != [] then g.adj[l][0] else m[l])
  }

  lemma UsedMonotone(g: Bipartite, a: seq<int>, b: seq<int>)
    requires forall r :: g.IsRHS(r) && r in a ==> r in b
    ensures Used(Loads(g, a)) <= Used(Loads(g, b))
  {
    var c, d := Loads(g, a), Loads(g, b);
    hide Total;
    forall j | 0 <= j < |c| ensures Above(0)(c[j]) <= Above(0)(d[j]) {
      var r := g.numLHS + j;
      assert g.IsRHS(r) && c[r - g.numLHS] == Load(a, r) && d[r - g.numLHS] == Load(b, r);
      LoadedInBoth(a, b, r);
    }
    TotalMonotone(c, d, Above(0));
  }

  lemma LoadedInBoth(a: seq<int>, b: seq<int>, r: int)
    requires r in a ==> r in b
    ensures 0 < Load(a, r) ==> 0 < Load(b, r)
  {
    assert r in multiset(a) <==> r in a;
    assert r in multiset(b) <==> r in b;
  }

  lemma {:induction false} DistinctLoad(m: seq<int>, r: int)
    requires forall i, j :: 0 <= i < j < |m| && m[i] != NONE ==> m[i] != m[j]
    requires r != NONE
    ensures Load(m, r) <= 1
  {
    if m != [] {
      var last := |m| - 1;
      assert m == m[..last] + [m[last]];
      DistinctLoad(m[..last], r);
      if m[last] == r {
        assert r !in multiset(m[..last]);
      }
    }
  }

  lemma {:induction false} SizeCounts(g: Bipartite, m: seq<int>, all: set<int>)
    requires forall l :: 0 <= l < |m| ==> (m[l] in all <==> m[l] != NONE)
    ensures Size(m) == CountIn(m, all)
  {
    if m != [] {
      SizeCounts(g, m[..|m| - 1], all);
    }
  }

  /** Loads of at most one are counted alike by `Used` and by `Excess`. */
  lemma UsedIsTotal(c: seq<int>)
    requires forall j :: 0 <= j < |c| ==> 0 <= c[j] <= 1
    ensures Used(c) == Excess(c, 0)
  {
    TotalSplit(c, Above(0), Over(0), Over(0), 0);
  }

  lemma MatchingLoads(g: Bipartite, m: seq<int>)
    requires g.Valid() && IsMatching(g, m)
    ensures forall j :: 0 <= j < g.numRHS ==> 0 <= Loads(g, m)[j] <= 1
  {
    forall j | 0 <= j < g.numRHS ensures 0 <= Loads(g, m)[j] <= 1 {
      assert g.IsRHS(g.numLHS + j);
      DistinctLoad(m, g.numLHS + j);
    }
  }

  lemma PartialRange(g: Bipartite, m: seq<int>)
    requires g.Valid() && IsPartial(g, m)
    ensures forall l :: 0 <= l < |m| ==> m[l] == NONE || g.IsRHS(m[l])
  {
    forall l | 0 <= l < |m| && m[l] != NONE ensures g.IsRHS(m[l]) {
      assert m[l] in g.adj[l];
    }
  }

  lemma TotalCounts(g: Bipartite, m: seq<int>)
    requires forall l :: 0 <= l < |m| ==> m[l] == NONE || g.IsRHS(m[l])
    ensures Excess(Loads(g, m), 0) == Size(m)
  {
    var all := set r | g.numLHS <= r < g.size && g.IsRHS(r);
    forall j | 0 <= j < g.numRHS
      ensures if g.numLHS + j in all then Loads(g, m)[j] >= 0 else Loads(g, m)[j] <= 0
    {
      assert g.IsRHS(g.numLHS + j);
    }
    SumInTight(Loads(g, m), g.numLHS, all, 0);
    LoadsCountMatched(g, m, all);
    SizeCounts(g, m, all);
  }

  lemma MatchingUses(g: Bipartite, m: seq<int>)
    requires g.Valid() && IsMatching(g, m)
    ensures Used(Loads(g, m)) == Size(m)
  {
    MatchingLoads(g, m);
    UsedIsTotal(Loads(g, m));
    PartialRange(g, m);
    TotalCounts(g, m);
  }

  lemma {:induction false} FirstUse(a: seq<int>, r: int) returns (l: nat)
    requires r in a
    ensures l < |a| && a[l] == r && r !in a[..l]
  {
    var last := |a| - 1;
    assert a == a[..last] + [a[last]];
    if r in a[..last] {
      l := FirstUse(a[..last], r);
      assert a[..last][..l] == a[..l];
    } else {
      l := last;
    }
  }

  lemma KeepOneIsMatching(g: Bipartite, a: seq<int>)
    requires g.Valid() && IsPartial(g, a)
    ensures IsMatching(g, KeepOne(a))
    ensures Size(KeepOne(a)) == Used(Loads(g, a))
  {
    var m := KeepOne(a);
    forall i, j | 0 <= i < j < |m| && m[i] != NONE ensures m[i] != m[j] {
      assert a[i] in a[..j];
    }
    assert IsMatching(g, m);
    MatchingUses(g, m);
    forall r | g.IsRHS(r) && r in m ensures r in a {
      var l :| 0 <= l < |m| && m[l] == r;
    }
    UsedMonotone(g, m, a);
    forall r | g.IsRHS(r) && r in a ensures r in m {
      var l := FirstUse(a, r);
      assert m[l] == r;
    }
    UsedMonotone(g, a, m);
  }

  lemma DominatedUsesMore(c: seq<int>, d: seq<int>)
    requires ExcessDominated(c, d)
    ensures Used(d) <= Used(c)
  {
    CountFromExcess(c, 0);
    CountFromExcess(d, 0);
    assert Excess(c, 1) <= Excess(d, 1);
  }

  /** Among all assignments an LH matching uses the most right-hand vertices. */
  lemma LHMatchingUsesMost(g: Bipartite, a: seq<int>, b: seq<int>)
    requires g.Valid() && IsLHMatching(g, a) && IsAssignment(g, b)
    ensures Used(Loads(g, b)) <= Used(Loads(g, a))
  {
    LHMatchingDominates(g, a, b);
    DominatedUsesMore(Loads(g, a), Loads(g, b));
  }

  /** The size the statistics report is that of a maximum cardinality matching, and the thinned
      LH matching is one. */
  lemma LHMatchingGivesMaximumMatching(g: Bipartite, a: seq<int>)
    requires g.Valid() && IsLHMatching(g, a)
    ensures IsMatching(g, KeepOne(a)) && Size(KeepOne(a)) == Used(Loads(g, a))
    ensures forall m :: IsMatching(g, m) ==> Size(m) <= Used(Loads(g, a))
  {
    KeepOneIsMatching(g, a);
    forall m | IsMatching(g, m) ensures Size(m) <= Used(Loads(g, a)) {
      var b := Completed(g, m);
      MatchingUses(g, m);
      UsedMonotone(g, m, b);
      LHMatchingUsesMost(g, a, b);
    }
  }
}
