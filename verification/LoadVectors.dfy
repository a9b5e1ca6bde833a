/** Load vectors: how many matching edges meet at each right-hand vertex. */
module LoadVectors {
  // A cost on loads is any function of one load, added up over the vector. `Excess(c, k)`, the load above a threshold
  // `k`, is the building block: a vector whose excess is smallest at every threshold is smallest for every convex
  // cost (`ExcessBoundsConvexCost`).

  import opened Totals

  /** The part of a load that lies above threshold `k`. */
  ghost function Over(k: int): int -> int {
    x => if x > k then x - k else 0
  }

  ghost function Excess(c: seq<int>, k: int): int {
    Total(c, Over(k))
  }

  /** The cost of one load in the library's header: c * (c + 1) / 2. */
  function Triangle(x: int): int {
    x * (x + 1) / 2
  }

  ghost function Cost(c: seq<int>): int {
    Total(c, Triangle)
  }

  /** 1 for a load above `k`, else 0. */
  ghost function Above(k: int): int -> int {
    x => if x > k then 1 else 0
  }

  ghost predicate Natural(c: seq<int>) {
    forall i :: 0 <= i < |c| ==> 0 <= c[i]
  }

  /** Discrete convexity on the naturals. */
  ghost predicate Convex(f: int -> int) {
    forall x :: 0 <= x ==> 2 * f(x + 1) <= f(x) + f(x + 2)
  }

  // ----- elementary facts about Total -----

  /** Moving one unit from a load to another that is lower by two or more lowers the cost. */
  lemma BalancingLowersCost(c: seq<int>, low: nat, high: nat)
    requires low < |c| && high < |c| && c[low] + 2 <= c[high]
    ensures Cost(c[low := c[low] + 1][high := c[high] - 1]) < Cost(c)
  {
    var d := c[low := c[low] + 1];
    TotalUpdate(c, Triangle, low, c[low] + 1);
    TotalUpdate(d, Triangle, high, c[high] - 1);
    TriangleStep(c[low]);
    TriangleStep(c[high] - 1);
  }

  lemma TriangleStep(x: int)
    ensures Triangle(x + 1) == Triangle(x) + x + 1
  {
    assert (x + 1) * (x + 2) == x * (x + 1) + 2 * (x + 1);
  }

  lemma TriangleConvex()
    ensures Convex(Triangle)
  {
    forall x | 0 <= x
      ensures 2 * Triangle(x + 1) <= Triangle(x) + Triangle(x + 2)
    {
      TriangleStep(x);
      TriangleStep(x + 1);
    }
  }

  lemma TriangleNonNegative(x: int)
    requires 0 <= x
    ensures 0 <= Triangle(x)
  {
    assert 0 <= x * (x + 1);
  }

  lemma CostNonNegative(c: seq<int>)
    requires Natural(c)
    ensures 0 <= Cost(c)
  {
    forall i | 0 <= i < |c| ensures 0 <= Triangle(c[i]) {
      TriangleNonNegative(c[i]);
    }
    TotalNonNegative(c, Triangle);
  }

  // ----- from thresholds to convex costs -----

  /** `f` up to `top`, continued beyond it with the slope it has just before `top`. */
  ghost function Straightened(f: int -> int, top: int): int -> int {
    x => if x <= top then f(x) else f(top) + (x - top) * (f(top) - f(top - 1))
  }

  /** How much the slope of `f` grows at `k`. */
  ghost function Bend(f: int -> int, k: int): int {
    f(k + 1) - 2 * f(k) + f(k - 1)
  }

  lemma StraightenedStep(f: int -> int, top: int, x: int)
    ensures Straightened(f, top + 1)(x) == Straightened(f, top)(x) + Bend(f, top) * Over(top)(x)
  {
    if x > top + 1 {
      var s, t, d := f(top) - f(top - 1), f(top + 1) - f(top), x - top;
      assert Bend(f, top) == t - s;
      assert f(top + 1) + (d - 1) * t == f(top) + d * t;
      assert f(top) + d * t == f(top) + d * s + (t - s) * d;
    }
  }

  ghost predicate ExcessDominated(c: seq<int>, d: seq<int>) {
    && Excess(c, 0) == Excess(d, 0)
    && forall k :: 0 <= k ==> Excess(c, k) <= Excess(d, k)
  }

  lemma {:induction false} StraightenedDominated(c: seq<int>, d: seq<int>, f: int -> int, top: int)
    requires Natural(c) && Natural(d) && |c| == |d| && 1 <= top
    requires ExcessDominated(c, d) && Convex(f)
    ensures Total(c, Straightened(f, top)) <= Total(d, Straightened(f, top))
    decreases top
  {
    if top == 1 {
      LinearTotal(c, f);
      LinearTotal(d, f);
      assert Excess(c, 0) == Excess(d, 0);
    } else {
      StraightenedDominated(c, d, f, top - 1);
      StraightenedTotal(c, f, top - 1);
      StraightenedTotal(d, f, top - 1);
      assert 0 <= Bend(f, top - 1) by { assert 2 * f(top - 2 + 1) <= f(top - 2) + f(top - 2 + 2); }
      ScaledLe(Bend(f, top - 1), Excess(c, top - 1), Excess(d, top - 1));
    }
  }

  lemma StraightenedTotal(c: seq<int>, f: int -> int, top: int)
    ensures Total(c, Straightened(f, top + 1)) == Total(c, Straightened(f, top)) + Bend(f, top) * Excess(c, top)
  {
    forall x ensures Straightened(f, top + 1)(x) == Straightened(f, top)(x) + Bend(f, top) * Over(top)(x) {
      StraightenedStep(f, top, x);
    }
    TotalSplit(c, Straightened(f, top + 1), Straightened(f, top), Over(top), Bend(f, top));
  }

  lemma ScaledLe(m: int, x: int, y: int)
    requires 0 <= m && x <= y
    ensures m * x <= m * y
  {
  }

  lemma LinearTotal(c: seq<int>, f: int -> int)
    requires Natural(c)
    ensures Total(c, Straightened(f, 1)) == |c| * f(0) + (f(1) - f(0)) * Excess(c, 0)
  {
    var constant := (x: int) => f(0);
    TotalConstant(c, constant, f(0));
    forall i | 0 <= i < |c|
      ensures Straightened(f, 1)(c[i]) == constant(c[i]) + (f(1) - f(0)) * Over(0)(c[i])
    {
      if c[i] > 1 {
        assert f(1) + (c[i] - 1) * (f(1) - f(0)) == f(0) + (f(1) - f(0)) * c[i];
      }
    }
    TotalSplit(c, Straightened(f, 1), constant, Over(0), f(1) - f(0));
  }

  /** Domination at every threshold is domination for every convex cost. */
  lemma ExcessBoundsConvexCost(c: seq<int>, d: seq<int>, f: int -> int)
    requires Natural(c) && Natural(d) && |c| == |d|
    requires ExcessDominated(c, d) && Convex(f)
    ensures Total(c, f) <= Total(d, f)
  {
    var top := 1 + Excess(c, 0) + Excess(d, 0);
    EntriesBelowTotal(c);
    EntriesBelowTotal(d);
    StraightenedDominated(c, d, f, top);
    TotalSplit(c, f, Straightened(f, top), Over(0), 0);
    TotalSplit(d, f, Straightened(f, top), Over(0), 0);
  }

  lemma EntriesBelowTotal(c: seq<int>)
    requires Natural(c)
    ensures 0 <= Excess(c, 0)
    ensures forall i :: 0 <= i < |c| ==> c[i] <= Excess(c, 0)
  {
    TotalNonNegative(c, Over(0));
    forall i | 0 <= i < |c| ensures c[i] <= Excess(c, 0) {
      assert Over(0)(c[i]) <= Excess(c, 0);
    }
  }

  /** Domination bounds the maximum load as well. */
  lemma ExcessBoundsMaximum(c: seq<int>, d: seq<int>, bound: int)
    requires Natural(c) && ExcessDominated(c, d) && 0 <= bound
    requires forall i :: 0 <= i < |d| ==> d[i] <= bound
    ensures forall i :: 0 <= i < |c| ==> c[i] <= bound
  {
    TotalConstant(d, Over(bound), 0);
    TotalNonNegative(c, Over(bound));
    forall i | 0 <= i < |c| ensures c[i] <= bound {
      assert Over(bound)(c[i]) <= Excess(c, bound);
    }
  }

  // ----- counting -----

  lemma CountFromExcess(c: seq<int>, k: int)
    ensures Total(c, Above(k)) == Excess(c, k) - Excess(c, k + 1)
  {
    TotalSplit(c, Over(k), Over(k + 1), Above(k), 1);
  }

  lemma {:induction false} MultiplicityFromCount(c: seq<int>, x: int)
    ensures multiset(c)[x] == Total(c, Above(x - 1)) - Total(c, Above(x))
  {
    if c != [] {
      var last := |c| - 1;
      assert c == c[..last] + [c[last]];
      MultiplicityFromCount(c[..last], x);
    }
  }

  /** Two natural vectors of the same length with the same excesses are permutations of each other. */
  lemma SameExcessSameMultiset(c: seq<int>, d: seq<int>)
    requires Natural(c) && Natural(d) && |c| == |d|
    requires forall k :: 0 <= k ==> Excess(c, k) == Excess(d, k)
    ensures multiset(c) == multiset(d)
  {
    forall x ensures multiset(c)[x] == multiset(d)[x] {
      MultiplicityFromCount(c, x);
      MultiplicityFromCount(d, x);
      if 0 < x {
        CountFromExcess(c, x - 1);
        CountFromExcess(d, x - 1);
        CountFromExcess(c, x);
        CountFromExcess(d, x);
      } else {
        TotalConstant(c, Above(x - 1), 1);
        TotalConstant(d, Above(x - 1), 1);
        if x == 0 {
          CountFromExcess(c, 0);
          CountFromExcess(d, 0);
        } else {
          TotalConstant(c, Above(x), 1);
          TotalConstant(d, Above(x), 1);
        }
      }
    }
  }
}
