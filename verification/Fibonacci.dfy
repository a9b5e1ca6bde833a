/** How deep Huffman's tree gets: what depth the frequencies pay for, and frequencies that need more than 15 bits. */
module Fibonacci {
  import opened PrefixCodes
  import opened HuffmanTrees
  import opened HuffmanBuild
  import opened CanonicalCodes
  import opened HuffmanCodes

  function Fib(k: nat): (f: nat)
    ensures 1 <= f
  {
    if k < 2 then 1 else Fib(k - 1) + Fib(k - 2)
  }

  lemma {:induction false} FibRises(i: nat, j: nat)
    requires i <= j
    ensures Fib(i) <= Fib(j)
    decreases j
  {
    if i < j {
      FibRises(i, j - 1);
    }
  }

  /** The two lightest weights, known by other means, are those that are merged. */
  lemma MergedIs(m: multiset<Weight>, x: Weight, y: Weight)
    requires |m| > 1 && IsMin(m, x) && IsMin(Less(m, x), y)
    ensures MinOf(m) == x && SecondOf(m) == y && Merged(m) == Fused(m, x, y)
  {
    hide IsMin, Less, More, Fused;
    MinUnique(m, x);
    assert x in m by { MinIn(m, x); }
    LessFacts(m, x);
    MinUnique(Less(m, x), y);
  }

  lemma MinIn(m: multiset<Weight>, x: Weight)
    requires IsMin(m, x)
    ensures x in m
  {
  }

  // ----- Fibonacci frequencies -----

  /** Single symbols with the Fibonacci numbers from number `j` up to but not including `n`. */
  ghost function Tail(j: nat, n: nat): multiset<Weight>
    decreases n - j
  {
    if j >= n then multiset{} else More(Tail(j + 1, n), Weight(Fib(j), 0))
  }

  lemma {:induction false} TailFacts(j: nat, n: nat)
    requires j <= n
    ensures |Tail(j, n)| == n - j
    ensures forall x :: x in Tail(j, n) ==> x.height == 0 && Fib(j) <= x.freq
    decreases n - j
  {
    if j < n {
      TailFacts(j + 1, n);
      FibRises(j, j + 1);
      MoreFacts(Tail(j + 1, n), Weight(Fib(j), 0));
    }
  }

  /** What is left after `j` merges: the first j + 1 symbols have become one tree, one level higher with every merge. */
  ghost function Grown(j: nat, n: nat): multiset<Weight> {
    More(Tail(j + 1, n), Weight(Fib(j + 2) - 1, j))
  }

  lemma GrownSize(j: nat, n: nat)
    requires j < n
    ensures |Grown(j, n)| == n - j
  {
    TailFacts(j + 1, n);
    MoreFacts(Tail(j + 1, n), Weight(Fib(j + 2) - 1, j));
  }

  /** The next merge takes the next symbol and that tree. */
  lemma GrownStep(j: nat, n: nat)
    requires 1 <= j && j + 1 < n
    ensures |Grown(j, n)| > 1 && Merged(Grown(j, n)) == Grown(j + 1, n)
  {
    hide Merged, Fused, Less, IsMin;
    var x, y, rest := Weight(Fib(j + 1), 0), Weight(Fib(j + 2) - 1, j), Tail(j + 2, n);
    GrownSize(j, n);
    TailFacts(j + 2, n);
    assert Tail(j + 1, n) == More(rest, x);
    assert Grown(j, n) == More(More(rest, x), y);
    TwoTaken(rest, x, y);
    MergedIs(Grown(j, n), x, y);
    assert United(x, y) == Weight(Fib(j + 3) - 1, j + 1);
  }

  lemma TwoTaken(rest: multiset<Weight>, x: Weight, y: Weight)
    requires NoHeavier(x, y) && forall z :: z in rest ==> NoHeavier(y, z)
    ensures IsMin(More(More(rest, x), y), x) && IsMin(Less(More(More(rest, x), y), x), y)
    ensures Fused(More(More(rest, x), y), x, y) == More(rest, United(x, y))
  {
    hide NoHeavier, Less, More, IsMin;
    var m := More(More(rest, x), y);
    LessMore(rest, x, y);
    forall z ensures (z in m <==> z in rest || z == x || z == y) && (z in More(rest, y) <==> z in rest || z == y) {
      MoreFacts(rest, x);
      MoreFacts(More(rest, x), y);
      MoreFacts(rest, y);
    }
    forall z | z in rest ensures NoHeavier(x, z) {
      NoHeavierThrough(x, y, z);
    }
    NoHeavierThrough(x, x, x);
    NoHeavierThrough(y, y, y);
    MinIs(m, x);
    MinIs(More(rest, y), y);
  }

  lemma NoHeavierThrough(x: Weight, y: Weight, z: Weight)
    ensures NoHeavier(x, x) && (NoHeavier(x, y) && NoHeavier(y, z) ==> NoHeavier(x, z))
  {
  }

  lemma MinIs(m: multiset<Weight>, x: Weight)
    requires x in m && forall z :: z in m ==> NoHeavier(x, z)
    ensures IsMin(m, x)
  {
  }

  lemma LessMore(rest: multiset<Weight>, x: Weight, y: Weight)
    ensures Less(More(More(rest, x), y), x) == More(rest, y) && Less(More(rest, y), y) == rest
  {
  }

  lemma FirstMerge(n: nat)
    requires 2 <= n
    ensures |Tail(0, n)| > 1 && Merged(Tail(0, n)) == Grown(1, n)
  {
    hide Merged, Fused, Less, IsMin;
    var x, rest := Weight(1, 0), Tail(2, n);
    TailFacts(0, n);
    TailFacts(2, n);
    assert Tail(1, n) == More(rest, x) && Tail(0, n) == More(More(rest, x), x);
    TwoTaken(rest, x, x);
    MergedIs(Tail(0, n), x, x);
    assert United(x, x) == Weight(Fib(3) - 1, 1);
  }

  lemma {:induction false} GrownHeight(j: nat, n: nat)
    requires 1 <= j < n
    ensures HuffmanHeight(Grown(j, n)) == n - 1
    decreases n - j
  {
    hide Grown, Merged, Fib;
    GrownSize(j, n);
    if j + 1 < n {
      GrownStep(j, n);
      GrownHeight(j + 1, n);
    } else {
      LastGrown(n);
    }
  }

  lemma LastGrown(n: nat)
    requires 2 <= n
    ensures IsMin(Grown(n - 1, n), Weight(Fib(n + 1) - 1, n - 1)) && |Grown(n - 1, n)| == 1
  {
    GrownSize(n - 1, n);
  }

  /** Fibonacci frequencies make the tree as deep as it can be with so many symbols. */
  lemma FibonacciHeight(n: nat)
    requires 2 <= n
    ensures HuffmanHeight(Tail(0, n)) == n - 1
  {
    hide Grown, Merged, Tail;
    FirstMerge(n);
    GrownHeight(1, n);
  }

  // ----- what a depth costs -----

  /** Every tree weighs at least what its height takes, and so does every tree that waits beside it, one level less. */
  ghost predicate Heavy(m: multiset<Weight>) {
    forall x, z :: x in m && z in m ==> Fib(x.height + 1) <= x.freq && (0 < x.height ==> Fib(x.height) <= z.freq)
  }

  lemma {:induction false} HeavyMerged(m: multiset<Weight>)
    requires |m| > 1 && Heavy(m)
    ensures Heavy(Merged(m))
  {
    hide Merged, MinOf, SecondOf, Heavy, IsMin, Less, Fused;
    var x, y := MinOf(m), SecondOf(m);
    var u := United(x, y);
    MergedFacts(m);
    HeavyUnited(m, x, y);
    forall a, b | a in Merged(m) && b in Merged(m)
      ensures Fib(a.height + 1) <= a.freq && (0 < a.height ==> Fib(a.height) <= b.freq) {
      if a != u {
        HeavyMeans(m, a, a);
        HeavyMeans(m, a, x);
        if b != u {
          HeavyMeans(m, a, b);
        }
      }
    }
    HeavyIs(Merged(m));
  }

  lemma MergedFacts(m: multiset<Weight>)
    requires |m| > 1
    ensures MinOf(m) in m && SecondOf(m) in m && MinOf(m).freq <= SecondOf(m).freq
    ensures forall z :: z in Merged(m) ==> z == United(MinOf(m), SecondOf(m)) || (z in m && SecondOf(m).freq <= z.freq)
  {
    var x, y := MinOf(m), SecondOf(m);
    hide Merged, MinOf, SecondOf, NoHeavier;
    LessFacts(m, x);
    assert IsMin(m, x) && IsMin(Less(m, x), y);
    assert Merged(m) == Fused(m, x, y) by { MergedIs(m, x, y); }
    FusedFacts(m, x, y);
  }

  lemma FusedFacts(m: multiset<Weight>, x: Weight, y: Weight)
    requires IsMin(m, x) && IsMin(Less(m, x), y)
    ensures y in m && x.freq <= y.freq
    ensures forall z :: z in Fused(m, x, y) ==> z == United(x, y) || (z in m && y.freq <= z.freq)
  {
    LessFacts(m, x);
    LessFacts(Less(m, x), y);
    MoreFacts(Less(Less(m, x), y), United(x, y));
  }

  lemma HeavyMeans(m: multiset<Weight>, x: Weight, z: Weight)
    requires Heavy(m) && x in m && z in m
    ensures Fib(x.height + 1) <= x.freq && (0 < x.height ==> Fib(x.height) <= z.freq)
  {
  }

  lemma HeavyIs(m: multiset<Weight>)
    requires forall x, z :: x in m && z in m ==>
               Fib(x.height + 1) <= x.freq && (0 < x.height ==> Fib(x.height) <= z.freq)
    ensures Heavy(m)
  {
  }

  lemma HeavyUnited(m: multiset<Weight>, x: Weight, y: Weight)
    requires Heavy(m) && x in m && y in m && x.freq <= y.freq
    ensures Fib(United(x, y).height + 1) <= United(x, y).freq && Fib(United(x, y).height) <= y.freq
  {
    HeavyMeans(m, x, y);
    HeavyMeans(m, y, x);
  }

  // ----- the weight of all -----

  /** The frequencies of all weights together. */
  ghost function Mass(m: multiset<Weight>): nat
    decreases |m|
  {
    if |m| == 0 then 0
    else
      LessFacts(m, MinOf(m));
      MinOf(m).freq + Mass(Less(m, MinOf(m)))
  }

  lemma {:induction false} MassOfAny(m: multiset<Weight>, x: Weight)
    requires x in m
    ensures Mass(m) == x.freq + Mass(Less(m, x))
    decreases |m|
  {
    hide MinOf, Less;
    var z := MinOf(m);
    LessFacts(m, z);
    LessFacts(m, x);
    LessCommutes(m, x, z);
    if z != x {
      MassOfAny(Less(m, z), x);
      MassOfAny(Less(m, x), z);
    }
  }

  lemma LessCommutes(m: multiset<Weight>, x: Weight, z: Weight)
    ensures Less(Less(m, z), x) == Less(Less(m, x), z)
    ensures x != z && x in m && z in m ==> x in Less(m, z) && z in Less(m, x)
  {
  }

  lemma MassMore(m: multiset<Weight>, x: Weight)
    ensures Mass(More(m, x)) == Mass(m) + x.freq
  {
    hide Mass;
    MassOfAny(More(m, x), x);
    assert Less(More(m, x), x) == m;
  }

  lemma MassMerged(m: multiset<Weight>)
    requires |m| > 1
    ensures Mass(Merged(m)) == Mass(m)
  {
    hide Mass, MinOf, SecondOf;
    var x, y := MinOf(m), SecondOf(m);
    LessFacts(m, x);
    MassOfAny(m, x);
    MassOfAny(Less(m, x), y);
    MassMore(Less(Less(m, x), y), United(x, y));
  }

  lemma {:induction false} HeightNeedsMass(m: multiset<Weight>)
    requires |m| > 0 && Heavy(m)
    ensures Fib(HuffmanHeight(m) + 1) <= Mass(m)
    decreases |m|
  {
    hide Merged, Mass, Heavy, Fib;
    if |m| == 1 {
      var x := MinOf(m);
      HeavyMeans(m, x, x);
      MassOfAny(m, x);
    } else {
      MassMerged(m);
      HeavyMerged(m);
      HeightNeedsMass(Merged(m));
    }
  }

  lemma {:induction false} MassOfSingles(w: seq<nat>)
    ensures Mass(multiset(Singles(w))) == SumOf(w)
  {
    hide Mass;
    if w == [] {
      MassOfNone(multiset(Singles(w)));
    } else {
      var last := |w| - 1;
      MassOfSingles(w[..last]);
      assert Singles(w) == Singles(w[..last]) + [Weight(w[last], 0)];
      assert multiset(Singles(w)) == More(multiset(Singles(w[..last])), Weight(w[last], 0));
      MassMore(multiset(Singles(w[..last])), Weight(w[last], 0));
    }
  }

  lemma MassOfNone(m: multiset<Weight>)
    requires |m| == 0
    ensures Mass(m) == 0
  {
  }

  /** An optimal code of `d` bits takes frequencies that sum up to at least a Fibonacci number. */
  lemma DepthNeedsFrequencies(freq: seq<nat>)
    requires |Used(freq)| > 0
    ensures Fib(LeastDepth(freq) + 1) <= SumOf(Listed(Used(freq), freq))
  {
    hide Mass, Used, HuffmanHeight, Fib;
    var w := Listed(Used(freq), freq);
    UsedFacts(freq);
    MassOfSingles(w);
    assert Singles(w)[0] in multiset(Singles(w));
    SinglesHeavy(w);
    HeightNeedsMass(multiset(Singles(w)));
  }

  lemma SinglesHeavy(w: seq<nat>)
    requires forall k :: 0 <= k < |w| ==> 1 <= w[k]
    ensures Heavy(multiset(Singles(w)))
  {
    assert Fib(1) == 1;
    forall x | x in multiset(Singles(w)) ensures x.height == 0 && 1 <= x.freq {
      var k :| 0 <= k < |w| && Singles(w)[k] == x;
    }
  }

  // ----- fifteen bits -----

  lemma SomeFib()
    ensures Fib(5) == 8 && Fib(9) == 55 && Fib(13) == 377 && Fib(17) == 2584
  {
    assert Fib(4) == 5 && Fib(5) == 8;
    assert Fib(8) == 34 && Fib(9) == 55;
    assert Fib(12) == 233 && Fib(13) == 377;
    assert Fib(16) == 1597 && Fib(17) == 2584;
  }

  /** So 15 bits are enough for an optimal code as long as fewer than 2584 symbols are counted. */
  lemma FifteenBitsAreEnough(freq: seq<nat>)
    requires |Used(freq)| > 0 && SumOf(Listed(Used(freq), freq)) < 2584
    ensures LeastDepth(freq) <= 15
  {
    hide Used, Fib;
    DepthNeedsFrequencies(freq);
    SomeFib();
    if 16 <= LeastDepth(freq) {
      FibRises(17, LeastDepth(freq) + 1);
    }
  }

  /** The first `n` Fibonacci numbers as frequencies of consecutive symbols, among others that do not occur. */
  function FibonacciFrequencies(before: nat, n: nat, after: nat): (freq: seq<nat>)
    ensures |freq| == before + n + after
  {
    seq(before + n + after, s requires 0 <= s => FibonacciAt(before, n, s))
  }

  function FibonacciAt(before: nat, n: nat, s: nat): nat { if before <= s < before + n then Fib(s - before) else 0 }

  lemma {:induction false} FibonacciUsed(before: nat, n: nat, after: nat, k: nat)
    requires k <= before + n + after
    ensures Used(FibonacciFrequencies(before, n, after)[..k]) ==
              Numbers(before, if k < before then before else if k < before + n then k else before + n)
  {
    hide Used, Fib;
    var freq := FibonacciFrequencies(before, n, after);
    if k == 0 {
      UsedNone();
      assert freq[..0] == [] && Numbers(before, before) == [];
    } else {
      FibonacciUsed(before, n, after, k - 1);
      UsedStep(freq, k - 1);
      if before < k <= before + n {
        assert Numbers(before, k) == Numbers(before, k - 1) + [k - 1];
      } else {
        assert freq[k - 1] == 0 && Used(freq[..k - 1]) + [] == Used(freq[..k - 1]);
      }
    }
  }

  lemma {:induction false} TailIsSingles(w: seq<nat>, j: nat)
    requires j <= |w| && forall k :: 0 <= k < |w| ==> w[k] == Fib(k)
    ensures multiset(Singles(w[j..])) == Tail(j, |w|)
    decreases |w| - j
  {
    hide Fib;
    if j < |w| {
      TailIsSingles(w, j + 1);
      assert Singles(w[j..]) == [Weight(w[j], 0)] + Singles(w[j + 1..]);
      assert multiset(Singles(w[j..])) == More(multiset(Singles(w[j + 1..])), Weight(w[j], 0));
    }
  }

  /** Their tree has a level for every merge. */
  lemma FibonacciDepth(before: nat, n: nat, after: nat)
    requires 2 <= n
    ensures var freq := FibonacciFrequencies(before, n, after); LeastDepth(freq) == n - 1 && |Used(freq)| == n
  {
    hide Used, Fib, HuffmanHeight, Tail;
    var freq := FibonacciFrequencies(before, n, after);
    FibonacciUsed(before, n, after, |freq|);
    assert freq[..|freq|] == freq;
    var w := Listed(Used(freq), freq);
    TailIsSingles(w, 0);
    assert w[0..] == w;
    FibonacciHeight(n);
  }

  /** Seventeen Fibonacci numbers as frequencies take 16 bits: with its limit of 15 bits the code is not optimal. */
  method FifteenBitsAreNotEnough() returns (length: seq<nat>)
    ensures var freq := FibonacciFrequencies(240, 17, 255);
      |length| == |freq| == 512 && LeastDepth(freq) == 16 && Fills(length, 15) && !Optimal(freq, length)
  {
    hide Used, Fib, Fills, Optimal, LeastDepth;
    var freq := FibonacciFrequencies(240, 17, 255);
    FibonacciDepth(240, 17, 255);
    FibonacciBelow(240, 17, 255);
    Pow8();
    Pow2Monotone(8, 15);
    var mask, encoded, total;
    mask, length, encoded, total := HuffmanCreateCodes(freq, 15);
  }

  lemma FibonacciBelow(before: nat, n: nat, after: nat)
    requires n <= 17
    ensures forall s :: 0 <= s < before + n + after ==> FibonacciFrequencies(before, n, after)[s] < 0x10000
  {
    hide Fib;
    SomeFib();
    forall s: nat ensures FibonacciAt(before, n, s) < 0x10000 {
      if before <= s < before + n {
        FibRises(s - before, 17);
      }
    }
  }
}
