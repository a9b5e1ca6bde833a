/** Stable bucket passes over a list, the encoder's way of sorting. */
module RadixSort {
  import opened HuffmanTrees
  import opened HuffmanBuild

  ghost function Flat(buckets: seq<seq<int>>): seq<int> {
    if buckets == [] then [] else Flat(buckets[..|buckets| - 1]) + buckets[|buckets| - 1]
  }

  lemma {:induction false} FlatPush(buckets: seq<seq<int>>, d: nat, x: int)
    requires d < |buckets|
    ensures multiset(Flat(buckets[d := buckets[d] + [x]])) == multiset(Flat(buckets)) + multiset{x}
  {
    var last := |buckets| - 1;
    if d < last {
      FlatPush(buckets[..last], d, x);
      assert buckets[d := buckets[d] + [x]][..last] == buckets[..last][d := buckets[d] + [x]];
    } else {
      assert buckets[d := buckets[d] + [x]][..last] == buckets[..last];
    }
  }

  lemma {:induction false} FlatEmpty(buckets: seq<seq<int>>)
    requires forall d :: 0 <= d < |buckets| ==> buckets[d] == []
    ensures Flat(buckets) == []
  {
    if buckets != [] {
      FlatEmpty(buckets[..|buckets| - 1]);
    }
  }

  /** Entries are ordered by `key`, and by `minor` where keys agree. */
  ghost predicate Ordered(list: seq<int>, key: int -> int, minor: int -> int) {
    forall i, j :: 0 <= i < j < |list| ==>
        key(list[i]) < key(list[j]) || (key(list[i]) == key(list[j]) && minor(list[i]) <= minor(list[j]))
  }

  ghost predicate Rising(list: seq<int>, minor: int -> int) {
    forall i, j :: 0 <= i < j < |list| ==> minor(list[i]) <= minor(list[j])
  }

  /** Bucket `d` holds entries with key `d`, in rising order, none above `ceiling`. */
  ghost predicate Sifted(buckets: seq<seq<int>>, key: int -> int, minor: int -> int) {
    forall d :: 0 <= d < |buckets| ==>
          Rising(buckets[d], minor) && forall i :: 0 <= i < |buckets[d]| ==> key(buckets[d][i]) == d
  }

  lemma {:induction false} FlatOrdered(buckets: seq<seq<int>>, key: int -> int, minor: int -> int)
    requires Sifted(buckets, key, minor)
    ensures Ordered(Flat(buckets), key, minor)
            && forall i :: 0 <= i < |Flat(buckets)| ==> 0 <= key(Flat(buckets)[i]) < |buckets|
  {
    if buckets != [] {
      var last := |buckets| - 1;
      FlatOrdered(buckets[..last], key, minor);
      assert Rising(buckets[last], minor);
    }
  }

  /** Distributes the list into buckets by key and joins them again, keeping the order within a bucket. */
  method BucketPass(list: seq<int>, keys: seq<nat>, size: nat, ghost key: int -> int, ghost minor: int -> int)
    returns (sorted: seq<int>)
    requires forall k :: 0 <= k < |list| ==> 0 <= list[k] < |keys| && key(list[k]) == keys[list[k]] < size
    requires Rising(list, minor)
    ensures multiset(sorted) == multiset(list)
    ensures Ordered(sorted, key, minor)
  {
    hide Sifted, Ordered, Flat, Rising, Below;
    var buckets: seq<seq<int>> := seq(size, _ => []);
    FlatEmpty(buckets);
    SiftedEmpty(buckets, list, key, minor);
    var k := 0;
    while k < |list|
      invariant 0 <= k <= |list| && |buckets| == size
      invariant Sifted(buckets, key, minor)
      invariant Below(buckets, list, k, minor)
      invariant multiset(Flat(buckets)) == multiset(list[..k])
    {
      var d := keys[list[k]];
      FlatPush(buckets, d, list[k]);
      SiftedPush(buckets, key, minor, d, list, k);
      assert list[..k + 1] == list[..k] + [list[k]];
      buckets := buckets[d := buckets[d] + [list[k]]];
      k := k + 1;
    }
    assert list[..k] == list;
    sorted := Joined(buckets);
    FlatOrdered(buckets, key, minor);
  }

  /** The buckets one after the other. */
  method Joined(buckets: seq<seq<int>>) returns (sorted: seq<int>)
    ensures sorted == Flat(buckets)
  {
    sorted := [];
    var n := 0;
    while n < |buckets|
      invariant 0 <= n <= |buckets| && sorted == Flat(buckets[..n])
    {
      assert buckets[..n + 1][..n] == buckets[..n];
      sorted := sorted + buckets[n];
      n := n + 1;
    }
    assert buckets[..n] == buckets;
  }

  /** What the buckets hold is not above the rest of the list. */
  ghost predicate Below(buckets: seq<seq<int>>, list: seq<int>, k: nat, minor: int -> int) {
    forall d, i, j :: 0 <= d < |buckets| && 0 <= i < |buckets[d]| && k <= j < |list| ==>
        minor(buckets[d][i]) <= minor(list[j])
  }

  lemma SiftedEmpty(buckets: seq<seq<int>>, list: seq<int>, key: int -> int, minor: int -> int)
    requires forall d :: 0 <= d < |buckets| ==> buckets[d] == []
    ensures Sifted(buckets, key, minor) && Below(buckets, list, 0, minor)
  {
  }

  lemma SiftedPush(buckets: seq<seq<int>>, key: int -> int, minor: int -> int, d: nat, list: seq<int>, k: nat)
    requires Sifted(buckets, key, minor) && d < |buckets| && k < |list| && key(list[k]) == d
    requires Below(buckets, list, k, minor) && Rising(list, minor)
    ensures Sifted(buckets[d := buckets[d] + [list[k]]], key, minor)
    ensures Below(buckets[d := buckets[d] + [list[k]]], list, k + 1, minor)
  {
    assert Rising(buckets[d], minor);
  }

  // ----- two passes of eight bits -----

  ghost function Low(freq: seq<nat>): int -> int { v => At(freq, v) % 256 }

  ghost function High(freq: seq<nat>): int -> int { v => At(freq, v) / 256 }

  ghost function Nothing(): int -> int { v => 0 }

  /** The leaves 0 .. n-1 by ascending frequency. */
  method SortByFrequency(freq: seq<nat>) returns (sorted: seq<int>)
    requires forall k :: 0 <= k < |freq| ==> freq[k] < 0x10000
    ensures SortedLeaves(|freq|, sorted, freq)
    ensures multiset(sorted) == multiset(Numbers(0, |freq|))
  {
    hide Ordered;
    var n := |freq|;
    var list: seq<int> := seq(n, i => i);
    assert list == Numbers(0, n);
    var low: seq<nat> := seq(n, i requires 0 <= i < n => freq[i] % 256);
    var high: seq<nat> := seq(n, i requires 0 <= i < n => freq[i] / 256 % 256);
    var once := BucketPass(list, low, 256, Low(freq), Nothing());
    InRange(once, n);
    OrderedIsRising(once, Low(freq), Nothing());
    sorted := BucketPass(once, high, 256, High(freq), Low(freq));
    InRange(sorted, n);
    DistinctNumbers(sorted, n);
    OrderedBytes(sorted, freq);
  }

  lemma OrderedIsRising(list: seq<int>, key: int -> int, minor: int -> int)
    requires Ordered(list, key, minor)
    ensures Rising(list, key)
  {
  }

  lemma InRange(list: seq<int>, n: nat)
    requires multiset(list) == multiset(Numbers(0, n))
    ensures |list| == n && forall k :: 0 <= k < |list| ==> 0 <= list[k] < n
  {
    assert |multiset(list)| == |multiset(Numbers(0, n))|;
    forall k | 0 <= k < |list| ensures 0 <= list[k] < n {
      assert list[k] in multiset(Numbers(0, n));
      var i :| 0 <= i < n && Numbers(0, n)[i] == list[k];
    }
  }

  lemma DistinctNumbers(list: seq<int>, n: nat)
    requires multiset(list) == multiset(Numbers(0, n))
    ensures forall i, j :: 0 <= i < j < |list| ==> list[i] != list[j]
  {
    forall i, j | 0 <= i < j < |list| ensures list[i] != list[j] {
      if list[i] == list[j] {
        Twice(list, i, j);
        Once(n, list[i]);
      }
    }
  }

  lemma Twice(list: seq<int>, i: nat, j: nat)
    requires i < j < |list| && list[i] == list[j]
    ensures multiset(list)[list[i]] >= 2
  {
    assert list == list[..i] + [list[i]] + list[i + 1..j] + [list[j]] + list[j + 1..];
  }

  lemma {:induction false} Once(n: nat, x: int)
    ensures multiset(Numbers(0, n))[x] == if 0 <= x < n then 1 else 0
  {
    if n != 0 {
      Once(n - 1, x);
      assert Numbers(0, n) == Numbers(0, n - 1) + [n - 1];
    }
  }

  lemma OrderedBytes(sorted: seq<int>, freq: seq<nat>)
    requires Ordered(sorted, High(freq), Low(freq)) && forall k :: 0 <= k < |sorted| ==> 0 <= sorted[k] < |freq|
    ensures forall i, j :: 0 <= i < j < |sorted| ==> freq[sorted[i]] <= freq[sorted[j]]
  {
    forall i, j | 0 <= i < j < |sorted| ensures freq[sorted[i]] <= freq[sorted[j]] {
      var a, b := freq[sorted[i]], freq[sorted[j]];
      assert a == 256 * (a / 256) + a % 256 && b == 256 * (b / 256) + b % 256;
      assert High(freq)(sorted[i]) == a / 256 && High(freq)(sorted[j]) == b / 256;
      assert Low(freq)(sorted[i]) == a % 256 && Low(freq)(sorted[j]) == b % 256;
    }
  }
}
