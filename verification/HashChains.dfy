/** The index of three-byte strings: for every position, a chain of the earlier positions with the same hash. */
module HashChains {
  import opened BitStreams

  type Hash = (Byte, Byte, Byte) -> nat

  /** The hash of the three bytes at `n`. */
  function HashAt(orig: seq<Byte>, hash: Hash, n: nat): nat
    requires n + 2 < |orig|
  {
    hash(orig[n], orig[n + 1], orig[n + 2])
  }

  ghost predicate Alike(orig: seq<Byte>, hash: Hash, j: nat, n: nat) {
    j + 2 < |orig| && n + 2 < |orig| && HashAt(orig, hash, j) == HashAt(orig, hash, n)
  }

  /** `last` is the latest position below `n` and above 0 whose hash is `h`, or 0 if there is none. */
  ghost predicate Latest(orig: seq<Byte>, hash: Hash, h: nat, n: nat, last: nat) {
    && (last != 0 ==> last < n && last + 2 < |orig| && HashAt(orig, hash, last) == h)
    && forall j :: last < j < n && j + 2 < |orig| ==> HashAt(orig, hash, j) != h
  }

  /** `next` links every position that begins three bytes to the latest one before it with the same hash. */
  ghost predicate Linked(orig: seq<Byte>, hash: Hash, next: seq<nat>, n: nat) {
    && n <= |next| && n <= |orig|
    && forall i :: 0 <= i < n ==>
        if i + 2 < |orig| then Latest(orig, hash, HashAt(orig, hash, i), i, next[i]) else next[i] == 0
  }

  lemma LatestMoves(orig: seq<Byte>, hash: Hash, h: nat, n: nat, last: nat)
    requires Latest(orig, hash, h, n, last) && n + 2 < |orig|
    ensures Latest(orig, hash, h, n + 1, if HashAt(orig, hash, n) == h then n else last)
  {
  }

  method ZHashInsert(orig: seq<Byte>, hash: Hash, zHash: array<nat>, zNext: array<nat>)
    requires |orig| <= 0x10000 && |orig| <= zNext.Length && zHash != zNext
    requires forall a: Byte, b: Byte, c: Byte :: hash(a, b, c) < zHash.Length
    requires forall h :: 0 <= h < zHash.Length ==> zHash[h] == 0
    modifies zHash, zNext
    ensures Linked(orig, hash, zNext[..], |orig|)
  {
    hide Latest, HashAt;
    var n := 0;
    forall h | 0 <= h < zHash.Length ensures Latest(orig, hash, h, 0, 0) {
      LatestStarts(orig, hash, h);
    }
    while n + 2 < |orig|
      invariant 0 <= n && (n + 2 <= |orig| || n == 0)
      invariant forall h :: 0 <= h < zHash.Length ==> Latest(orig, hash, h, n, zHash[h])
      invariant forall i :: 0 <= i < n ==> Latest(orig, hash, HashAt(orig, hash, i), i, zNext[i])
    {
      var h := HashAt(orig, hash, n);
      HashBelow(orig, hash, n, zHash.Length);
      forall g | 0 <= g < zHash.Length ensures Latest(orig, hash, g, n + 1, if g == h then n else zHash[g]) {
        LatestMoves(orig, hash, g, n, zHash[g]);
      }
      zNext[n] := zHash[h];
      zHash[h] := n % 0x10000;
      n := n + 1;
    }
    ghost var m := n;
    while n < |orig|
      invariant m <= n <= |orig| && (m + 2 == |orig| || (m == 0 && |orig| < 2))
      invariant forall i :: 0 <= i < m ==> Latest(orig, hash, HashAt(orig, hash, i), i, zNext[i])
      invariant forall i :: m <= i < n ==> zNext[i] == 0
    {
      zNext[n] := 0;
      n := n + 1;
    }
  }

  lemma LatestStarts(orig: seq<Byte>, hash: Hash, h: nat)
    ensures Latest(orig, hash, h, 0, 0)
  {
  }

  lemma HashBelow(orig: seq<Byte>, hash: Hash, n: nat, size: nat)
    requires n + 2 < |orig| && forall a: Byte, b: Byte, c: Byte :: hash(a, b, c) < size
    ensures HashAt(orig, hash, n) < size
  {
  }

  // ----- following the links -----

  /** The positions reached from `n`, up to the 0 that ends every chain. */
  ghost function Chain(orig: seq<Byte>, hash: Hash, next: seq<nat>, n: nat): seq<nat>
    requires Linked(orig, hash, next, |orig|) && n < |orig|
    decreases n
  {
    if next[n] == 0 then [] else assert n + 2 < |orig|; [next[n]] + Chain(orig, hash, next, next[n])
  }

  lemma LinkMeans(orig: seq<Byte>, hash: Hash, next: seq<nat>, n: nat)
    requires Linked(orig, hash, next, |orig|) && n + 2 < |orig|
    ensures n < |next| && Latest(orig, hash, HashAt(orig, hash, n), n, next[n])
  {
  }

  /** A chain runs strictly downwards. */
  lemma {:induction false} ChainDescends(orig: seq<Byte>, hash: Hash, next: seq<nat>, n: nat, i: nat)
    requires Linked(orig, hash, next, |orig|) && n < |orig| && i < |Chain(orig, hash, next, n)|
    ensures 0 < Chain(orig, hash, next, n)[i] < if i == 0 then n else Chain(orig, hash, next, n)[i - 1]
    decreases n
  {
    if i > 0 {
      ChainDescends(orig, hash, next, next[n], i - 1);
    }
  }

  /** A chain visits exactly the earlier positions with the same hash, other than 0. */
  lemma {:induction false} ChainVisits(orig: seq<Byte>, hash: Hash, next: seq<nat>, n: nat, j: nat)
    requires Linked(orig, hash, next, |orig|) && n < |orig|
    ensures j in Chain(orig, hash, next, n) <==> 0 < j < n && Alike(orig, hash, j, n)
    decreases n
  {
    hide HashAt;
    if next[n] != 0 {
      LinkMeans(orig, hash, next, n);
      ChainVisits(orig, hash, next, next[n], j);
    }
  }
}
