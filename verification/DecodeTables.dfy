/** The decoder's table, built in place over the sorted symbols. */
module DecodeTables {
  // The root is indexed by the next `rootBits` bits; for longer codewords the levels of the code tree below it
  // follow.

  import opened Totals
  import opened PrefixCodes
  import opened HuffmanTrees
  import opened CanonicalCodes
  import opened HuffmanCodes
  import opened CodeLists

  /** The lengths in a packed table: the low half of a byte is that of an even symbol, the high half that of the
      next. */
  ghost function Unpacked(encoded: seq<nat>): (length: seq<nat>)
    ensures |length| == 2 * |encoded| && forall s :: 0 <= s < |length| ==> length[s] == Nibble(encoded, s)
  {
    seq(2 * |encoded|, s requires 0 <= s < 2 * |encoded| =>
      if s % 2 == 0 then encoded[s / 2] % 16 else encoded[s / 2] / 16)
  }

  lemma UnpackedHalves(encoded: seq<nat>, i: nat)
    requires i < |encoded|
    ensures Unpacked(encoded)[2 * i] == encoded[i] % 16 && Unpacked(encoded)[2 * i + 1] == encoded[i] / 16
  {
  }

  lemma NothingPacked(encoded: seq<nat>)
    ensures (forall i :: 0 <= i < |encoded| ==> encoded[i] == 0) <==>
              forall s :: 0 <= s < |Unpacked(encoded)| ==> Unpacked(encoded)[s] == 0
  {
    var length := Unpacked(encoded);
    if forall s :: 0 <= s < |length| ==> length[s] == 0 {
      forall i | 0 <= i < |encoded| ensures encoded[i] == 0 {
        UnpackedHalves(encoded, i);
        assert length[2 * i] == 0 && length[2 * i + 1] == 0;
      }
    }
    if forall i :: 0 <= i < |encoded| ==> encoded[i] == 0 {
      forall s | 0 <= s < |length| ensures length[s] == 0 {
        assert length[s] == Nibble(encoded, s) && encoded[s / 2] == 0;
      }
    }
  }

  lemma NibblesBelow16(encoded: seq<nat>)
    requires IsBytes(encoded)
    ensures forall s :: 0 <= s < |Unpacked(encoded)| ==> Unpacked(encoded)[s] <= 15
  {
  }

  /** A table entry for a symbol: its number and, in the low four bits, its length. */
  function Entry(sym: nat, len: nat): nat { 16 * sym + len }

  // ----- counting and checking -----

  method CountLengths(encoded: seq<nat>) returns (freq: seq<nat>)
    requires IsBytes(encoded)
    ensures |freq| == 16 && forall l :: 0 <= l < 16 ==> freq[l] == Count(Unpacked(encoded), l)
  {
    hide OfLength, Nibble;
    ghost var length := Unpacked(encoded);
    NibblesBelow16(encoded);
    freq := seq(16, _ => 0);
    var i := |encoded|;
    while i != 0
      invariant 0 <= i <= |encoded| && |freq| == 16
      invariant forall l :: 0 <= l < 16 ==> freq[l] + |OfLength(length, l, 2 * i)| == Count(length, l)
    {
      i := i - 1;
      var k := Nibble(encoded, 2 * i);
      var m := Nibble(encoded, 2 * i + 1);
      assert k == length[2 * i] && m == length[2 * i + 1];
      forall l | 0 <= l < 16
        ensures |OfLength(length, l, 2 * i + 2)| ==
                  |OfLength(length, l, 2 * i)| + (if k == l then 1 else 0) + (if m == l then 1 else 0)
      {
        OfLengthStep(length, l, 2 * i);
        OfLengthStep(length, l, 2 * i + 1);
      }
      freq := freq[k := freq[k] + 1];
      freq := freq[m := freq[m] + 1];
    }
    forall l | 0 <= l < 16 ensures OfLength(length, l, 0) == [] {
      OfLengthNone(length, l);
    }
  }

  /** Whether the codewords of 1 to 15 bits leave no node of the code tree open. */
  method CheckLengths(freq: seq<nat>, ghost length: seq<nat>) returns (ok: bool)
    requires |freq| == 16 && forall l :: 0 <= l < 16 ==> freq[l] == Count(length, l)
    ensures ok <==> Nodes(length, 16) == 0
  {
    hide Nodes, Count;
    var k, i := 0, 15;
    while i != 0
      invariant 0 <= i <= 15
      invariant Nodes(length, 16) == 0 <==> 2 * k == Nodes(length, i + 1)
    {
      k := k + freq[i];
      NodesStep(length, i);
      NodesEven(length, i);
      if k % 2 == 1 {
        return false;
      }
      k := k / 2;
      i := i - 1;
    }
    NodesAtOne(length);
    return k == 1;
  }

  lemma NodesEven(length: seq<nat>, n: nat)
    requires 0 < n
    ensures Nodes(length, n) % 2 == 0
  {
    PowNext(n - 1);
  }

  lemma NodesAtOne(length: seq<nat>)
    ensures Nodes(length, 1) == 2
  {
    PowOne();
  }

  // ----- sorting -----

  ghost function SymbolAt(length: seq<nat>, q: int): int {
    if 0 <= q < |CodeList(length, 15)| then CodeList(length, 15)[q] else 0
  }

  ghost function EntryAt(length: seq<nat>, q: int): int {
    16 * SymbolAt(length, q) + At(length, SymbolAt(length, q))
  }

  ghost predicate Sorted(t: seq<nat>, length: seq<nat>, last: nat) {
    last <= |t| && forall q :: 0 <= q < last ==> t[q] == EntryAt(length, q)
  }

  lemma {:induction false} UsedShort(length: seq<nat>)
    ensures |Used(length)| <= |length|
  {
    if length != [] {
      UsedShort(length[..|length| - 1]);
    }
  }

  lemma ListShort(length: seq<nat>)
    requires forall s :: 0 <= s < |length| ==> length[s] <= 15
    ensures |CodeList(length, 15)| <= |length|
  {
    hide CodeList, Used;
    CodeListAll(length, 15);
    UsedShort(length);
    assert |multiset(CodeList(length, 15))| == |multiset(Used(length))|;
  }

  /** Where each length's symbols end. */
  method Accumulate(freq: seq<nat>, ghost length: seq<nat>) returns (ends: seq<nat>)
    requires |freq| == 16 && forall l :: 0 <= l < 16 ==> freq[l] == Count(length, l)
    ensures |ends| == 16 && forall l :: 1 <= l < 16 ==> ends[l] == |CodeList(length, l)|
  {
    hide Count, CodeList;
    ends := freq;
    var k := 0;
    OfLengthNone(length, 0);
    for i := 1 to 16
      invariant |ends| == 16 && k == |CodeList(length, i - 1)|
      invariant forall l :: 1 <= l < i ==> ends[l] == |CodeList(length, l)|
      invariant forall l :: i <= l < 16 ==> ends[l] == freq[l]
    {
      CodeListStep(length, i);
      k := k + ends[i];
      ends := ends[i := k];
    }
  }

  /** The places of length `l` from `from` on hold their symbols. */
  ghost predicate Placed(t: seq<nat>, length: seq<nat>, ends: seq<nat>, s: nat) {
    && |ends| == 16 && s <= |length| && |CodeList(length, 15)| <= |t|
    && (forall l :: 1 <= l < 16 ==> ends[l] == |CodeList(length, l - 1)| + |OfLength(length, l, s)|)
    && (forall l, q :: 1 <= l < 16 && ends[l] <= q < |CodeList(length, l)| && q < |t| ==> t[q] == EntryAt(length, q))
  }

  lemma PlacedStarts(t: seq<nat>, length: seq<nat>, ends: seq<nat>)
    requires |ends| == 16 && |CodeList(length, 15)| <= |t|
             && forall l :: 1 <= l < 16 ==> ends[l] == |CodeList(length, l)|
    ensures Placed(t, length, ends, |length|)
  {
    hide CodeList, OfLength, EntryAt;
    forall l | 1 <= l < 16
      ensures |CodeList(length, l)| == |CodeList(length, l - 1)| + |OfLength(length, l, |length|)| {
      CodeListStep(length, l);
    }
  }

  lemma PlacedSkips(t: seq<nat>, length: seq<nat>, ends: seq<nat>, s: nat)
    requires s < |length| && Placed(t, length, ends, s + 1) && length[s] == 0
    ensures Placed(t, length, ends, s)
  {
    hide CodeList, OfLength, EntryAt;
    forall l | 1 <= l < 16 ensures OfLength(length, l, s + 1) == OfLength(length, l, s) {
      OfLengthStep(length, l, s);
    }
  }

  lemma PlacedNext(t: seq<nat>, length: seq<nat>, ends: seq<nat>, s: nat, k: nat)
    requires s < |length| && Placed(t, length, ends, s + 1) && length[s] == k && 1 <= k <= 15
    ensures 0 < ends[k] <= |t|
    ensures Placed(t[ends[k] - 1 := Entry(s, k)], length, ends[k := ends[k] - 1], s)
  {
    hide CodeList, OfLength;
    CodeListPlace(length, s, 15);
    forall l | 1 <= l < 16 ensures |OfLength(length, l, s + 1)| == |OfLength(length, l, s)| + if l == k then 1 else 0 {
      OfLengthStep(length, l, s);
    }
    assert SymbolAt(length, ends[k] - 1) == s;
  }

  lemma PlacedAll(t: seq<nat>, length: seq<nat>, ends: seq<nat>)
    requires Placed(t, length, ends, 0)
    ensures Sorted(t, length, |CodeList(length, 15)|)
  {
    hide CodeList, OfLength, EntryAt;
    forall q | 0 <= q < |CodeList(length, 15)| ensures t[q] == EntryAt(length, q) {
      var l := LevelOf(length, q, 15);
      OfLengthNone(length, l);
      assert ends[l] == |CodeList(length, l - 1)|;
      CodeListPrefix(length, l, 15);
    }
  }

  lemma {:induction false} LevelOf(length: seq<nat>, q: nat, top: nat) returns (l: nat)
    requires q < |CodeList(length, top)|
    ensures 1 <= l <= top && |CodeList(length, l - 1)| <= q < |CodeList(length, l)|
  {
    if q < |CodeList(length, top - 1)| {
      l := LevelOf(length, q, top - 1);
    } else {
      l := top;
    }
  }

  method SortSymbols(table: array<nat>, encoded: seq<nat>, freq: seq<nat>) returns (last: nat)
    requires IsBytes(encoded) && 2 * |encoded| <= table.Length
    requires |freq| == 16 && forall l :: 0 <= l < 16 ==> freq[l] == Count(Unpacked(encoded), l)
    modifies table
    ensures last == |CodeList(Unpacked(encoded), 15)| <= table.Length && Sorted(table[..], Unpacked(encoded), last)
  {
    hide Placed, Count, CodeList, Nibble, Sorted;
    ghost var length := Unpacked(encoded);
    NibblesBelow16(encoded);
    ListShort(length);
    var ends := Accumulate(freq, length);
    last := ends[15];
    PlacedStarts(table[..], length, ends);
    var i := 2 * |encoded|;
    while i != 0
      invariant 0 <= i <= 2 * |encoded| && |ends| == 16 && last <= table.Length
      invariant Placed(table[..], length, ends, i)
    {
      i := i - 1;
      var k := Nibble(encoded, i);
      assert k == length[i];
      if k != 0 {
        PlacedNext(table[..], length, ends, i, k);
        ghost var before := table[..];
        ends := ends[k := ends[k] - 1];
        table[ends[k]] := Entry(i, k);
        assert table[..] == before[ends[k] := Entry(i, k)];
      } else {
        PlacedSkips(table[..], length, ends, i);
      }
    }
    PlacedAll(table[..], length, ends);
  }

  // ----- the levels below the root -----

  /** Where level `n` begins: twice the symbols of `n` or more bits from the end, less what level n-1 links to. */
  ghost function Base(size: nat, length: seq<nat>, n: nat): int
    requires 0 < n
  {
    size - 2 * (|CodeList(length, 15)| - |CodeList(length, n - 1)|) + Nodes(length, n)
  }

  lemma BaseStep(size: nat, length: seq<nat>, n: nat)
    requires 0 < n
    ensures Base(size, length, n) + Nodes(length, n) == Base(size, length, n + 1)
    ensures Nodes(length, n) == Count(length, n) + Nodes(length, n + 1) / 2 && Nodes(length, n + 1) % 2 == 0
  {
    hide Nodes, Count, CodeList;
    NodesStep(length, n);
    CodeListStep(length, n);
  }

  /** What stands at place `q` of level `n`: the symbols of `n` bits, then links to pairs of the next level. */
  ghost function NodeAt(size: nat, length: seq<nat>, n: nat, q: int): int
    requires 0 < n
  {
    var m := q - Base(size, length, n);
    if m < Count(length, n) then EntryAt(length, |CodeList(length, n - 1)| + m)
    else 0x8000 + Base(size, length, n + 1) + 2 * (m - Count(length, n))
  }

  ghost predicate Levels(t: seq<nat>, length: seq<nat>, from: nat) {
    forall n, q :: 0 < from <= n <= 15 && Base(|t|, length, n) <= q < Base(|t|, length, n + 1) && 0 <= q < |t| ==>
      t[q] == NodeAt(|t|, length, n, q)
  }

  /** Links, before place `i`, to the pairs of nodes that stand between `j` and `k`. */
  method LinkPairs(table: array<nat>, i: nat, k: nat, j: nat) returns (i': nat)
    requires j <= k <= table.Length <= 0x8000 && (k - j) % 2 == 0 && (k - j) / 2 <= i <= table.Length
    modifies table
    ensures i' == i - (k - j) / 2
    ensures forall q :: i' <= q < i ==> table[q] == 0x8000 + j + 2 * (q - i')
    ensures forall q :: 0 <= q < table.Length && !(i' <= q < i) ==> table[q] == old(table[q])
  {
    i' := i;
    var k' := k;
    while k' > j
      invariant j <= k' <= k && (k' - j) % 2 == 0 && i' - (k' - j) / 2 == i - (k - j) / 2 && i' <= i
      invariant forall q :: i' <= q < i ==> table[q] == 0x8000 + j + 2 * (q - (i - (k - j) / 2))
      invariant forall q :: 0 <= q < table.Length && !(i' <= q < i) ==> table[q] == old(table[q])
    {
      i' := i' - 1;
      k' := k' - 2;
      table[i'] := k' + 0x8000;
    }
  }

  /** Moves the `count` entries before `last` to just before `i`; none is overwritten before it is read. */
  method MoveLeaves(table: array<nat>, i: nat, last: nat, count: nat) returns (i': nat, last': nat)
    requires count <= last && last + count <= i <= table.Length
    modifies table
    ensures i' == i - count && last' == last - count
    ensures forall q :: i' <= q < i ==> table[q] == old(table[q - i' + last'])
    ensures forall q :: 0 <= q < table.Length && !(i' <= q < i) ==> table[q] == old(table[q])
  {
    i', last' := i, last;
    var k := count;
    while k > 0
      invariant 0 <= k <= count && i' == i - count + k && last' == last - count + k
      invariant forall q :: i' <= q < i ==> table[q] == old(table[q - i' + last'])
      invariant forall q :: 0 <= q < table.Length && !(i' <= q < i) ==> table[q] == old(table[q])
    {
      k := k - 1;
      i', last' := i' - 1, last' - 1;
      table[i'] := table[last'];
    }
  }

  /** The levels after `n` stand, and the symbols of at most `n` bits are still to be read. */
  ghost predicate Unfolded(t: seq<nat>, length: seq<nat>, n: nat, i: int, k: int, last: nat) {
    && i == Base(|t|, length, n + 1) && k == i + Nodes(length, n + 1) && last == |CodeList(length, n)|
    && Sorted(t, length, last) && Levels(t, length, n + 1)
  }

  /** Places and counts at level `n` of a complete code, in a table with `root` places for the root. */
  lemma LevelBounds(root: nat, size: nat, length: seq<nat>, n: nat)
    requires 0 < n <= 16 && Nodes(length, 16) == 0 && size == root + 2 * |length|
    requires forall s :: 0 <= s < |length| ==> length[s] <= 15
    ensures 0 <= Nodes(length, n) && Nodes(length, n) % 2 == 0
    ensures root + 2 * |CodeList(length, n - 1)| + Nodes(length, n) <= Base(size, length, n)
    ensures Base(size, length, n) + Nodes(length, n) <= size
    decreases 16 - n
  {
    hide Nodes, CodeList, Count;
    ListShort(length);
    NodesEven(length, n);
    if n < 16 {
      NodesSuffice(length, n, 15);
      CountNotNegative(length, n);
      LevelBounds(root, size, length, n + 1);
      BaseStep(size, length, n);
      CodeListStep(length, n);
    }
  }

  /** One level more: its links, then its symbols. */
  method ExpandLevel(table: array<nat>, ghost length: seq<nat>, n: nat, i: nat, k: nat, last: nat, count: nat,
                     ghost root: nat)
    returns (i': nat, last': nat)
    requires 0 < n <= 15 && Nodes(length, 16) == 0 && table.Length == root + 2 * |length| <= 0x8000
    requires forall s :: 0 <= s < |length| ==> length[s] <= 15
    requires Unfolded(table[..], length, n, i, k, last) && count == Count(length, n)
    modifies table
    ensures Unfolded(table[..], length, n - 1, i', i, last')
  {
    hide Nodes, CodeList, Count, Unfolded, Base, Levels, NodeAt, EntryAt;
    ghost var start := table[..];
    UnfoldedFacts(start, length, n, i, k, last);
    LevelBounds(root, table.Length, length, n + 1);
    LevelBounds(root, table.Length, length, n);
    BaseStep(table.Length, length, n);
    CodeListStep(length, n);
    i' := LinkPairs(table, i, k, i);
    ghost var linked := table[..];
    i', last' := MoveLeaves(table, i', last, count);
    NewLevel(start, linked, table[..], length, n, i, last, i', last');
    LevelsGrow(start, table[..], length, n);
    UnfoldedNow(table[..], length, n, i', i, last');
  }

  lemma UnfoldedFacts(t: seq<nat>, length: seq<nat>, n: nat, i: int, k: int, last: nat)
    requires Unfolded(t, length, n, i, k, last)
    ensures i == Base(|t|, length, n + 1) && k == i + Nodes(length, n + 1) && last == |CodeList(length, n)| <= |t|
    ensures Sorted(t, length, last) && Levels(t, length, n + 1)
  {
  }

  lemma UnfoldedNow(t: seq<nat>, length: seq<nat>, n: nat, i: int, k: int, last: nat)
    requires 0 < n && i == Base(|t|, length, n) && k == i + Nodes(length, n) && last == |CodeList(length, n - 1)|
    requires Sorted(t, length, last) && Levels(t, length, n)
    ensures Unfolded(t, length, n - 1, i, k, last)
  {
  }

  /** The new level: the links that were written and the symbols that were moved before them. */
  lemma NewLevel(start: seq<nat>, linked: seq<nat>, done: seq<nat>, length: seq<nat>, n: nat, i: int, last: nat,
                 i': int, last': nat)
    requires 0 < n <= 15 && |start| == |linked| == |done| && Sorted(start, length, last)
             && i == Base(|start|, length, n + 1)
    requires last' == |CodeList(length, n - 1)| && last == last' + Count(length, n) <= i'
             && i' == Base(|start|, length, n)
    requires i' + Count(length, n) <= i <= |start|
    requires forall q :: i' + Count(length, n) <= q < i ==> linked[q] == 0x8000 + i + 2 * (q - (i' + Count(length, n)))
    requires forall q :: 0 <= q < last ==> linked[q] == start[q]
    requires forall q :: i' <= q < i' + Count(length, n) ==> done[q] == linked[q - i' + last']
    requires forall q :: i' + Count(length, n) <= q < i ==> done[q] == linked[q]
    ensures forall q :: i' <= q < i ==> done[q] == NodeAt(|start|, length, n, q)
  {
    hide Nodes, CodeList, Count, EntryAt, Base;
    forall q | i' <= q < i ensures done[q] == NodeAt(|start|, length, n, q) {
      if q < i' + Count(length, n) {
        assert done[q] == start[q - i' + last'];
      }
    }
  }

  lemma LevelsGrow(start: seq<nat>, done: seq<nat>, length: seq<nat>, n: nat)
    requires 0 < n <= 15 && |start| == |done| && Nodes(length, 16) == 0 && Levels(start, length, n + 1)
    requires forall q :: 0 <= q < |start| && Base(|start|, length, n + 1) <= q ==> done[q] == start[q]
    requires forall q :: Base(|start|, length, n) <= q < Base(|start|, length, n + 1) && 0 <= q < |start| ==>
               done[q] == NodeAt(|start|, length, n, q)
    ensures Levels(done, length, n)
  {
    hide Nodes, CodeList, Count, EntryAt, Base, NodeAt;
    forall l, q | n <= l <= 15 && Base(|done|, length, l) <= q < Base(|done|, length, l + 1) && 0 <= q < |done|
      ensures done[q] == NodeAt(|done|, length, l, q)
    {
      if l > n {
        BasesRise(|start|, length, n + 1, l);
        assert done[q] == start[q];
      }
    }
  }

  lemma {:induction false} BasesRise(size: nat, length: seq<nat>, n: nat, l: nat)
    requires 0 < n <= l <= 16 && Nodes(length, 16) == 0
    ensures Base(size, length, n) <= Base(size, length, l)
    decreases l - n
  {
    hide Nodes, CodeList, Count, Base;
    if n < l {
      NodesSuffice(length, n, 15);
      CountNotNegative(length, n);
      BaseStep(size, length, n);
      BasesRise(size, length, n + 1, l);
    }
  }

  // ----- the root -----

  /** Entry `e` at place `q` of the root is that of the symbol whose codeword begins the bits of `q`. */
  ghost predicate Short(length: seq<nat>, rootBits: nat, q: int, e: nat) {
    var s, l := e / 16, e % 16;
    && s < |length| && length[s] == l && 1 <= l <= rootBits
    && Canon(length, s) * Pow2(rootBits - l) <= q < (Canon(length, s) + 1) * Pow2(rootBits - l)
  }

  ghost predicate RootAt(size: nat, length: seq<nat>, rootBits: nat, q: int, e: nat)
  {
    var m := q - FirstCode(length, rootBits) - Count(length, rootBits);
    if m < 0 then Short(length, rootBits, q, e)
    else e == 0x8000 + Base(size, length, rootBits + 1) + 2 * m
  }

  ghost predicate Root(t: seq<nat>, length: seq<nat>, rootBits: nat, from: int) {
    && Pow2(rootBits) <= |t|
    && forall q :: 0 <= from <= q < Pow2(rootBits) ==> RootAt(|t|, length, rootBits, q, t[q])
  }

  /** The finished table. */
  ghost predicate IsDecodeTable(t: seq<nat>, length: seq<nat>, rootBits: nat) {
    && |t| == Pow2(rootBits) + 2 * |length|
    && Levels(t, length, rootBits + 1) && Root(t, length, rootBits, 0)
  }

  method FillPlaces(table: array<nat>, i: nat, j: nat, value: nat)
    requires j <= i <= table.Length
    modifies table
    ensures forall q :: j <= q < i ==> table[q] == value
    ensures forall q :: 0 <= q < table.Length && !(j <= q < i) ==> table[q] == old(table[q])
  {
    var i' := i;
    while i' != j
      invariant j <= i' <= i
      invariant forall q :: i' <= q < i ==> table[q] == value
      invariant forall q :: 0 <= q < table.Length && !(i' <= q < i) ==> table[q] == old(table[q])
    {
      i' := i' - 1;
      table[i'] := value;
    }
  }

  /** The root places taken by the first `last` symbols. */
  ghost function RootTaken(length: seq<nat>, rootBits: nat, last: nat): int
    requires last <= |CodeList(length, 15)|
  {
    Total(CodeList(length, 15)[..last], SpaceAt(length, rootBits))
  }

  lemma RootTakenAll(length: seq<nat>, rootBits: nat)
    requires 0 < rootBits <= 15
    ensures |CodeList(length, rootBits)| <= |CodeList(length, 15)|
    ensures RootTaken(length, rootBits, |CodeList(length, rootBits)|) ==
              FirstCode(length, rootBits) + Count(length, rootBits)
  {
    hide Total, CodeList, OfLength, Pow2, FirstCode, SpaceAt;
    CodeListPrefix(length, rootBits, 15);
    CodeListStep(length, rootBits);
    var o := OfLength(length, rootBits, |length|);
    TotalAppend(CodeList(length, rootBits - 1), o, SpaceAt(length, rootBits));
    ListTotal(length, rootBits);
    OfLengthTotal(length, rootBits, |o|);
    assert o[..|o|] == o;
  }

  lemma RootTakenAtLeast(length: seq<nat>, rootBits: nat, last: nat)
    requires 0 < rootBits <= 15 && last <= |CodeList(length, rootBits)|
    ensures last <= |CodeList(length, 15)| && last <= RootTaken(length, rootBits, last)
  {
    hide Total, CodeList, Pow2;
    CodeListPrefix(length, rootBits, 15);
    CodeListOrder(length, rootBits);
    var list := CodeList(length, 15)[..last];
    forall i | 0 <= i < |list| ensures 1 <= SpaceAt(length, rootBits)(list[i]) {
      assert list[i] == CodeList(length, 15)[..|CodeList(length, rootBits)|][i];
    }
    TotalAtLeast(list, SpaceAt(length, rootBits));
  }

  /** The places of the symbol before `last`: as many as its codeword has continuations, and just the ones it begins. */
  lemma RootSymbol(length: seq<nat>, rootBits: nat, last: nat)
    requires 0 < rootBits <= 15 && 0 < last <= |CodeList(length, rootBits)|
             && forall s :: 0 <= s < |length| ==> length[s] <= 15
    ensures last <= |CodeList(length, 15)|
    ensures var s := SymbolAt(length, last - 1);
      && 0 <= s < |length| && 1 <= length[s] <= rootBits
      && RootTaken(length, rootBits, last - 1) == Canon(length, s) * Pow2(rootBits - length[s])
      && RootTaken(length, rootBits, last) == RootTaken(length, rootBits, last - 1) + Pow2(rootBits - length[s])
      && EntryAt(length, last - 1) / 16 == s && EntryAt(length, last - 1) % 16 == length[s]
  {
    hide Total, CodeList, Used, Pow2, Canon;
    CodeListPrefix(length, rootBits, 15);
    CodeListOrder(length, rootBits);
    CodeListOrder(length, 15);
    CodeListAll(length, 15);
    var list := CodeList(length, 15);
    var k := last - 1;
    assert list[k] == CodeList(length, 15)[..|CodeList(length, rootBits)|][k];
    CanonInList(list, length, k);
    forall i | 0 <= i < k ensures At(length, list[..k][i]) <= length[list[k]] {
      assert Earlier(length, list[i], list[k]);
    }
    SpaceScales(list[..k], length, length[list[k]], rootBits);
    assert list[..last] == list[..k] + [list[k]];
    TotalOneMore(list[..k], list[k], SpaceAt(length, rootBits));
  }

  /** The links and the symbols from `last` on stand in the root; the symbols before are still to be read. */
  ghost predicate RootFrom(t: seq<nat>, length: seq<nat>, rootBits: nat, i: int, last: nat) {
    && |t| == Pow2(rootBits) + 2 * |length| && 0 < rootBits <= 15
    && last <= |CodeList(length, rootBits)| <= |CodeList(length, 15)| && i == RootTaken(length, rootBits, last)
    && last <= i <= Pow2(rootBits)
    && Sorted(t, length, last) && Levels(t, length, rootBits + 1) && Root(t, length, rootBits, i)
  }

  lemma SymbolFills(t: seq<nat>, t': seq<nat>, length: seq<nat>, rootBits: nat, i: int, j: int, last: nat, e: nat)
    requires RootFrom(t, length, rootBits, i, last) && 0 < last && |t'| == |t| && e == t[last - 1]
    requires e % 16 <= rootBits && j == i - Pow2(rootBits - e % 16) && Nodes(length, 16) == 0
    requires forall s :: 0 <= s < |length| ==> length[s] <= 15
    requires forall q :: 0 <= q < |t| && j <= q < i ==> t'[q] == e
    requires forall q :: 0 <= q < |t| && !(j <= q < i) ==> t'[q] == t[q]
    ensures RootFrom(t', length, rootBits, j, last - 1)
  {
    hide Pow2, CodeList, Count, Canon, FirstCode, RootTaken, Nodes, Base, NodeAt, Total;
    RootSymbol(length, rootBits, last);
    RootTakenAtLeast(length, rootBits, last - 1);
    var c, p := Canon(length, SymbolAt(length, last - 1)), Pow2(rootBits - e % 16);
    OneMore(c, p);
    RootBelowLinks(length, rootBits, last);
    LevelsUntouched(t, t', length, rootBits);
  }

  /** The places of the symbols come before those of the links. */
  lemma RootBelowLinks(length: seq<nat>, rootBits: nat, last: nat)
    requires 0 < rootBits <= 15 && last <= |CodeList(length, rootBits)|
    ensures last <= |CodeList(length, 15)|
            && RootTaken(length, rootBits, last) <= FirstCode(length, rootBits) + Count(length, rootBits)
    decreases |CodeList(length, rootBits)| - last
  {
    hide Pow2, CodeList, Count, Canon, FirstCode, Total;
    RootTakenAll(length, rootBits);
    if last < |CodeList(length, rootBits)| {
      RootBelowLinks(length, rootBits, last + 1);
      var list := CodeList(length, 15);
      assert list[..last + 1] == list[..last] + [list[last]];
      TotalOneMore(list[..last], list[last], SpaceAt(length, rootBits));
    }
  }

  lemma LevelsUntouched(t: seq<nat>, t': seq<nat>, length: seq<nat>, rootBits: nat)
    requires |t'| == |t| == Pow2(rootBits) + 2 * |length| && 0 < rootBits <= 15 && Nodes(length, 16) == 0
    requires forall s :: 0 <= s < |length| ==> length[s] <= 15
    requires Levels(t, length, rootBits + 1) && forall q :: Pow2(rootBits) <= q < |t| ==> t'[q] == t[q]
    ensures Levels(t', length, rootBits + 1)
  {
    hide Pow2, CodeList, Count, FirstCode, Nodes, Base, NodeAt;
    forall n, q | rootBits + 1 <= n <= 15 && Base(|t'|, length, n) <= q < Base(|t'|, length, n + 1) && 0 <= q < |t'|
      ensures t'[q] == NodeAt(|t'|, length, n, q)
    {
      LevelBounds(Pow2(rootBits), |t|, length, n);
    }
  }

  /** The links stand in the root. */
  lemma RootLinked(t: seq<nat>, t': seq<nat>, length: seq<nat>, rootBits: nat, j: int, k: int, last: nat, i: int)
    requires 0 < rootBits <= 15 && |t'| == |t| == Pow2(rootBits) + 2 * |length| && Nodes(length, 16) == 0
    requires forall s :: 0 <= s < |length| ==> length[s] <= 15
    requires Unfolded(t, length, rootBits, j, k, last) && i == Pow2(rootBits) - (k - j) / 2
    requires forall q :: 0 <= i <= q < Pow2(rootBits) ==> t'[q] == 0x8000 + j + 2 * (q - i)
    requires forall q :: 0 <= q < |t| && !(i <= q < Pow2(rootBits)) ==> t'[q] == t[q]
    ensures RootFrom(t', length, rootBits, i, last)
  {
    hide Pow2, CodeList, Count, FirstCode, RootTaken, Base, NodeAt;
    RootTakenAll(length, rootBits);
    RootTakenAtLeast(length, rootBits, last);
    NodesStep(length, rootBits);
    NodesSuffice(length, rootBits, 15);
    LevelsUntouched(t, t', length, rootBits);
  }

  method FillRoot(table: array<nat>, ghost length: seq<nat>, rootBits: nat, i: nat, k: nat, last: nat)
    requires 0 < rootBits <= 15 && Nodes(length, 16) == 0 && table.Length == Pow2(rootBits) + 2 * |length| <= 0x8000
    requires forall s :: 0 <= s < |length| ==> length[s] <= 15
    requires Unfolded(table[..], length, rootBits, i, k, last)
    modifies table
    ensures IsDecodeTable(table[..], length, rootBits)
  {
    hide Pow2, Nodes, CodeList, Count, Unfolded, Base, RootFrom, IsDecodeTable, Short;
    ghost var start := table[..];
    UnfoldedFacts(start, length, rootBits, i, k, last);
    LevelBounds(Pow2(rootBits), table.Length, length, rootBits + 1);
    NodesSuffice(length, rootBits, 15);
    NodesStep(length, rootBits);
    NodesWithin(length, rootBits);
    var i', last' := Pow2(rootBits), last;
    i' := LinkPairs(table, i', k, i);
    RootLinked(start, table[..], length, rootBits, i, k, last, i');
    while last' > 0
      invariant 0 <= last' && 0 <= i'
      invariant RootFrom(table[..], length, rootBits, i', last')
    {
      ghost var before := table[..];
      NextSymbol(before, length, rootBits, i', last');
      last' := last' - 1;
      var e := table[last'];
      var j := i' - Pow2(rootBits - e % 16);
      FillPlaces(table, i', j, e);
      SymbolFills(before, table[..], length, rootBits, i', j, last' + 1, e);
      i' := j;
    }
    RootDone(table[..], length, rootBits, i');
  }

  lemma NodesWithin(length: seq<nat>, n: nat)
    ensures Nodes(length, n) <= Pow2(n)
  {
  }

  lemma NextSymbol(t: seq<nat>, length: seq<nat>, rootBits: nat, i: int, last: nat)
    requires RootFrom(t, length, rootBits, i, last) && 0 < last && forall s :: 0 <= s < |length| ==> length[s] <= 15
    ensures last <= |t| && i <= |t| && t[last - 1] % 16 <= rootBits && last - 1 <= i - Pow2(rootBits - t[last - 1] % 16)
  {
    hide Pow2, CodeList, Count, Canon, FirstCode, RootTaken, Nodes, Base, NodeAt, EntryAt;
    RootSymbol(length, rootBits, last);
    RootTakenAtLeast(length, rootBits, last - 1);
  }

  /** When all symbols are read, the root is full: both indices have come down to 0 together. */
  lemma RootDone(t: seq<nat>, length: seq<nat>, rootBits: nat, i: int)
    requires RootFrom(t, length, rootBits, i, 0)
    ensures i == 0 && IsDecodeTable(t, length, rootBits)
  {
    hide Pow2, CodeList, Count, FirstCode, Nodes, Base, NodeAt;
    assert CodeList(length, 15)[..0] == [];
  }

  // ----- the whole -----

  /** Fails exactly if some symbol is used but the lengths do not fill the code space; then the table is left alone. */
  method HuffmanDecodeCreate(table: array<nat>, encoded: seq<nat>, rootBits: nat) returns (ok: bool)
    requires IsBytes(encoded) && 0 < rootBits <= 15 && table.Length == Pow2(rootBits) + 4 * |encoded| <= 0x8000
             && 2 * |encoded| <= 0x800
    modifies table
    ensures ok <==> (forall i :: 0 <= i < |encoded| ==> encoded[i] == 0) || Fills(Unpacked(encoded), 15)
    ensures ok && Fills(Unpacked(encoded), 15) ==> IsDecodeTable(table[..], Unpacked(encoded), rootBits)
    ensures !Fills(Unpacked(encoded), 15) ==> table[..] == old(table[..])
  {
    hide Pow2, Nodes, CodeList, Count, Unfolded, Base, IsDecodeTable, Fills, Nibble;
    ghost var length := Unpacked(encoded);
    NibblesBelow16(encoded);
    FillsIffClosed(length, 15);
    var freq := CountLengths(encoded);
    ZeroLengths(length);
    NothingPacked(encoded);
    if freq[0] == 2 * |encoded| {
      NothingFillsNothing(length);
      return true;
    }
    if freq[0] == 2 * |encoded| - 1 {
      OneSymbolFails(length);
      return false;
    }
    var complete := CheckLengths(freq, length);
    if !complete {
      return false;
    }
    var last := SortSymbols(table, encoded, freq);
    var i: nat, k: nat := table.Length, table.Length;
    ExpansionStarts(table[..], length, last);
    var n := 15;
    while n > rootBits
      invariant rootBits <= n <= 15
      invariant Unfolded(table[..], length, n, i, k, last)
    {
      var j := i;
      i, last := ExpandLevel(table, length, n, i, k, last, freq[n], Pow2(rootBits));
      k := j;
      n := n - 1;
    }
    FillRoot(table, length, rootBits, i, k, last);
    return true;
  }

  lemma ExpansionStarts(t: seq<nat>, length: seq<nat>, last: nat)
    requires Sorted(t, length, last) && last == |CodeList(length, 15)| && Nodes(length, 16) == 0
    ensures Unfolded(t, length, 15, |t|, |t|, last)
  {
  }

  /** Symbols without a codeword are those of length 0. */
  lemma ZeroLengths(length: seq<nat>)
    ensures Count(length, 0) + |Used(length)| == |length|
    ensures Used(length) == [] <==> forall s :: 0 <= s < |length| ==> length[s] == 0
  {
    hide Used, OfLength;
    assert length[..|length|] == length;
    ZeroLengthsUpTo(length, |length|);
    UsedFacts(length);
    if Used(length) != [] {
      assert length[Used(length)[0]] != 0;
    }
  }

  lemma {:induction false} ZeroLengthsUpTo(length: seq<nat>, n: nat)
    requires n <= |length|
    ensures |OfLength(length, 0, n)| + |Used(length[..n])| == n
  {
    hide Used, OfLength;
    if n == 0 {
      OfLengthNone(length, 0);
      UsedNone();
      assert length[..0] == [];
    } else {
      ZeroLengthsUpTo(length, n - 1);
      OfLengthStep(length, 0, n - 1);
      UsedStep(length, n - 1);
    }
  }

  lemma NothingFillsNothing(length: seq<nat>)
    requires Used(length) == []
    ensures !Fills(length, 15)
  {
    hide Used, Pow2;
    assert length[..|length|] == length;
    UsedTotal(length, |length|, Space(length, 15));
  }

  lemma OneSymbolFails(length: seq<nat>)
    requires |Used(length)| == 1
    ensures !Fills(length, 15)
  {
    hide Used, Pow2;
    assert length[..|length|] == length;
    SpaceOfUnused(length, 15);
    UsedTotal(length, |length|, Space(length, 15));
    UsedFacts(length);
    var s := Used(length)[0];
    assert Used(length) == [] + [s];
    TotalOneMore([], s, Space(length, 15));
    if length[s] <= 15 {
      PowLess(15 - length[s], 15);
    }
  }

  lemma {:induction false} PowLess(m: nat, n: nat)
    requires m < n
    ensures Pow2(m) < Pow2(n)
  {
    Pow2Monotone(m, n - 1);
    PowNext(n - 1);
  }
}
