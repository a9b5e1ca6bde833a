/** The encoder's canonical Huffman code: lengths, code masks, the packed table of lengths and the size in bits. */
module HuffmanCodes {
  import opened Totals
  import opened PrefixCodes
  import opened HuffmanTrees
  import opened HuffmanBuild
  import opened HuffmanLengths
  import opened RadixSort
  import opened CanonicalCodes

  /** The number of bits that symbols with these frequencies take under these codeword lengths. */
  ghost function Cost(freq: seq<nat>, length: seq<nat>): int {
    Total(Numbers(0, |freq|), Measuring(freq, length))
  }

  ghost function Lengths(code: seq<seq<bool>>): (l: seq<nat>)
    ensures |l| == |code| && forall s :: 0 <= s < |code| ==> l[s] == |code[s]|
  {
    seq(|code|, s requires 0 <= s < |code| => |code[s]|)
  }

  /** No codeword of a symbol that occurs begins with that of another one. */
  ghost predicate PrefixFreeOn(freq: seq<nat>, code: seq<seq<bool>>) {
    && |code| == |freq|
    && forall s, t :: 0 <= s < |freq| && 0 <= t < |freq| && s != t && 0 < freq[s] && 0 < freq[t] ==>
      !(code[s] <= code[t])
  }

  /** No prefix code for the symbols that occur takes fewer bits. */
  ghost predicate Optimal(freq: seq<nat>, length: seq<nat>) {
    forall code :: PrefixFreeOn(freq, code) ==> Cost(freq, length) <= Cost(freq, Lengths(code))
  }

  // ----- from leaves to symbols -----

  lemma {:induction false} Renumbered(names: seq<int>, n: nat, f: int -> int, g: int -> int)
    requires n <= |names| && forall k :: 0 <= k < n ==> f(k) == g(names[k])
    ensures Total(Numbers(0, n), f) == Total(names[..n], g)
  {
    if n != 0 {
      Renumbered(names, n - 1, f, g);
      assert Numbers(0, n)[..n - 1] == Numbers(0, n - 1);
      assert names[..n][..n - 1] == names[..n - 1];
    }
  }

  lemma {:induction false} UsedSame(a: seq<nat>, b: seq<nat>, n: nat)
    requires |a| == |b| && n <= |a| && forall s :: 0 <= s < |a| ==> (a[s] == 0 <==> b[s] == 0)
    ensures Used(a[..n]) == Used(b[..n])
  {
    hide Used;
    if n == 0 {
      assert a[..0] == b[..0] == [];
    } else {
      UsedSame(a, b, n - 1);
      UsedStep(a, n - 1);
      UsedStep(b, n - 1);
    }
  }

  /** A total over the leaves in sorted order is a total over all symbols. */
  lemma LeavesToSymbols(sorted: seq<int>, freq: seq<nat>, f: int -> int, g: int -> int)
    requires multiset(sorted) == multiset(Numbers(0, |Used(freq)|))
    requires forall k :: 0 <= k < |Used(freq)| ==> f(k) == g(Used(freq)[k])
    requires forall s :: 0 <= s < |freq| && freq[s] == 0 ==> g(s) == 0
    ensures Total(sorted, f) == Total(Numbers(0, |freq|), g)
  {
    hide Total, Used;
    var names := Used(freq);
    TotalPermutes(sorted, Numbers(0, |names|), f);
    Renumbered(names, |names|, f, g);
    assert names[..|names|] == names && freq[..|freq|] == freq;
    UsedTotal(freq, |freq|, g);
  }

  /** `length` gives symbol names[k] the length bits[k], and no other symbol a length. */
  ghost predicate Spread(freq: seq<nat>, bits: seq<nat>, length: seq<nat>) {
    && |length| == |freq| && |bits| == |Used(freq)|
    && (forall k :: 0 <= k < |bits| ==> 0 <= Used(freq)[k] < |freq| && length[Used(freq)[k]] == bits[k])
    && (forall s :: 0 <= s < |freq| ==> (freq[s] == 0 <==> length[s] == 0))
  }

  lemma SymbolsFill(freq: seq<nat>, sorted: seq<int>, bits: seq<nat>, length: seq<nat>, top: nat)
    requires Spread(freq, bits, length) && multiset(sorted) == multiset(Numbers(0, |bits|))
    requires Kraft(Coded(sorted, Listed(Used(freq), freq), bits), top) == Pow2(top)
    requires forall k :: 0 <= k < |bits| ==> 1 <= bits[k] <= top
    ensures Fills(length, top)
  {
    hide Total, Used, Pow2, Kraft;
    CodedSums(sorted, Listed(Used(freq), freq), bits, top);
    LeavesToSymbols(sorted, freq, Sharing(bits, top), Space(length, top));
    forall s | 0 <= s < |length| ensures length[s] <= top {
      if length[s] != 0 {
        var k := PlaceOf(freq, s);
      }
    }
  }

  lemma PlaceOf(freq: seq<nat>, s: int) returns (k: nat)
    requires 0 <= s < |freq| && freq[s] != 0
    ensures k < |Used(freq)| && Used(freq)[k] == s
  {
    UsedFacts(freq);
    assert s in Used(freq);
    k :| 0 <= k < |Used(freq)| && Used(freq)[k] == s;
  }

  lemma SymbolsCost(freq: seq<nat>, sorted: seq<int>, bits: seq<nat>, length: seq<nat>)
    requires Spread(freq, bits, length) && multiset(sorted) == multiset(Numbers(0, |bits|))
    ensures PathLength(Coded(sorted, Listed(Used(freq), freq), bits)) == Cost(freq, length)
  {
    hide Total, Used, Pow2, PathLength;
    CodedSums(sorted, Listed(Used(freq), freq), bits, 0);
    LeavesToSymbols(sorted, freq, Measuring(Listed(Used(freq), freq), bits), Measuring(freq, length));
  }

  ghost function Chosen(names: seq<int>, code: seq<seq<bool>>): (c: seq<seq<bool>>)
    requires forall k :: 0 <= k < |names| ==> 0 <= names[k] < |code|
    ensures |c| == |names| && forall k :: 0 <= k < |names| ==> c[k] == code[names[k]]
  {
    seq(|names|, k requires 0 <= k < |names| => code[names[k]])
  }

  lemma {:induction false} ChosenCost(names: seq<int>, freq: seq<nat>, code: seq<seq<bool>>)
    requires |code| == |freq| && forall k :: 0 <= k < |names| ==> 0 <= names[k] < |code|
    ensures CodeCost(Listed(names, freq), Chosen(names, code)) == Total(names, Measuring(freq, Lengths(code)))
  {
    if names != [] {
      var last := |names| - 1;
      ChosenCost(names[..last], freq, code);
      assert Listed(names, freq)[..last] == Listed(names[..last], freq);
      assert Chosen(names, code)[..last] == Chosen(names[..last], code);
    }
  }

  /** The frequencies that occur, as weights of single symbols. */
  ghost function Occurring(freq: seq<nat>): multiset<Weight> { multiset(Singles(Listed(Used(freq), freq))) }

  /** The height of the tree that Huffman's algorithm builds for these frequencies if it prefers single symbols among
      equal weights, and lower trees among those. */
  ghost function LeastDepth(freq: seq<nat>): nat { HuffmanHeight(Occurring(freq)) }

  ghost predicate FitsWithin(freq: seq<nat>, code: seq<seq<bool>>, maxbits: nat) {
    |code| == |freq| && forall s :: 0 <= s < |freq| && 0 < freq[s] ==> |code[s]| <= maxbits
  }

  /** Whatever prefix code is used, it takes at least Huffman's cost, and if no more, some codeword has at least the
      least depth. */
  lemma AnyCodeCosts(freq: seq<nat>, code: seq<seq<bool>>, maxbits: nat)
    requires PrefixFreeOn(freq, code) && Used(freq) != []
    ensures HuffmanCost(Occurring(freq)) <= Cost(freq, Lengths(code))
    ensures HuffmanCost(Occurring(freq)) == Cost(freq, Lengths(code)) && FitsWithin(freq, code, maxbits) ==>
              LeastDepth(freq) <= maxbits
  {
    hide Total, Used, HuffmanCost, HuffmanHeight;
    var names := Used(freq);
    UsedFacts(freq);
    var chosen := Chosen(names, code);
    assert PrefixFree(chosen);
    HuffmanCostIsLeast(Listed(names, freq), chosen, maxbits);
    ChosenCost(names, freq, code);
    assert freq[..|freq|] == freq;
    UsedTotal(freq, |freq|, Measuring(freq, Lengths(code)));
  }

  lemma {:induction false} ListedPermutes(sorted: seq<int>, other: seq<int>, w: seq<nat>)
    requires multiset(sorted) == multiset(other)
    ensures multiset(ListedSymbols(sorted, w)) == multiset(ListedSymbols(other, w))
    decreases |sorted|
  {
    hide ListedSymbols;
    if sorted == [] {
      assert |multiset(sorted)| == |multiset(other)|;
      assert other == [];
    } else {
      var last := |sorted| - 1;
      var i := PairedPlace(sorted, other);
      ListedPermutes(sorted[..last], other[..i] + other[i + 1..], w);
      ListedPieces(sorted, last, w);
      ListedPieces(other, i, w);
      assert sorted[..last] + sorted[last + 1..] == sorted[..last];
    }
  }

  lemma ListedPieces(list: seq<int>, i: nat, w: seq<nat>)
    requires i < |list|
    ensures multiset(ListedSymbols(list, w)) ==
      multiset(ListedSymbols(list[..i] + list[i + 1..], w)) + multiset{Weight(At(w, list[i]), 0)}
  {
    var a, b := ListedSymbols(list[..i], w), ListedSymbols(list[i + 1..], w);
    assert ListedSymbols(list, w) == a + [Weight(At(w, list[i]), 0)] + b;
    assert ListedSymbols(list[..i] + list[i + 1..], w) == a + b;
  }

  lemma ListedAll(sorted: seq<int>, freq: seq<nat>)
    requires multiset(sorted) == multiset(Numbers(0, |Used(freq)|))
    ensures multiset(ListedSymbols(sorted, Listed(Used(freq), freq))) == Occurring(freq)
  {
    hide Used;
    var w := Listed(Used(freq), freq);
    ListedPermutes(sorted, Numbers(0, |w|), w);
    assert ListedSymbols(Numbers(0, |w|), w) == Singles(w);
  }

  /** The cost of lengths for the leaves is the least there is. */
  ghost predicate Cheapest(freq: seq<nat>, sorted: seq<int>, bits: seq<nat>) {
    PathLength(Coded(sorted, Listed(Used(freq), freq), bits)) == HuffmanCost(Occurring(freq))
  }

  lemma CheapestIsOptimal(freq: seq<nat>, sorted: seq<int>, bits: seq<nat>, length: seq<nat>)
    requires Spread(freq, bits, length) && multiset(sorted) == multiset(Numbers(0, |bits|)) && Used(freq) != []
    requires Cheapest(freq, sorted, bits)
    ensures Optimal(freq, length)
  {
    hide Cost, PathLength, HuffmanCost, Used;
    SymbolsCost(freq, sorted, bits, length);
    forall code | PrefixFreeOn(freq, code) ensures Cost(freq, length) <= Cost(freq, Lengths(code)) {
      AnyCodeCosts(freq, code, 0);
    }
  }

  // ----- the canonical code of given lengths -----

  /** The canonical codewords, by symbol. */
  ghost function CanonicalCode(length: seq<nat>): (code: seq<seq<bool>>)
    ensures |code| == |length| && forall s :: 0 <= s < |length| ==> code[s] == CodeWord(length, s)
  {
    seq(|length|, s requires 0 <= s < |length| => CodeWord(length, s))
  }

  lemma CodeWordLength(length: seq<nat>, top: nat, s: int)
    requires Fills(length, top) && 0 <= s < |length| && 0 < length[s]
    ensures 0 <= Canon(length, s) && CodeWord(length, s) == Word(Canon(length, s), length[s])
            && |CodeWord(length, s)| == length[s]
  {
    hide Canon, Word, Fills;
    CodewordFits(length, top, s);
    WordSize(Canon(length, s), length[s]);
  }

  /** It is a prefix code with these lengths. */
  lemma CanonicalCodeFits(freq: seq<nat>, length: seq<nat>, top: nat)
    requires Fills(length, top) && |length| == |freq|
             && forall s :: 0 <= s < |freq| ==> (freq[s] == 0 <==> length[s] == 0)
    ensures PrefixFreeOn(freq, CanonicalCode(length))
            && Cost(freq, Lengths(CanonicalCode(length))) == Cost(freq, length)
    ensures forall s :: 0 <= s < |freq| && 0 < freq[s] ==> |CanonicalCode(length)[s]| == length[s]
  {
    hide Canon, Word, Total, Fills, CodeWord;
    var code := CanonicalCode(length);
    forall s | 0 <= s < |freq| && 0 < freq[s] ensures |code[s]| == length[s] {
      CodeWordLength(length, top, s);
    }
    forall s, t | 0 <= s < |freq| && 0 <= t < |freq| && s != t && 0 < freq[s] && 0 < freq[t]
      ensures !(code[s] <= code[t]) {
      CodeWordLength(length, top, s);
      CodeWordLength(length, top, t);
      CanonPrefixFree(length, top, s, t);
    }
    TotalSame(Numbers(0, |freq|), Measuring(freq, Lengths(code)), Measuring(freq, length));
  }

  // ----- when the limited code is optimal -----

  /** Where a symbol stands among those that occur. */
  ghost function PlaceIn(freq: seq<nat>, s: nat): (k: nat)
    requires s < |freq| && freq[s] != 0
    ensures k < |Used(freq)| && Used(freq)[k] == s
  {
    UsedFacts(freq);
    assert s in Used(freq);
    var k :| 0 <= k < |Used(freq)| && Used(freq)[k] == s;
    k
  }

  lemma SpreadExists(freq: seq<nat>, bits: seq<nat>) returns (length: seq<nat>)
    requires |bits| == |Used(freq)| && forall k :: 0 <= k < |bits| ==> 1 <= bits[k]
    ensures Spread(freq, bits, length)
  {
    hide Used;
    UsedFacts(freq);
    length := seq(|freq|, s requires 0 <= s < |freq| => if freq[s] == 0 then 0 else bits[PlaceIn(freq, s)]);
    forall k | 0 <= k < |bits| ensures length[Used(freq)[k]] == bits[k] {
      var j := PlaceIn(freq, Used(freq)[k]);
      assert j == k;
    }
  }

  /** Some prefix code attains Huffman's cost. */
  lemma BestCode(freq: seq<nat>, sorted: seq<int>, best: seq<nat>, top: nat) returns (code: seq<seq<bool>>)
    requires IsBest(sorted, Listed(Used(freq), freq), best, top)
             && multiset(sorted) == multiset(Numbers(0, |Used(freq)|))
    requires |best| == |Used(freq)|
    ensures PrefixFreeOn(freq, code) && Cost(freq, Lengths(code)) == HuffmanCost(Occurring(freq))
  {
    hide Used, Cost, HuffmanCost, PathLength, Kraft, Pow2, Fills, Occurring, ListedSymbols;
    var length := SpreadExists(freq, best);
    LeafLengths(sorted, Listed(Used(freq), freq), best, top);
    SymbolsFill(freq, sorted, best, length, top);
    CanonicalCodeFits(freq, length, top);
    SymbolsCost(freq, sorted, best, length);
    ListedAll(sorted, freq);
    code := CanonicalCode(length);
  }

  /** Some optimal code keeps to the limit. */
  ghost predicate OptimalWithin(freq: seq<nat>, maxbits: nat) {
    exists code :: PrefixFreeOn(freq, code) && FitsWithin(freq, code, maxbits) && Optimal(freq, Lengths(code))
  }

  /** A code within the limit is optimal exactly if its leaves cost no more than Huffman's tree, which is possible
      exactly if the least depth is within the limit, or some optimal code is. */
  lemma OptimalIff(freq: seq<nat>, sorted: seq<int>, bits: seq<nat>, length: seq<nat>, maxbits: nat, best: seq<nat>,
                   top: nat)
    requires Spread(freq, bits, length) && multiset(sorted) == multiset(Numbers(0, |bits|))
             && |bits| == |Used(freq)| > 0
    requires Fills(length, maxbits) && IsBest(sorted, Listed(Used(freq), freq), best, top) && |best| == |bits|
    requires Cheapest(freq, sorted, bits) <==> LeastDepth(freq) <= maxbits
    ensures Optimal(freq, length) <==> LeastDepth(freq) <= maxbits
    ensures OptimalWithin(freq, maxbits) <==> LeastDepth(freq) <= maxbits
  {
    hide Used, Cost, HuffmanCost, HuffmanHeight, PathLength, Fills, IsBest, Spread, PrefixFreeOn;
    SpreadZero(freq, bits, length);
    FillsWithin(length, maxbits);
    var least := BestCode(freq, sorted, best, top);
    SymbolsCost(freq, sorted, bits, length);
    CanonicalCodeFits(freq, length, maxbits);
    if LeastDepth(freq) <= maxbits {
      CheapestIsOptimal(freq, sorted, bits, length);
      assert Optimal(freq, Lengths(CanonicalCode(length))) && FitsWithin(freq, CanonicalCode(length), maxbits);
    }
    if Optimal(freq, length) {
      AnyCodeCosts(freq, CanonicalCode(length), maxbits);
    }
    forall code | PrefixFreeOn(freq, code) && FitsWithin(freq, code, maxbits) && Optimal(freq, Lengths(code))
      ensures LeastDepth(freq) <= maxbits
    {
      AnyCodeCosts(freq, code, maxbits);
    }
  }

  lemma SpreadZero(freq: seq<nat>, bits: seq<nat>, length: seq<nat>)
    requires Spread(freq, bits, length)
    ensures |length| == |freq| && forall s :: 0 <= s < |freq| ==> (freq[s] == 0 <==> length[s] == 0)
  {
  }

  // ----- what the restarts do -----

  /** The code is optimal, and of least depth, for the frequencies after `r` halvings; fewer would not keep the least
      depth within the limit. */
  ghost predicate OptimalAfter(freq: seq<nat>, maxbits: nat, length: seq<nat>, r: nat) {
    && Optimal(Halved(freq, r), length) && LeastDepth(Halved(freq, r)) <= maxbits
    && (forall s :: 0 <= s < |length| ==> length[s] <= LeastDepth(Halved(freq, r)))
    && forall j: nat :: j < r ==> LeastDepth(Halved(freq, j)) > maxbits
  }

  /** Halving lets no symbol vanish. */
  lemma HalvedUsed(freq: seq<nat>, r: nat)
    ensures Used(Halved(freq, r)) == Used(freq)
    ensures Listed(Used(freq), Halved(freq, r)) == Halved(Listed(Used(freq), freq), r)
  {
    hide Used, Part, Pow2;
    var half := Halved(freq, r);
    forall s | 0 <= s < |freq| ensures half[s] == 0 <==> freq[s] == 0 {
      NoPartLost(freq[s], r);
    }
    UsedSame(half, freq, |freq|);
    assert half[..|freq|] == half && freq[..|freq|] == freq;
    UsedFacts(freq);
  }

  lemma NoPartLost(x: nat, r: nat)
    ensures Part(x, r) == 0 <==> x == 0
  {
    hide Pow2, Part;
    PartBounds(x, r);
    if x == 0 {
      PartIs(0, r, 0);
    }
  }

  lemma HalvedDepth(freq: seq<nat>, sorted: seq<int>, r: nat)
    requires multiset(sorted) == multiset(Numbers(0, |Used(freq)|))
    ensures LeastDepth(Halved(freq, r))
         == HuffmanHeight(multiset(ListedSymbols(sorted, Halved(Listed(Used(freq), freq), r))))
  {
    hide Used, PathLength, HuffmanCost, HuffmanHeight, ListedSymbols, Occurring;
    HalvedUsed(freq, r);
    ListedAll(sorted, Halved(freq, r));
  }

  lemma HalvedOptimal(freq: seq<nat>, sorted: seq<int>, bits: seq<nat>, length: seq<nat>, r: nat)
    requires Spread(freq, bits, length) && multiset(sorted) == multiset(Numbers(0, |bits|)) && Used(freq) != []
    requires PathLength(Coded(sorted, Halved(Listed(Used(freq), freq), r), bits))
          == HuffmanCost(multiset(ListedSymbols(sorted, Halved(Listed(Used(freq), freq), r))))
    ensures Optimal(Halved(freq, r), length)
  {
    hide Used, PathLength, HuffmanCost, ListedSymbols, Occurring, Optimal, Part;
    HalvedUsed(freq, r);
    SpreadHalved(freq, bits, length, r);
    ListedAll(sorted, Halved(freq, r));
    CheapestIsOptimal(Halved(freq, r), sorted, bits, length);
  }

  lemma SpreadHalved(freq: seq<nat>, bits: seq<nat>, length: seq<nat>, r: nat)
    requires Spread(freq, bits, length)
    ensures Spread(Halved(freq, r), bits, length)
  {
    hide Used, Part;
    HalvedUsed(freq, r);
    forall s | 0 <= s < |freq| ensures Halved(freq, r)[s] == 0 <==> freq[s] == 0 {
      NoPartLost(freq[s], r);
    }
  }

  /** Every codeword is as short as the tree of its leaf. */
  lemma SpreadWithin(freq: seq<nat>, sorted: seq<int>, bits: seq<nat>, length: seq<nat>, depth: nat)
    requires Spread(freq, bits, length) && multiset(sorted) == multiset(Numbers(0, |bits|))
    requires forall k :: 0 <= k < |sorted| ==> 0 <= sorted[k] < |bits| && bits[sorted[k]] <= depth
    ensures forall s :: 0 <= s < |length| ==> length[s] <= depth
  {
    hide Used;
    forall k | 0 <= k < |bits| ensures bits[k] <= depth {
      assert Numbers(0, |bits|)[k] in multiset(sorted);
    }
    UsedFacts(freq);
  }

  /** After the restart loop. */
  lemma RestartsEnd(freq: seq<nat>, sorted: seq<int>, bits: seq<nat>, length: seq<nat>, maxbits: nat, r: nat)
    requires Spread(freq, bits, length) && multiset(sorted) == multiset(Numbers(0, |bits|)) && Used(freq) != []
    requires PathLength(Coded(sorted, Halved(Listed(Used(freq), freq), r), bits))
          == HuffmanCost(multiset(ListedSymbols(sorted, Halved(Listed(Used(freq), freq), r))))
    requires var depth := HuffmanHeight(multiset(ListedSymbols(sorted, Halved(Listed(Used(freq), freq), r))));
      depth <= maxbits && forall k :: 0 <= k < |sorted| ==> 0 <= sorted[k] < |bits| && bits[sorted[k]] <= depth
    requires TooDeep(sorted, Listed(Used(freq), freq), maxbits, r)
    ensures OptimalAfter(freq, maxbits, length, r)
  {
    hide Used, PathLength, HuffmanCost, HuffmanHeight, ListedSymbols, Optimal, LeastDepth, Halved, Coded;
    assert |bits| == |Used(freq)|;
    HalvedOptimal(freq, sorted, bits, length, r);
    HalvedDepth(freq, sorted, r);
    SpreadWithin(freq, sorted, bits, length, LeastDepth(Halved(freq, r)));
    forall j: nat | j < r ensures LeastDepth(Halved(freq, j)) > maxbits {
      HalvedDepth(freq, sorted, j);
    }
  }

  // ----- the list in code order -----

  ghost function Long(length: seq<nat>): int -> int { s => At(length, s) }

  ghost function Itself(): int -> int { s => s }

  lemma {:induction false} UsedOnce(length: seq<nat>, n: nat, x: int)
    requires n <= |length|
    ensures multiset(Used(length[..n]))[x] <= if 0 <= x < n then 1 else 0
  {
    hide Used;
    if n == 0 {
      assert length[..0] == [];
      UsedNone();
    } else {
      UsedOnce(length, n - 1, x);
      UsedStep(length, n - 1);
    }
  }

  lemma ListInCodeOrder(list: seq<int>, length: seq<nat>)
    requires Ordered(list, Long(length), Itself()) && multiset(list) == multiset(Used(length))
    ensures InCodeOrder(list, length)
  {
    hide Used;
    UsedFacts(length);
    forall i | 0 <= i < |list| ensures 0 <= list[i] < |length| && 0 < length[list[i]] {
      InBoth(list, Used(length), list[i]);
    }
    forall i, j | 0 <= i < j < |list| ensures Earlier(length, list[i], list[j]) {
      ListedOnce(list, length, i, j);
    }
  }

  lemma ListedOnce(list: seq<int>, length: seq<nat>, i: nat, j: nat)
    requires multiset(list) == multiset(Used(length)) && i < j < |list|
    ensures list[i] != list[j]
  {
    hide Used;
    if list[i] == list[j] {
      Twice(list, i, j);
      assert length[..|length|] == length;
      UsedOnce(length, |length|, list[i]);
    }
  }

  lemma InBoth(a: seq<int>, b: seq<int>, x: int)
    requires multiset(a) == multiset(b)
    ensures x in a <==> x in b
  {
    assert x in multiset(a) <==> x in multiset(b);
  }

  // ----- the packed lengths -----

  /** The length of symbol `s` in a table of two lengths a byte. */
  function Nibble(encoded: seq<nat>, s: nat): nat
    requires s / 2 < |encoded|
  {
    if s % 2 == 1 then encoded[s / 2] / 16 else encoded[s / 2] % 16
  }

  /** `encoded` with length `bits` put where symbol `s` has none yet, so that a sum does what an or does. */
  function PutNibble(encoded: seq<nat>, s: nat, bits: nat): (r: seq<nat>)
    requires s / 2 < |encoded| && Nibble(encoded, s) == 0 && bits < 16
    ensures |r| == |encoded|
    ensures forall t :: 0 <= t < 2 * |encoded| ==> Nibble(r, t) == if t == s then bits else Nibble(encoded, t)
    ensures (forall i :: 0 <= i < |encoded| ==> encoded[i] < 256) ==> forall i :: 0 <= i < |r| ==> r[i] < 256
  {
    encoded[s / 2 := encoded[s / 2] + bits * (if s % 2 == 1 then 16 else 1)]
  }

  ghost predicate IsBytes(encoded: seq<nat>) {
    forall i :: 0 <= i < |encoded| ==> encoded[i] < 256
  }

  // ----- the masks -----

  /** What has been written when the first `k` symbols of the list are done. */
  ghost predicate Written(list: seq<int>, length: seq<nat>, freq: seq<nat>, k: nat, mask: seq<nat>,
                          encoded: seq<nat>, total: int) {
    && k <= |list| && |mask| == |length| == |freq| && |encoded| == (|length| + 1) / 2 && IsBytes(encoded)
    && (forall i :: 0 <= i < k ==> 0 <= list[i] < |mask| && mask[list[i]] == Canon(length, list[i]))
    && (forall s :: 0 <= s < 2 * |encoded| ==> Nibble(encoded, s) == if s in list[..k] then At(length, s) else 0)
    && total == Total(list[..k], Measuring(freq, length))
  }

  lemma NotYetWritten(list: seq<int>, length: seq<nat>, freq: seq<nat>, k: nat, mask: seq<nat>, encoded: seq<nat>,
                      total: int)
    requires InCodeOrder(list, length) && Written(list, length, freq, k, mask, encoded, total) && k < |list|
    ensures 0 <= list[k] < |length| && list[k] / 2 < |encoded| && list[k] !in list[..k] && Nibble(encoded, list[k]) == 0
  {
    hide Total, Canon, Nibble;
    forall i | 0 <= i < k ensures list[i] != list[k] {
      assert Earlier(length, list[i], list[k]);
    }
  }

  /** `next` is `encoded` with a length for `s`. */
  ghost predicate OneNibble(encoded: seq<nat>, next: seq<nat>, s: nat, bits: nat) {
    && |next| == |encoded| && IsBytes(next)
    && forall t :: 0 <= t < 2 * |encoded| ==> Nibble(next, t) == if t == s then bits else Nibble(encoded, t)
  }

  lemma WrittenStep(list: seq<int>, length: seq<nat>, freq: seq<nat>, k: nat, mask: seq<nat>, encoded: seq<nat>,
                    total: int, sym: nat, mask': seq<nat>, encoded': seq<nat>, total': int)
    requires sym < |mask| == |length| == |freq| && k < |list|
    requires list[k] == sym && sym !in list[..k] && 0 <= Canon(length, sym)
    requires mask' == mask[sym := Canon(length, sym)] && total' == total + freq[sym] * length[sym]
    requires OneNibble(encoded, encoded', sym, length[sym])
    requires Written(list, length, freq, k, mask, encoded, total)
    ensures Written(list, length, freq, k + 1, mask', encoded', total')
  {
    hide Total, Canon, Nibble;
    assert list[..k + 1] == list[..k] + [sym];
    TotalOneMore(list[..k], sym, Measuring(freq, length));
  }

  lemma PutNibbleFacts(encoded: seq<nat>, s: nat, bits: nat)
    requires s / 2 < |encoded| && Nibble(encoded, s) == 0 && bits < 16 && IsBytes(encoded)
    ensures OneNibble(encoded, PutNibble(encoded, s, bits), s, bits)
  {
    hide Nibble;
  }

  /** The codeword counter: the space the first `k` symbols of the list take, in codewords of `i` bits. */
  ghost predicate Counter(list: seq<int>, length: seq<nat>, k: nat, n: nat, i: nat) {
    && k <= |list|
    && n == Total(list[..k], SpaceAt(length, i))
    && (forall j :: 0 <= j < k ==> At(length, list[j]) <= i)
    && (forall j :: k <= j < |list| ==> i <= At(length, list[j]))
  }

  lemma CounterStarts(list: seq<int>, length: seq<nat>)
    requires InCodeOrder(list, length)
    ensures Counter(list, length, 0, 0, 1)
  {
    assert list[..0] == [];
  }

  /** Shifted to the next length, the counter is the next codeword. */
  lemma CounterStep(list: seq<int>, length: seq<nat>, k: nat, n: nat, i: nat)
    requires InCodeOrder(list, length) && multiset(list) == multiset(Used(length)) && k < |list|
    requires Counter(list, length, k, n, i)
    ensures 0 <= list[k] < |length| && i <= length[list[k]]
    ensures n * Pow2(length[list[k]] - i) == Canon(length, list[k])
    ensures Counter(list, length, k + 1, n * Pow2(length[list[k]] - i) + 1, length[list[k]])
  {
    hide Total, Used, Canon, Pow2;
    var bits := length[list[k]];
    SpaceScales(list[..k], length, i, bits);
    CanonInList(list, length, k);
    assert list[..k + 1] == list[..k] + [list[k]];
    TotalOneMore(list[..k], list[k], SpaceAt(length, bits));
    PowZero();
    forall j | k < j < |list| ensures bits <= At(length, list[j]) {
      assert Earlier(length, list[k], list[j]);
    }
  }

  method SetUpMasks(list: seq<int>, length: seq<nat>, freq: seq<nat>)
    returns (mask: seq<nat>, encoded: seq<nat>, total: nat)
    requires |freq| == |length| && forall s :: 0 <= s < |length| ==> length[s] < 16
    requires InCodeOrder(list, length) && multiset(list) == multiset(Used(length))
    ensures Written(list, length, freq, |list|, mask, encoded, total) && Packs(encoded, length)
  {
    hide Used, Canon, Counter, Written, Pow2, Total, InCodeOrder, Packs;
    mask := seq(|length|, _ => 0);
    encoded := seq((|length| + 1) / 2, _ => 0);
    total := 0;
    var n: nat, i: nat, k := 0, 1, 0;
    CounterStarts(list, length);
    WrittenStarts(list, length, freq, mask, encoded);
    while k < |list|
      invariant 0 <= k <= |list| && |mask| == |length| && |encoded| == (|length| + 1) / 2 && IsBytes(encoded)
      invariant Counter(list, length, k, n, i)
      invariant Written(list, length, freq, k, mask, encoded, total)
    {
      CounterStep(list, length, k, n, i);
      var sym := list[k];
      var bits := length[sym];
      NotYetWritten(list, length, freq, k, mask, encoded, total);
      var next := PutNibble(encoded, sym, bits);
      PutNibbleFacts(encoded, sym, bits);
      n := n * Pow2(bits - i);
      WrittenStep(list, length, freq, k, mask, encoded, total, sym, mask[sym := n], next, total + freq[sym] * bits);
      total := total + freq[sym] * bits;
      encoded := next;
      mask := mask[sym := n];
      i := bits;
      n := n + 1;
      k := k + 1;
    }
    WrittenPacks(list, length, freq, mask, encoded, total);
  }

  lemma WrittenPacks(list: seq<int>, length: seq<nat>, freq: seq<nat>, mask: seq<nat>, encoded: seq<nat>, total: int)
    requires multiset(list) == multiset(Used(length)) && Written(list, length, freq, |list|, mask, encoded, total)
    ensures Packs(encoded, length)
  {
    hide Total, Used, Canon, Nibble, Packs;
    assert list[..|list|] == list;
    forall s | 0 <= s < |length| ensures s in list <==> length[s] != 0 {
      InBoth(list, Used(length), s);
      UsedExactly(length, s);
    }
    PacksNibbles(encoded, length);
  }

  lemma WrittenStarts(list: seq<int>, length: seq<nat>, freq: seq<nat>, mask: seq<nat>, encoded: seq<nat>)
    requires |mask| == |length| == |freq| && |encoded| == (|length| + 1) / 2
             && forall i :: 0 <= i < |encoded| ==> encoded[i] == 0
    ensures Written(list, length, freq, 0, mask, encoded, 0)
  {
    assert list[..0] == [];
  }

  // ----- the whole -----

  /** A canonical code for exactly the symbols that occur, with codewords of at most `maxbits` bits. */
  ghost predicate IsCode(freq: seq<nat>, maxbits: nat, length: seq<nat>, mask: seq<nat>) {
    && |length| == |mask| == |freq|
    && (forall s :: 0 <= s < |freq| ==> (freq[s] == 0 <==> length[s] == 0))
    && Fills(length, maxbits)
    && (forall s :: 0 <= s < |freq| && freq[s] != 0 ==> mask[s] == Canon(length, s))
  }

  /** Each byte holds two lengths, that of an even symbol in its low half. */
  ghost predicate Packs(encoded: seq<nat>, length: seq<nat>) {
    && |encoded| == (|length| + 1) / 2 && IsBytes(encoded)
    && forall i :: 0 <= i < |encoded| ==> encoded[i] == length[2 * i] + 16 * At(length, 2 * i + 1)
  }

  lemma PacksNibbles(encoded: seq<nat>, length: seq<nat>)
    requires |encoded| == (|length| + 1) / 2 && IsBytes(encoded)
    requires forall s :: 0 <= s < 2 * |encoded| ==> Nibble(encoded, s) == At(length, s)
    ensures Packs(encoded, length)
  {
    forall i | 0 <= i < |encoded| ensures encoded[i] == length[2 * i] + 16 * At(length, 2 * i + 1) {
      assert Nibble(encoded, 2 * i) == encoded[i] % 16 == At(length, 2 * i);
      assert Nibble(encoded, 2 * i + 1) == encoded[i] / 16 == At(length, 2 * i + 1);
    }
  }

  /** The masks are a prefix code for the symbols that occur. */
  lemma MasksPrefixFree(freq: seq<nat>, maxbits: nat, length: seq<nat>, mask: seq<nat>, s: nat, t: nat)
    requires IsCode(freq, maxbits, length, mask) && s < |freq| && t < |freq| && s != t && 0 < freq[s] && 0 < freq[t]
    ensures 1 <= length[s] <= maxbits && mask[s] < Pow2(length[s])
    ensures !(Word(mask[s], length[s]) <= Word(mask[t], length[t]))
  {
    hide Pow2, Canon, Word;
    CodewordFits(length, maxbits, s);
    CanonPrefixFree(length, maxbits, s, t);
  }

  method GatherUsed(freq: seq<nat>) returns (ch: seq<int>, weights: seq<nat>)
    ensures ch == Used(freq) && weights == Listed(ch, freq)
  {
    ch, weights := [], [];
    for i := 0 to |freq|
      invariant ch == Used(freq[..i]) && weights == Listed(ch, freq)
    {
      UsedStep(freq, i);
      if freq[i] != 0 {
        ch, weights := ch + [i], weights + [freq[i]];
      }
    }
    assert freq[..|freq|] == freq;
  }

  method SpreadLengths(freq: seq<nat>, ch: seq<int>, bits: seq<nat>) returns (length: seq<nat>)
    requires ch == Used(freq) && |bits| == |ch| && forall k :: 0 <= k < |bits| ==> 1 <= bits[k]
    ensures Spread(freq, bits, length)
  {
    hide Used;
    UsedFacts(freq);
    length := seq(|freq|, _ => 0);
    for k := 0 to |ch|
      invariant |length| == |freq|
      invariant forall j :: 0 <= j < k ==> length[ch[j]] == bits[j]
      invariant forall s :: 0 <= s < |freq| ==> (length[s] != 0 <==> s in ch[..k])
    {
      assert ch[..k + 1] == ch[..k] + [ch[k]];
      length := length[ch[k] := bits[k]];
    }
    assert ch[..|ch|] == ch;
  }

  /** The two lengths of one that stand for a code with a single symbol. */
  ghost predicate SingleSymbol(freq: seq<nat>, encoded: seq<nat>) {
    && |encoded| == (|freq| + 1) / 2 && Used(freq) != []
    && forall i :: 0 <= i < |encoded| ==> encoded[i] == if i == Used(freq)[0] / 2 then 0x11 else 0
  }

  /** Codeword lengths within the limit for the symbols that occur. */
  ghost predicate Limited(freq: seq<nat>, maxbits: nat, length: seq<nat>) {
    && |length| == |freq| && (forall s :: 0 <= s < |freq| ==> (freq[s] == 0 <==> length[s] == 0))
    && Fills(length, maxbits)
    && (Optimal(freq, length) <==> LeastDepth(freq) <= maxbits)
    && (OptimalWithin(freq, maxbits) <==> LeastDepth(freq) <= maxbits)
    && exists r: nat :: OptimalAfter(freq, maxbits, length, r)
  }

  /** Sorts the symbols by frequency, builds trees until one is within the limit, and gives every symbol its length. */
  method SymbolLengths(freq: seq<nat>, ch: seq<int>, weights: seq<nat>, maxbits: nat) returns (length: seq<nat>)
    requires forall s :: 0 <= s < |freq| ==> freq[s] < 0x10000
    requires ch == Used(freq) && weights == Listed(ch, freq) && 2 <= |ch| <= Pow2(maxbits) && maxbits <= 15
    ensures Limited(freq, maxbits, length)
  {
    hide *;
    OccurringBelow(freq, ch, weights);
    LimitSize(maxbits);
    var sorted := SortByFrequency(weights);
    ListedFrequencies(sorted, weights);
    var bits;
    ghost var best, top, r;
    bits, best, top, r := LimitLengths(sorted, weights, maxbits);
    EveryLeaf(sorted, bits);
    LeafLengths(sorted, weights, bits, maxbits);
    length := SpreadLengths(freq, ch, bits);
    SymbolsFill(freq, sorted, bits, length, maxbits);
    SpreadZero(freq, bits, length);
    CheapestMeans(freq, sorted, bits);
    BestSize(sorted, weights, best, top);
    OptimalIff(freq, sorted, bits, length, maxbits, best, top);
    UsedSome(freq, ch);
    RestartsEnd(freq, sorted, bits, length, maxbits, r);
    LimitedMeans(freq, maxbits, length, r);
  }

  lemma UsedSome(freq: seq<nat>, ch: seq<int>)
    requires ch == Used(freq) && 2 <= |ch|
    ensures Used(freq) != []
  {
  }

  lemma LimitedMeans(freq: seq<nat>, maxbits: nat, length: seq<nat>, r: nat)
    requires |length| == |freq| && (forall s :: 0 <= s < |freq| ==> (freq[s] == 0 <==> length[s] == 0))
             && Fills(length, maxbits)
    requires Optimal(freq, length) <==> LeastDepth(freq) <= maxbits
    requires OptimalWithin(freq, maxbits) <==> LeastDepth(freq) <= maxbits
    requires OptimalAfter(freq, maxbits, length, r)
    ensures Limited(freq, maxbits, length)
  {
  }

  lemma LimitedFacts(freq: seq<nat>, maxbits: nat, length: seq<nat>)
    requires Limited(freq, maxbits, length)
    ensures |length| == |freq| && Fills(length, maxbits) && Used(length) == Used(freq)
    ensures forall s :: 0 <= s < |length| ==> length[s] <= maxbits
  {
    hide Used;
    UsedSame(length, freq, |freq|);
    assert freq[..|freq|] == freq && length[..|freq|] == length;
  }

  lemma OccurringBelow(freq: seq<nat>, ch: seq<int>, weights: seq<nat>)
    requires (forall s :: 0 <= s < |freq| ==> freq[s] < 0x10000) && ch == Used(freq) && weights == Listed(ch, freq)
    ensures |weights| == |ch| && forall k :: 0 <= k < |weights| ==> 0 < weights[k] < 0x10000
  {
    hide Used;
    UsedFacts(freq);
  }

  lemma ListedFrequencies(sorted: seq<int>, weights: seq<nat>)
    requires SortedLeaves(|weights|, sorted, weights) && forall k :: 0 <= k < |weights| ==> 0 < weights[k] < 0x10000
    ensures |sorted| == |weights| && Positive(sorted, weights)
            && forall k :: 0 <= k < |sorted| ==> weights[sorted[k]] < 0x10000
    ensures forall k :: 0 <= k < |sorted| ==> 0 <= sorted[k] < |weights|
  {
  }

  lemma CheapestMeans(freq: seq<nat>, sorted: seq<int>, bits: seq<nat>)
    requires multiset(sorted) == multiset(Numbers(0, |Used(freq)|))
    ensures Cheapest(freq, sorted, bits) <==>
      PathLength(Coded(sorted, Listed(Used(freq), freq), bits)) ==
          HuffmanCost(multiset(ListedSymbols(sorted, Listed(Used(freq), freq))))
    ensures LeastDepth(freq) == HuffmanHeight(multiset(ListedSymbols(sorted, Listed(Used(freq), freq))))
  {
    hide Used, PathLength, HuffmanCost, HuffmanHeight, ListedSymbols, Occurring;
    ListedAll(sorted, freq);
  }

  lemma BestSize(sorted: seq<int>, weights: seq<nat>, best: seq<nat>, top: nat)
    requires IsBest(sorted, weights, best, top)
    ensures |best| == |sorted|
  {
  }

  /** If no more than one symbol occurs: nothing is encoded, or two lengths of one stand for it. */
  method TrivialCode(freq: seq<nat>, ch: seq<int>) returns (encoded: seq<nat>)
    requires ch == Used(freq) && |ch| <= 1
    ensures |encoded| == (|freq| + 1) / 2
    ensures |ch| == 1 ==> SingleSymbol(freq, encoded)
    ensures |ch| == 0 ==> forall i :: 0 <= i < |encoded| ==> encoded[i] == 0
  {
    hide Used;
    UsedFacts(freq);
    encoded := seq((|freq| + 1) / 2, _ => 0);
    if |ch| == 1 {
      encoded := encoded[ch[0] / 2 := 0x11];
    }
  }

  /** The code as a whole. It is optimal among all prefix codes exactly if the least depth is within the limit, that
      is, if any optimal code is. */
  method HuffmanCreateCodes(freq: seq<nat>, maxbits: nat)
    returns (mask: seq<nat>, length: seq<nat>, encoded: seq<nat>, total: nat)
    requires forall s :: 0 <= s < |freq| ==> freq[s] < 0x10000
    requires |Used(freq)| <= Pow2(maxbits) && maxbits <= 15
    ensures |mask| == |length| == |freq| && |encoded| == (|freq| + 1) / 2
    ensures |Used(freq)| >= 2 ==>
              IsCode(freq, maxbits, length, mask) && Packs(encoded, length) && total == Cost(freq, length)
    ensures |Used(freq)| >= 2 ==> (Optimal(freq, length) <==> LeastDepth(freq) <= maxbits)
    ensures |Used(freq)| >= 2 ==> (Optimal(freq, length) <==> OptimalWithin(freq, maxbits))
    ensures |Used(freq)| >= 2 ==> exists r: nat :: OptimalAfter(freq, maxbits, length, r)
    ensures |Used(freq)| == 1 ==> SingleSymbol(freq, encoded)
    ensures |Used(freq)| == 0 ==> forall i :: 0 <= i < |encoded| ==> encoded[i] == 0
    ensures |Used(freq)| < 2 ==> total == 0 && forall s :: 0 <= s < |freq| ==> mask[s] == length[s] == 0
  {
    hide *;
    var ch, weights := GatherUsed(freq);
    if |ch| <= 1 {
      mask, length, total := seq(|freq|, _ => 0), seq(|freq|, _ => 0), 0;
      encoded := TrivialCode(freq, ch);
      return;
    }
    length := SymbolLengths(freq, ch, weights, maxbits);
    LimitedFacts(freq, maxbits, length);
    BeforeSorting(freq, ch, length);
    var list := BucketPass(ch, length, 32, Long(length), Itself());
    ListInCodeOrder(list, length);
    mask, encoded, total := SetUpMasks(list, length, freq);
    AllWritten(freq, maxbits, list, length, mask, encoded, total);
    LimitedOptimal(freq, maxbits, length);
  }

  lemma LimitedOptimal(freq: seq<nat>, maxbits: nat, length: seq<nat>)
    requires Limited(freq, maxbits, length)
    ensures Optimal(freq, length) <==> LeastDepth(freq) <= maxbits
    ensures Optimal(freq, length) <==> OptimalWithin(freq, maxbits)
    ensures exists r: nat :: OptimalAfter(freq, maxbits, length, r)
  {
    hide Optimal, OptimalWithin, LeastDepth, Fills, OptimalAfter;
  }

  lemma BeforeSorting(freq: seq<nat>, ch: seq<int>, length: seq<nat>)
    requires ch == Used(freq) && |length| == |freq| && forall s :: 0 <= s < |length| ==> length[s] <= 15
    ensures Rising(ch, Itself())
    ensures forall k :: 0 <= k < |ch| ==> 0 <= ch[k] < |length| && Long(length)(ch[k]) == length[ch[k]] < 32
  {
    hide Used;
    UsedFacts(freq);
  }

  lemma LimitSize(maxbits: nat)
    requires maxbits <= 15
    ensures Pow2(maxbits) <= 0x8000
  {
    Pow2Monotone(maxbits, 15);
    Pow16();
  }

  lemma EveryLeaf(sorted: seq<int>, bits: seq<nat>)
    requires multiset(sorted) == multiset(Numbers(0, |bits|)) && |sorted| == |bits|
    requires forall k :: 0 <= k < |sorted| ==> 0 <= sorted[k] < |bits| && 1 <= bits[sorted[k]]
    ensures forall k :: 0 <= k < |bits| ==> 1 <= bits[k]
  {
    forall k | 0 <= k < |bits| ensures 1 <= bits[k] {
      assert Numbers(0, |bits|)[k] in multiset(sorted);
    }
  }

  lemma LeafLengths(sorted: seq<int>, weights: seq<nat>, bits: seq<nat>, maxbits: nat)
    requires multiset(sorted) == multiset(Numbers(0, |bits|)) && Within(Coded(sorted, weights, bits), maxbits)
    requires forall k :: 0 <= k < |bits| ==> 1 <= bits[k]
    ensures forall k :: 0 <= k < |bits| ==> 1 <= bits[k] <= maxbits
  {
    forall k | 0 <= k < |bits| ensures 1 <= bits[k] <= maxbits {
      assert Numbers(0, |bits|)[k] in multiset(sorted);
      var i :| 0 <= i < |sorted| && sorted[i] == k;
      assert Coded(sorted, weights, bits)[i].length == bits[k];
    }
  }

  lemma AllWritten(freq: seq<nat>, maxbits: nat, list: seq<int>, length: seq<nat>, mask: seq<nat>, encoded: seq<nat>,
                   total: int)
    requires |length| == |freq| && multiset(list) == multiset(Used(length)) && Used(length) == Used(freq)
             && Fills(length, maxbits)
    requires Written(list, length, freq, |list|, mask, encoded, total)
    ensures IsCode(freq, maxbits, length, mask) && Packs(encoded, length) && total == Cost(freq, length)
    ensures |mask| == |freq| && |encoded| == (|freq| + 1) / 2
  {
    hide Total, Used, Canon, Nibble, Fills;
    assert list[..|list|] == list;
    forall s | 0 <= s < |freq| ensures (s in list <==> length[s] != 0) && (freq[s] == 0 <==> length[s] == 0) {
      InBoth(list, Used(length), s);
      UsedExactly(length, s);
      UsedExactly(freq, s);
    }
    TotalOfUsed(freq, list, length);
    WrittenPacks(list, length, freq, mask, encoded, total);
  }

  lemma UsedExactly(length: seq<nat>, s: nat)
    requires s < |length|
    ensures s in Used(length) <==> length[s] != 0
  {
    hide Used;
    UsedFacts(length);
  }

  lemma TotalOfUsed(freq: seq<nat>, list: seq<int>, length: seq<nat>)
    requires multiset(list) == multiset(Used(freq))
    ensures Total(list, Measuring(freq, length)) == Cost(freq, length)
  {
    hide Total, Used;
    assert freq[..|freq|] == freq;
    UsedTotal(freq, |freq|, Measuring(freq, length));
    TotalPermutes(list, Used(freq), Measuring(freq, length));
  }

  // ----- a limit that is too low -----

  lemma TotalOfFour(f: int -> int)
    ensures Total(Numbers(0, 4), f) == f(0) + f(1) + f(2) + f(3)
  {
    assert Numbers(0, 4) == [] + [0] + [1] + [2] + [3];
    TotalOneMore([], 0, f);
    TotalOneMore([] + [0], 1, f);
    TotalOneMore([] + [0] + [1], 2, f);
    TotalOneMore([] + [0] + [1] + [2], 3, f);
  }

  /** Four symbols that fill two bits all have two bits. */
  lemma AllTwoBits(length: seq<nat>)
    requires |length| == 4 && Fills(length, 2) && forall s :: 0 <= s < 4 ==> 1 <= length[s]
    ensures length == [2, 2, 2, 2]
  {
    TotalOfFour(Space(length, 2));
    assert Pow2(0) == 1 && Pow2(1) == 2 && Pow2(2) == 4;
    assert forall s :: 0 <= s < 4 ==> Space(length, 2)(s) == if length[s] == 1 then 2 else 1;
  }

  lemma FourWords(code: seq<seq<bool>>)
    requires code == [[true, true, true], [true, true, false], [true, false], [false]]
    ensures forall s, t :: 0 <= s < 4 && 0 <= t < 4 && s != t ==> !(code[s] <= code[t])
  {
    assert code[0][1] && code[1][1] && !code[2][1] && code[0][2] && !code[1][2] && !code[3][0];
  }

  /** The frequencies 1, 1, 2, 4 need three bits: the code within two bits takes 16, and another prefix code 14. */
  lemma TwoBitsAreNotEnough(length: seq<nat>, mask: seq<nat>)
    requires IsCode([1, 1, 2, 4], 2, length, mask)
    ensures Cost([1, 1, 2, 4], length) == 16 && !Optimal([1, 1, 2, 4], length)
  {
    var freq: seq<nat> := [1, 1, 2, 4];
    assert forall s :: 0 <= s < 4 ==> 0 < freq[s];
    AllTwoBits(length);
    TotalOfFour(Measuring(freq, length));
    var code := [[true, true, true], [true, true, false], [true, false], [false]];
    FourWords(code);
    TotalOfFour(Measuring(freq, Lengths(code)));
    assert Cost(freq, Lengths(code)) == 14;
  }
}
