/** The Huffman coding as a whole: tokens to bytes, bytes to text. */
module HuffAll {
  import opened Totals
  import opened PrefixCodes
  import opened HuffmanTrees
  import opened HuffmanBuild
  import opened CanonicalCodes
  import opened HuffmanCodes
  import opened Fibonacci
  import opened DecodeTables
  import opened BitStreams
  import opened BitIO
  import opened Tokens
  import opened HuffEncode
  import opened HuffDecode
  import opened HuffFast
  import opened HuffSize
  import opened HuffBuffer
  import opened PlainStreams

  /** The size of the output as the statistics and the cost of the code in bits predict it. */
  method PredictSize(x: Statistics, total: nat, buffered: nat) returns (size: int)
    requires |x.freq| == 512
    ensures size == 2 * (((if total + x.extra == 0 then 1 else total + x.extra) - 1) / 16) + buffered - x.pointers +
              4 + 256
                    - SumFirst(x.freq, 256) - 4 * x.masks
  {
    var bits := total + x.extra;
    if bits == 0 {
      bits := 1;
    }
    size := (bits - 1) / 16 * 16 / 8;
    size := size + buffered - x.pointers + 4 + 256;
    var s := 0;
    while s < 256
      invariant 0 <= s <= 256
      invariant size == 2 * ((bits - 1) / 16) + buffered - x.pointers + 4 + 256 - SumFirst(x.freq, s)
    {
      size := size - x.freq[s];
      s := s + 1;
    }
    size := size - 4 * x.masks;
  }

  ghost function SumFirst(freq: seq<nat>, n: nat): nat
    requires n <= |freq|
  {
    if n == 0 then 0 else SumFirst(freq, n - 1) + freq[n - 1]
  }

  lemma {:induction false} SumFirstSame(a: seq<nat>, b: seq<nat>, n: nat)
    requires n <= |a| && n <= |b| && forall s :: 0 <= s < n ==> a[s] == b[s]
    ensures SumFirst(a, n) == SumFirst(b, n)
  {
    if n != 0 {
      SumFirstSame(a, b, n - 1);
    }
  }

  lemma {:induction false} SumFirstBump(a: seq<nat>, k: nat, n: nat)
    requires k < |a| && n <= |a|
    ensures SumFirst(a[k := a[k] + 1], n) == SumFirst(a, n) + if k < n then 1 else 0
  {
    if n != 0 {
      SumFirstBump(a, k, n - 1);
    }
  }

  lemma {:induction false} SumFirstZero(a: seq<nat>, n: nat)
    requires n <= |a| && forall s :: 0 <= s < n ==> a[s] == 0
    ensures SumFirst(a, n) == 0
  {
    if n != 0 {
      SumFirstZero(a, n - 1);
    }
  }

  /** Symbols below 256 are those of literals. */
  lemma {:induction false} LiteralsCounted(tokens: seq<Token>)
    requires forall i :: 0 <= i < |tokens| ==> Normal(tokens[i])
    ensures SumFirst(Occurrences(tokens), 256) == TokenSum(tokens, LiteralBytes)
  {
    hide Occurrences, SumFirst, BitNo, LengthBytes;
    if tokens == [] {
      SumFirstZero(Occurrences([]), 256);
    } else {
      var last := |tokens| - 1;
      var t := tokens[last];
      LiteralsCounted(tokens[..last]);
      assert Normal(t);
      SymbolBelow(t);
      var before := Occurrences(tokens[..last]);
      assert Occurrences(tokens) == before[SymbolOf(t) := before[SymbolOf(t)] + 1];
      SumFirstBump(before, SymbolOf(t), 256);
    }
  }

  /** The parts of the intermediate buffer. */
  lemma BufferParts(tokens: seq<Token>)
    ensures TokenSum(tokens, BufferBytes) ==
              TokenSum(tokens, LiteralBytes) + TokenSum(tokens, PointerBytes) + TokenSum(tokens, MoreBytes)
  {
    var both := (t: Token) => LiteralBytes(t) + PointerBytes(t);
    TokenSumSplits(tokens, BufferBytes, both, MoreBytes);
    TokenSumSplits(tokens, both, LiteralBytes, PointerBytes);
  }

  lemma {:induction false} SumAtMost(tokens: seq<Token>, s: int)
    ensures TokenSum(tokens, Is(s)) <= |tokens|
  {
    if tokens != [] {
      SumAtMost(tokens[..|tokens| - 1], s);
    }
  }

  lemma {:induction false} SumPositive(tokens: seq<Token>, i: nat)
    requires i < |tokens|
    ensures TokenSum(tokens, Is(SymbolOf(tokens[i]))) > 0
  {
    if i < |tokens| - 1 {
      SumPositive(tokens[..|tokens| - 1], i);
    }
  }

  /** The frequencies the code is made for: the symbols of the tokens and one end mark. */
  ghost function Frequencies(tokens: seq<Token>): (freq: seq<nat>)
    ensures |freq| == 512
  {
    Occurrences(tokens)[256 := Occurrences(tokens)[256] + 1]
  }

  lemma CountedMeans(x: Statistics, tokens: seq<Token>)
    requires x.masks > 0 && |x.freq| == 512 && x.freq[256] > 0
    requires Counted(x.(masks := x.masks - 1, freq := x.freq[256 := x.freq[256] - 1]), tokens, |tokens|)
    ensures x.freq == Frequencies(tokens) && x.masks == |tokens| / 32 + 1
    ensures x.pointers == TokenSum(tokens, PointerBytes) && x.extra == TokenSum(tokens, ExtraBits)
  {
    hide TokenSum, Is, PointerBytes, ExtraBits;
    assert tokens[..|tokens|] == tokens;
    var less := x.freq[256 := x.freq[256] - 1];
    assert less == Occurrences(tokens);
    assert x.freq == less[256 := less[256] + 1];
  }

  /** A text begins with a literal, so at least two symbols occur. */
  lemma TwoSymbols(tokens: seq<Token>)
    requires tokens != [] && Valid(tokens, 0xffff)
    ensures |Used(Frequencies(tokens))| >= 2
  {
    hide Used, Occurrences;
    var freq := Frequencies(tokens);
    assert Applies(Expanded(tokens[..0]), tokens[0], 0xffff);
    SumPositive(tokens, 0);
    var b := SymbolOf(tokens[0]);
    UsedFacts(freq);
    assert freq[b] > 0 && freq[256] > 0;
    assert b in Used(freq) && 256 in Used(freq) && b != 256;
  }

  lemma AllNormal(tokens: seq<Token>)
    requires Valid(tokens, 0xffff)
    ensures forall i :: 0 <= i < |tokens| ==> Normal(tokens[i])
  {
    forall i | 0 <= i < |tokens| ensures Normal(tokens[i]) {
      assert Applies(Expanded(tokens[..i]), tokens[i], 0xffff);
    }
  }

  lemma CodeCovers(tokens: seq<Token>, length: seq<nat>, mask: seq<nat>)
    requires Valid(tokens, 0xffff) && IsCode(Frequencies(tokens), 15, length, mask)
    ensures Codes(length, tokens) && HasMasks(length, mask)
  {
    hide Fills, Canon, BitNo, Occurrences;
    AllNormal(tokens);
    forall i | 0 <= i < |tokens| ensures Encodable(length, tokens[i]) {
      assert Normal(tokens[i]);
      SymbolBelow(tokens[i]);
      SumPositive(tokens, i);
      assert Frequencies(tokens)[SymbolOf(tokens[i])] > 0;
    }
  }

  lemma FrequenciesBelow(tokens: seq<Token>)
    requires |tokens| < 0xffff
    ensures forall s :: 0 <= s < 512 ==> Frequencies(tokens)[s] < 0x10000
    ensures |Used(Frequencies(tokens))| <= Pow2(15)
  {
    hide Used, Pow2;
    forall s | 0 <= s < 512 ensures Frequencies(tokens)[s] < 0x10000 {
      SumAtMost(tokens, s);
    }
    UsedShort(Frequencies(tokens));
    Pow16();
  }

  lemma CodeWithin(length: seq<nat>, tokens: seq<Token>)
    requires Codes(length, tokens)
    ensures forall s :: 0 <= s < |length| ==> length[s] < 16
  {
    FillsWithin(length, 15);
  }

  lemma PackedHalves(encoded: seq<nat>, length: seq<nat>, i: nat)
    requires Packs(encoded, length) && |length| == 512 && i < 256 && forall s :: 0 <= s < 512 ==> length[s] < 16
    ensures |encoded| == 256 && encoded[i] % 16 == length[2 * i] && encoded[i] / 16 == length[2 * i + 1]
  {
    assert encoded[i] == length[2 * i] + 16 * length[2 * i + 1];
  }

  lemma UnpackedIs(encoded: seq<nat>, length: seq<nat>)
    requires Packs(encoded, length) && |length| == 512 && forall s :: 0 <= s < 512 ==> length[s] < 16
    ensures Unpacked(encoded) == length && |encoded| == 256
  {
    hide Nibble;
    forall s | 0 <= s < 512 ensures Unpacked(encoded)[s] == length[s] {
      var i := s / 2;
      UnpackedHalves(encoded, i);
      PackedHalves(encoded, length, i);
      assert s == 2 * i || s == 2 * i + 1;
    }
  }

  /** The output: the packed lengths and the stream. */
  ghost predicate IsHuffAll(out: seq<Byte>, tokens: seq<Token>) {
    && 256 <= |out| && HuffDecode.Encodes(out[256..], Unpacked(out[..256]), tokens, |Expanded(tokens)|)
  }

  /** The code of the block is an optimal one, of least depth, for the frequencies of the symbols after as many halvings
      as it takes to bring the least depth within 15 bits. */
  ghost predicate WellCoded(out: seq<Byte>, tokens: seq<Token>) {
    256 <= |out| && exists r: nat :: OptimalAfter(Frequencies(tokens), 15, Unpacked(out[..256]), r)
  }

  method EncodeHuffAll(tokens: seq<Token>) returns (out: seq<Byte>, predicted: int)
    requires tokens != [] && |tokens| < 0xffff && Valid(tokens, 0xffff)
    ensures IsHuffAll(out, tokens) && |out| == predicted && WellCoded(out, tokens)
    ensures |tokens| < 2583 ==> Optimal(Frequencies(tokens), Unpacked(out[..256]))
  {
    hide *;
    AllNormal(tokens);
    var x := GatherStatistics(tokens);
    CountedMeans(x, tokens);
    out, predicted := EncodeCounted(tokens, x);
  }

  /** The second half: the first pass has counted the symbols, and the size is known before anything is written. */
  method EncodeCounted(tokens: seq<Token>, x: Statistics) returns (out: seq<Byte>, predicted: int)
    requires tokens != [] && |tokens| < 0xffff && Valid(tokens, 0xffff)
    requires x.freq == Frequencies(tokens) && x.masks == |tokens| / 32 + 1
    requires x.pointers == TokenSum(tokens, PointerBytes) && x.extra == TokenSum(tokens, ExtraBits)
    ensures IsHuffAll(out, tokens) && |out| == predicted && WellCoded(out, tokens)
    ensures |tokens| < 2583 ==> Optimal(Frequencies(tokens), Unpacked(out[..256]))
  {
    hide *;
    AllNormal(tokens);
    FrequenciesSize(tokens);
    FrequenciesBelow(tokens);
    TwoSymbols(tokens);
    var mask, length, encoded, total;
    mask, length, encoded, total := HuffmanCreateCodes(x.freq, 15);
    CodeCovers(tokens, length, mask);
    var buffer := WriteBuffer(tokens);
    PlainSize(buffer, Buffered(tokens));
    assert tokens[..|tokens|] == tokens;
    BufferSize(tokens, |tokens|);
    predicted := PredictSize(x, total, |buffer|);
    var stream := EncodePass2(buffer, length, mask, tokens);
    CodeWithin(length, tokens);
    UnpackedIs(encoded, length);
    PackedBytes(encoded, length);
    var packed: seq<Byte> := encoded;
    out := packed + stream;
    assert out[..256] == packed && out[256..] == stream;
    if |tokens| < 2583 {
      ShortIsOptimal(tokens);
    }
    PredictedIsSize(tokens, length, x, total, |buffer|, predicted);
    ImageSize(stream, Finished(length, tokens));
    IsHuffAllMeans(out, length, tokens);
    WellCodedMeans(out, length, tokens);
  }

  lemma WellCodedMeans(out: seq<Byte>, length: seq<nat>, tokens: seq<Token>)
    requires 256 <= |out| && length == Unpacked(out[..256])
    requires exists r: nat :: OptimalAfter(Frequencies(tokens), 15, length, r)
    ensures WellCoded(out, tokens)
  {
    hide OptimalAfter, Frequencies;
  }

  // ----- how good the code is -----

  lemma {:induction false} SumOfListed(names: seq<int>, freq: seq<nat>)
    ensures SumOf(Listed(names, freq)) == Total(names, Weighing(freq))
  {
    if names != [] {
      var last := |names| - 1;
      SumOfListed(names[..last], freq);
      assert Listed(names, freq)[..last] == Listed(names[..last], freq);
    }
  }

  lemma {:induction false} OneBitEach(tokens: seq<Token>, ones: seq<nat>)
    requires |ones| == 512 && (forall s :: 0 <= s < 512 ==> ones[s] == 1)
    requires forall i :: 0 <= i < |tokens| ==> SymbolOf(tokens[i]) < 512
    ensures TokenSum(tokens, CodeBits(ones)) == |tokens|
  {
    hide SymbolOf;
    if tokens != [] {
      OneBitEach(tokens[..|tokens| - 1], ones);
    }
  }

  /** The symbols counted are those of the tokens and the end mark. */
  lemma SumOfFrequencies(tokens: seq<Token>)
    requires forall i :: 0 <= i < |tokens| ==> Normal(tokens[i])
    ensures SumOf(Listed(Used(Frequencies(tokens)), Frequencies(tokens))) == |tokens| + 1
  {
    hide Used, Total, Occurrences, SymbolOf, BitNo;
    var freq, ones := Frequencies(tokens), seq(512, _ => 1);
    forall i | 0 <= i < |tokens| ensures SymbolOf(tokens[i]) < 512 {
      assert Normal(tokens[i]);
      SymbolBelow(tokens[i]);
    }
    OneBitEach(tokens, ones);
    CostOfTokens(tokens, ones);
    CostBump(Occurrences(tokens), ones, 256);
    TotalSame(Numbers(0, 512), Measuring(freq, ones), Weighing(freq));
    assert freq[..512] == freq;
    UsedTotal(freq, 512, Weighing(freq));
    SumOfListed(Used(freq), freq);
  }

  /** The code of a short block is optimal. */
  lemma ShortIsOptimal(tokens: seq<Token>)
    requires tokens != [] && Valid(tokens, 0xffff) && |tokens| < 2583
    ensures LeastDepth(Frequencies(tokens)) <= 15
  {
    hide Used, LeastDepth, Valid;
    AllNormal(tokens);
    TwoSymbols(tokens);
    SumOfFrequencies(tokens);
    FifteenBitsAreEnough(Frequencies(tokens));
  }

  lemma FrequenciesSize(tokens: seq<Token>)
    ensures |Frequencies(tokens)| == 512
  {
  }

  lemma IsHuffAllMeans(out: seq<Byte>, length: seq<nat>, tokens: seq<Token>)
    requires 256 <= |out| && length == Unpacked(out[..256])
    requires Codes(length, tokens) && Image(out[256..], Finished(length, tokens)) && Valid(tokens, 0xffff)
    ensures IsHuffAll(out, tokens)
  {
    hide Codes, Image, Valid;
  }

  /** The prediction is the size of the table and the stream. */
  lemma PredictedIsSize(tokens: seq<Token>, length: seq<nat>, x: Statistics, total: nat, buffered: nat, size: int)
    requires Codes(length, tokens) && (forall i :: 0 <= i < |tokens| ==> Normal(tokens[i]))
    requires x.freq == Frequencies(tokens) && x.pointers == TokenSum(tokens, PointerBytes)
             && x.extra == TokenSum(tokens, ExtraBits)
    requires total == Cost(x.freq, length) && buffered == 4 * x.masks + TokenSum(tokens, BufferBytes)
    requires size == 2 * (((if total + x.extra == 0 then 1 else total + x.extra) - 1) / 16) + buffered - x.pointers +
               4 + 256
                     - SumFirst(x.freq, 256) - 4 * x.masks
    ensures size == 256 + Finished(length, tokens).size
  {
    hide TokenSum, Finished, Cost, Occurrences, SumFirst, Codes, BufferBytes, PointerBytes, LiteralBytes, MoreBytes,
         ExtraBits;
    StreamSize(length, tokens, x.freq);
    BufferParts(tokens);
    LiteralsCounted(tokens);
    SumFirstSame(x.freq, Occurrences(tokens), 256);
  }

  lemma PackedBytes(encoded: seq<nat>, length: seq<nat>)
    requires Packs(encoded, length)
    ensures forall i :: 0 <= i < |encoded| ==> encoded[i] < 256
  {
  }

  lemma ImageSize(out: seq<Byte>, s: Stream)
    requires Image(out, s)
    ensures |out| == s.size
  {
  }

  /** What a table and a stream decode to, if some symbol has a codeword. */
  ghost function BlockDecoded(src: seq<Byte>, size: nat, stop: nat): Decoded
    requires 260 <= |src|
  {
    if Fills(Unpacked(src[..256]), 15) then
      var d := HuffDecoded(src[256..], Unpacked(src[..256]), size, stop);
      Decoded(d.outcome, 256 + d.last)
    else Decoded(Failed, 256)
  }

  /** Decodes a table and a stream. If no symbol has a codeword the table is never filled, and what the source then
      reads from it is not defined. */
  method DecodeHuffAllBlock(src: seq<Byte>, dst: array<Byte>, stop: nat)
    returns (defined: bool, ok: bool, eof: bool, n: nat, last: nat)
    requires 260 <= |src| && stop <= dst.Length
    modifies dst
    ensures defined <==> exists i :: 0 <= i < 256 && src[i] != 0
    ensures defined ==> Returns(BlockDecoded(src, dst.Length, stop), dst, ok, eof, n, last)
    ensures forall j :: stop <= j < dst.Length ==> dst[j] == old(dst[j])
  {
    hide Fills, IsDecodeTable, Nibble, HuffDecoded;
    ghost var length := Unpacked(src[..256]);
    ok, eof, n, last := false, false, 0, 256;
    defined := false;
    var i := 0;
    while i < 256
      invariant 0 <= i <= 256 && (defined <==> exists j :: 0 <= j < i && src[j] != 0)
    {
      if src[i] != 0 {
        defined := true;
      }
      i := i + 1;
    }
    if !defined {
      return;
    }
    RootSize();
    var table := new nat[2048];
    var complete := HuffmanDecodeCreate(table, src[..256], 10);
    if !complete {
      return;
    }
    ok, eof, n, last := DecodeHuffAll(src[256..], table, dst, stop, length);
    last := 256 + last;
  }

  /** On any block: no more than asked for, and nothing read beyond the end. */
  lemma BlockWithin(src: seq<Byte>, size: nat, stop: nat)
    requires 260 <= |src|
    ensures var d := BlockDecoded(src, size, stop);
      d.last <= |src| && (d.outcome.Done? ==> |d.outcome.dst| <= stop)
  {
    hide Fills, Careful, Nibble;
    var length := Unpacked(src[..256]);
    CarefulWithin(src[256..], length, size, stop, Open(src[256..]), []);
  }

  /** An encoding decodes to its text, up to `stop`, and to the end mark exactly at the end. */
  lemma BlockDecodes(src: seq<Byte>, tokens: seq<Token>, size: nat, stop: nat)
    requires 260 <= |src| && IsHuffAll(src, tokens) && size == |Expanded(tokens)| && stop <= size
    ensures exists i :: 0 <= i < 256 && src[i] != 0
    ensures BlockDecoded(src, size, stop).outcome == Done(Expanded(tokens)[..stop], stop == size)
  {
    hide Fills, HuffDecoded, Nibble, HuffDecode.Encodes, Expanded;
    var length := Unpacked(src[..256]);
    EncodesFills(src[256..], length, tokens, size);
    HuffDecode.EncodingDecodes(src[256..], length, tokens, size, stop);
    if forall i :: 0 <= i < 256 ==> src[i] == 0 {
      NothingUsed(src[..256]);
    }
  }

  lemma RootSize()
    ensures Pow2(10) == 1024
  {
    Pow2Add(5, 5);
    assert Pow2(5) == 32;
  }

  lemma EncodesFills(src: seq<Byte>, length: seq<nat>, tokens: seq<Token>, size: nat)
    requires HuffDecode.Encodes(src, length, tokens, size)
    ensures Fills(length, 15)
  {
  }

  lemma NothingUsed(encoded: seq<nat>)
    requires forall i :: 0 <= i < |encoded| ==> encoded[i] == 0
    ensures !Fills(Unpacked(encoded), 15)
  {
    hide Fills, Nibble, Used;
    NothingPacked(encoded);
    ZeroLengths(Unpacked(encoded));
    NothingFillsNothing(Unpacked(encoded));
  }

  /** Every text that tokens can express comes back, or any beginning of it, and the predicted size is the real one. */
  method HuffAllRoundTrip(tokens: seq<Token>, size: nat, stop: nat)
    returns (out: seq<Byte>, predicted: int, text: seq<Byte>, ok: bool, eof: bool)
    requires tokens != [] && |tokens| < 0xffff && Valid(tokens, 0xffff) && stop <= size == |Expanded(tokens)|
    ensures |out| == predicted && ok && text == Expanded(tokens)[..stop] && eof == (stop == size)
  {
    hide IsHuffAll, Expanded, Valid, Nibble, Fills, BlockDecoded;
    out, predicted := EncodeHuffAll(tokens);
    IsHuffAllSize(out, tokens);
    BlockDecodes(out, tokens, size, stop);
    var dst := new Byte[size](_ => 0);
    var defined, n, last;
    defined, ok, eof, n, last := DecodeHuffAllBlock(out, dst, stop);
    text := dst[..n];
  }

  lemma IsHuffAllSize(out: seq<Byte>, tokens: seq<Token>)
    requires IsHuffAll(out, tokens)
    ensures 260 <= |out|
  {
    hide Fills;
    HuffDecode.AtStart(out[256..], Unpacked(out[..256]), tokens);
  }
}
