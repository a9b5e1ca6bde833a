/** The library's calls with the Huffman coding: a block of text to a block of bytes and back. */
module XpressHuffAll {
  import opened CanonicalCodes
  import opened HuffmanCodes
  import opened DecodeTables
  import opened BitStreams
  import opened Tokens
  import opened BitIO
  import opened HuffEncode
  import opened HuffBuffer
  import opened HuffSize
  import opened HuffAll
  import opened PlainStreams
  import opened HashChains
  import opened Compressor

  const MIN_SIZE := 261

  /** How far back a match may reach: a block is no longer than that. */
  const REACH: nat := 0xffff

  // ----- how many tokens there are -----

  ghost predicate HasMatch(tokens: seq<Token>) {
    exists i :: 0 <= i < |tokens| && tokens[i].Match?
  }

  /** A match saves at least two tokens. */
  lemma {:induction false} MatchSaves(tokens: seq<Token>, i: nat, k: nat)
    requires Valid(tokens, REACH) && i < |tokens| && tokens[i].Match? && k <= |tokens|
    ensures k + (if i < k then 2 else 0) <= |Expanded(tokens[..k])|
  {
    hide Expanded;
    if k != 0 {
      MatchSaves(tokens, i, k - 1);
      ExpandedNext(tokens, k - 1);
      assert Applies(Expanded(tokens[..k - 1]), tokens[k - 1], REACH);
    }
  }

  /** So a block with a match has few enough tokens for 16-bit counts, with one to spare for the end mark. */
  lemma FewTokens(orig: seq<Byte>, tokens: seq<Token>)
    requires Spells(orig, tokens, |orig|, REACH) && |orig| <= 0x10000 && HasMatch(tokens)
    ensures tokens != [] && |tokens| < 0xffff && Valid(tokens, 0xffff) && Expanded(tokens) == orig
  {
    hide Expanded, Valid;
    var i :| 0 <= i < |tokens| && tokens[i].Match?;
    MatchSaves(tokens, i, |tokens|);
    assert tokens[..|tokens|] == tokens && orig[..|orig|] == orig;
  }

  /** The pass counts the bytes of matches, and gives up if there are none. */
  lemma {:induction false} NoPointers(tokens: seq<Token>, i: nat)
    requires Valid(tokens, REACH) && i <= |tokens|
    ensures TokenSum(tokens[..i], PointerBytes) == 0 <==> forall k :: 0 <= k < i ==> tokens[k].Literal?
  {
    hide TokenSum, Expanded, BitNo;
    if i == 0 {
      NoneSummed(tokens);
    } else {
      NoPointers(tokens, i - 1);
      TokenSumNext(tokens, PointerBytes, i - 1);
      assert Applies(Expanded(tokens[..i - 1]), tokens[i - 1], REACH);
    }
  }

  // ----- the intermediate buffer -----

  /** No token takes more bytes of the buffer than it stands for. */
  lemma {:induction false} BufferAtMost(tokens: seq<Token>, i: nat)
    requires Valid(tokens, REACH) && i <= |tokens|
    ensures i <= |Expanded(tokens[..i])| && TokenSum(tokens[..i], BufferBytes) <= |Expanded(tokens[..i])|
  {
    hide TokenSum, Expanded, BitNo;
    if i == 0 {
      NoneSummed(tokens);
    } else {
      BufferAtMost(tokens, i - 1);
      TokenSumNext(tokens, BufferBytes, i - 1);
      ExpandedNext(tokens, i - 1);
      assert Applies(Expanded(tokens[..i - 1]), tokens[i - 1], REACH);
      TokenBuffered(tokens[i - 1]);
    }
  }

  lemma NoneSummed(tokens: seq<Token>)
    ensures TokenSum(tokens[..0], BufferBytes) == 0 && TokenSum(tokens[..0], PointerBytes) == 0
  {
  }

  lemma TokenBuffered(t: Token)
    requires t.Match? ==> 1 <= t.offset <= REACH && 3 <= t.length < 0x10003
    ensures BufferBytes(t) <= if t.Match? then t.length else 1
  {
    hide BitNo;
  }

  /** The first pass stays within the buffer that the workspace has for it, which is an eighth longer than the longest
      text, and 256 bytes. */
  lemma BufferWithin(orig: seq<Byte>, tokens: seq<Token>)
    requires Spells(orig, tokens, |orig|, REACH)
    ensures |Buffered(tokens).cells| <= |orig| + (|orig| + 7) / 8 + 256
  {
    hide TokenSum, Expanded, Buffered, Valid, Normal;
    AllNormal(tokens);
    assert tokens[..|tokens|] == tokens && orig[..|orig|] == orig;
    BufferSize(tokens, |tokens|);
    BufferAtMost(tokens, |tokens|);
    WordsWithin(|tokens|, |orig|);
  }

  // ----- the size of a block -----

  /** Without long matches no token stands for more than 17 bytes. */
  lemma {:induction false} ShortSpans(tokens: seq<Token>, i: nat)
    requires Valid(tokens, REACH) && i <= |tokens| && TokenSum(tokens[..i], MoreBytes) == 0
    ensures |Expanded(tokens[..i])| <= 17 * i
  {
    hide TokenSum, Expanded;
    if i != 0 {
      TokenSumNext(tokens, MoreBytes, i - 1);
      ShortSpans(tokens, i - 1);
      ExpandedNext(tokens, i - 1);
      assert Applies(Expanded(tokens[..i - 1]), tokens[i - 1], REACH);
    } else {
      assert tokens[..0] == [];
      NothingSpelled();
    }
  }

  lemma NothingSpelled()
    ensures Expanded([]) == []
  {
  }

  /** Every token takes at least a bit. */
  lemma {:induction false} SomeBits(length: seq<nat>, tokens: seq<Token>, i: nat)
    requires Codes(length, tokens) && i <= |tokens|
    ensures TokenSum(tokens[..i], CodeBits(length)) >= i
  {
    hide TokenSum, Fills, SymbolOf;
    if i != 0 {
      SomeBits(length, tokens, i - 1);
      TokenSumNext(tokens, CodeBits(length), i - 1);
      assert Encodable(length, tokens[i - 1]);
    }
  }

  /** A text of more than 261 bytes gives a block of at least 261. */
  lemma BlockSize(out: seq<Byte>, tokens: seq<Token>)
    requires IsHuffAll(out, tokens) && |Expanded(tokens)| > MIN_SIZE
    ensures |out| >= 261
  {
    hide Codes, Expanded, Valid, Image, Occurrences, TokenSum, Cost, Finished;
    var length := Unpacked(out[..256]);
    var freq := Occurrences(tokens)[256 := Occurrences(tokens)[256] + 1];
    StreamSize(length, tokens, freq);
    ImageSize(out[256..], Finished(length, tokens));
    CostAtLeast(length, tokens, freq);
    assert tokens[..|tokens|] == tokens;
    if TokenSum(tokens, MoreBytes) == 0 {
      ShortSpans(tokens, |tokens|);
    }
  }

  lemma CostAtLeast(length: seq<nat>, tokens: seq<Token>, freq: seq<nat>)
    requires Codes(length, tokens) && freq == Occurrences(tokens)[256 := Occurrences(tokens)[256] + 1]
    ensures Cost(freq, length) >= |tokens| + 1
  {
    hide Cost, Occurrences, TokenSum, Fills, CodeBits;
    CostBits(length, tokens, freq);
    assert tokens[..|tokens|] == tokens;
    SomeBits(length, tokens, |tokens|);
  }

  /** No token takes more than 15 bits for its symbol and 15 for an offset, nor more than three bytes. */
  lemma {:induction false} BitsAtMost(length: seq<nat>, tokens: seq<Token>, i: nat)
    requires Codes(length, tokens) && i <= |tokens|
    ensures TokenSum(tokens[..i], CodeBits(length)) <= 15 * i
    ensures TokenSum(tokens[..i], ExtraBits) <= 15 * i && TokenSum(tokens[..i], MoreBytes) <= 3 * i
  {
    hide TokenSum, SymbolOf, BitNo, Fills;
    if i == 0 {
      NoTokens(length, tokens);
    } else {
      BitsAtMost(length, tokens, i - 1);
      TokenSumNext(tokens, CodeBits(length), i - 1);
      TokenSumNext(tokens, ExtraBits, i - 1);
      TokenSumNext(tokens, MoreBytes, i - 1);
      assert Encodable(length, tokens[i - 1]);
      FillsWithin(length, 15);
      if tokens[i - 1].Match? {
        BitNoBelow(tokens[i - 1].offset);
      }
    }
  }

  /** The size of a block by the number of its tokens. */
  lemma SizeWithin(out: seq<Byte>, tokens: seq<Token>)
    requires IsHuffAll(out, tokens)
    ensures 260 + 2 * (|tokens| / 16) <= |out| <= 264 + 7 * |tokens|
  {
    hide Codes, Expanded, Valid, Image, Occurrences, TokenSum, Cost, Finished;
    var length := Unpacked(out[..256]);
    var freq := Occurrences(tokens)[256 := Occurrences(tokens)[256] + 1];
    StreamSize(length, tokens, freq);
    ImageSize(out[256..], Finished(length, tokens));
    CostAtLeast(length, tokens, freq);
    CostAtMost(length, tokens, freq);
    BitsAtMost(length, tokens, |tokens|);
    assert tokens[..|tokens|] == tokens;
  }

  lemma CostAtMost(length: seq<nat>, tokens: seq<Token>, freq: seq<nat>)
    requires Codes(length, tokens) && freq == Occurrences(tokens)[256 := Occurrences(tokens)[256] + 1]
    ensures Cost(freq, length) <= 15 * (|tokens| + 1)
  {
    hide Cost, Occurrences, TokenSum, Fills, CodeBits;
    CostBits(length, tokens, freq);
    assert tokens[..|tokens|] == tokens;
    BitsAtMost(length, tokens, |tokens|);
    FillsWithin(length, 15);
  }

  lemma CostBits(length: seq<nat>, tokens: seq<Token>, freq: seq<nat>)
    requires Codes(length, tokens) && freq == Occurrences(tokens)[256 := Occurrences(tokens)[256] + 1]
    ensures Cost(freq, length) == TokenSum(tokens, CodeBits(length)) + length[256]
  {
    hide Cost, Occurrences, TokenSum, Fills, CodeBits;
    forall i | 0 <= i < |tokens| ensures SymbolOf(tokens[i]) < 512 {
      assert Encodable(length, tokens[i]);
      SymbolBelow(tokens[i]);
    }
    CostOfTokens(tokens, length);
    CostBump(Occurrences(tokens), length, 256);
  }

  // ----- the encoder -----

  /** The buffer holds the text. */
  ghost predicate IsPacked(orig: seq<Byte>, buffer: seq<Byte>, tokens: seq<Token>) {
    Spells(orig, tokens, |orig|, REACH) && IsHuffAll(buffer, tokens)
  }

  /** The sizes with which compression is tried at all. */
  predicate Tried(size: nat, maxSize: nat, compSize: int) {
    261 < size <= maxSize + 1 && 261 <= compSize
  }

  /** Compresses a block. If compression fails the size of the text is returned and the output is left alone; it fails
      only if the sizes are wrong, if nothing matches, or if the block, whose bytes are `block`, does not fit. */
  method XpressEncode(orig: seq<Byte>, compSize: int, maxSize: nat, level: int, maxLevel: nat, hash: Hash,
                      hashSize: nat, report: bool, progressSize: int)
    returns (size: int, buffer: seq<Byte>, ghost tokens: seq<Token>, ghost passed: nat, ghost next: seq<nat>,
             ghost block: seq<Byte>)
    requires maxSize < 0x10000 && forall a: Byte, b: Byte, c: Byte :: hash(a, b, c) < hashSize
    ensures buffer == [] ==> size == |orig|
    ensures buffer != [] ==> size == |buffer| < compSize && IsPacked(orig, buffer, tokens)
    ensures !Tried(|orig|, maxSize, compSize) ==> buffer == []
    ensures Tried(|orig|, maxSize, compSize) ==>
              && Spells(orig, tokens, |orig|, REACH) && passed <= |tokens| && |orig| <= |Expanded(tokens[..passed])| + 7
              && (level < 0 ==> AllChosen(orig, hash, next, 0, 0xffff, tokens[..passed]))
              && (0 <= level <= maxLevel ==> AllChosen(orig, hash, next, level, 0xffff, tokens[..passed]))
              && (maxLevel < level ==> AllChosen(orig, hash, next, maxLevel, 0xffff, tokens[..passed]))
              && if !HasMatch(tokens) then buffer == []
                 else
                   && IsPacked(orig, block, tokens) && WellCoded(block, tokens)
                   && buffer == if |block| < compSize then block else []
  {
    hide Passed, Ready, Expanded, Spells, AllChosen, Added, Valid, IsHuffAll, Frequencies, HasMatch,
         WellCoded, TokenSum, Counted, PointerBytes, ExtraBits, Normal;
    size, buffer, tokens, passed, next, block := |orig|, [], [], 0, [], [];
    if |orig| == 0 || |orig| - 1 > maxSize || |orig| <= MIN_SIZE || compSize < MIN_SIZE {
      return;
    }
    var chain := Effective(level, maxLevel);
    var progress := if !report then 0 else if progressSize <= 0 || progressSize > |orig| then |orig| else progressSize;
    var table, zNext;
    table, zNext, next := Prepare(orig, hash, hashSize, chain);
    PassedStarts(orig, hash, next, chain, REACH);
    var pos, list, done := PassProgress(orig, hash, table, zNext, chain, REACH, 0, |orig| - 7, [], progress, 0, next);
    passed := |list|;
    PassesEnd(orig, hash, next, chain, REACH, list, pos);
    ghost var before := list;
    list := TailLiterals(orig, pos, list, REACH);
    assert list[..passed] == before;
    tokens := list;
    SpellsNormal(orig, list);
    var x := GatherStatistics(list);
    CountedMeans(x, list);
    NoMatches(list);
    if x.pointers == 0 {
      return;
    }
    FewTokens(orig, list);
    var out, predicted := EncodeCounted(list, x);
    block := out;
    IsHuffAllSize(out, list);
    if predicted >= compSize {
      return;
    }
    size, buffer := predicted, out;
  }

  lemma NoMatches(tokens: seq<Token>)
    requires Valid(tokens, REACH)
    ensures TokenSum(tokens, PointerBytes) == 0 <==> !HasMatch(tokens)
  {
    hide TokenSum, Valid;
    NoPointers(tokens, |tokens|);
    assert tokens[..|tokens|] == tokens;
  }

  lemma SpellsNormal(orig: seq<Byte>, tokens: seq<Token>)
    requires Spells(orig, tokens, |orig|, REACH)
    ensures Valid(tokens, REACH) && forall i :: 0 <= i < |tokens| ==> Normal(tokens[i])
  {
    hide Valid, Normal;
    AllNormal(tokens);
  }

  // ----- the decoder -----

  /** Decodes the first `decodeSize` bytes of a block. A block as long as the text is the text itself, which the caller
      has already. */
  method XpressDecode(comp: seq<Byte>, origSize: int, decodeSize: int, ghost orig: seq<Byte>, ghost tokens: seq<Token>)
    returns (defined: bool, result: int, dst: seq<Byte>)
    requires decodeSize <= origSize
    ensures result == -1 || result == decodeSize
    ensures 261 <= |comp| < origSize <= 0x10000 && 0 < decodeSize ==>
              (defined <==> exists i :: 0 <= i < 256 && comp[i] != 0)
    ensures 261 <= |comp| < origSize <= 0x10000 && 261 < origSize && 0 < decodeSize && defined ==>
              var d := BlockDecoded(comp, origSize, decodeSize).outcome;
              if d.Done? && (decodeSize == origSize ==> d.eof) then result == decodeSize && dst == d.dst
              else result == -1 && dst == []
    ensures dst == [] || |dst| <= decodeSize
    ensures |comp| == origSize ==> defined && result == decodeSize && dst == []
    ensures |comp| > origSize || (|comp| < origSize && (origSize <= 261 || |comp| < 261)) ==>
              defined && result == -1 && dst == []
    ensures 261 <= |comp| < origSize && 261 < origSize && (0x10000 < origSize || decodeSize <= 0) ==>
              defined && result == decodeSize && dst == []
    ensures IsPacked(orig, comp, tokens) && |orig| == origSize && 261 <= |comp| < origSize <= 0x10000
            && 0 <= decodeSize ==>
              defined && result == decodeSize && dst == orig[..decodeSize]
  {
    hide IsPacked, IsHuffAll, Fills, Nibble, BlockDecoded;
    defined, result, dst := true, -1, [];
    if |comp| == origSize {
      return true, decodeSize, [];
    }
    if origSize < |comp| || origSize <= MIN_SIZE || |comp| < MIN_SIZE {
      return;
    }
    if origSize > 0x10000 || decodeSize <= 0 {
      return true, decodeSize, [];
    }
    PackedIs(orig, comp, tokens);
    if IsPacked(orig, comp, tokens) && |orig| == origSize {
      BlockDecodes(comp, tokens, origSize, decodeSize);
    }
    BlockWithin(comp, origSize, decodeSize);
    var out := new Byte[origSize](_ => 0);
    var ok, eof, n, last;
    defined, ok, eof, n, last := DecodeHuffAllBlock(comp, out, decodeSize);
    if !ok || n > decodeSize || last > |comp| || (decodeSize == origSize && !eof) {
      return;
    }
    result, dst := decodeSize, out[..n];
  }

  lemma PackedIs(orig: seq<Byte>, comp: seq<Byte>, tokens: seq<Token>)
    ensures IsPacked(orig, comp, tokens) ==> IsHuffAll(comp, tokens) && Expanded(tokens) == orig
  {
    hide Expanded, IsHuffAll, Valid;
    assert orig[..|orig|] == orig;
  }

  // ----- there and back -----

  /** A client keeps the text if the size returned is that of the text, and the output otherwise. The beginning of the
      text comes back exactly if the size is not greater than that of the text; and it always does if the output has
      no more room than the text. */
  method RoundTrip(orig: seq<Byte>, compSize: int, maxSize: nat, level: int, maxLevel: nat, hash: Hash, hashSize: nat,
                   report: bool, progressSize: int, decodeSize: int)
    returns (size: int, defined: bool, result: int, text: seq<Byte>)
    requires maxSize < 0x10000 && (forall a: Byte, b: Byte, c: Byte :: hash(a, b, c) < hashSize)
             && 0 <= decodeSize <= |orig|
    ensures defined && (size <= |orig| ==> result == decodeSize && text == orig[..decodeSize])
    ensures size > |orig| ==> result == -1 && text == [] && compSize > |orig| + 1
  {
    hide IsPacked, AllChosen, Spells, Expanded, HasMatch;
    var buffer;
    ghost var tokens, passed, next, block;
    size, buffer, tokens, passed, next, block :=
      XpressEncode(orig, compSize, maxSize, level, maxLevel, hash, hashSize, report, progressSize);
    if size == |orig| {
      var kept;
      defined, result, kept := XpressDecode(orig, size, decodeSize, orig, tokens);
      text := orig[..decodeSize];
    } else {
      PackedIs(orig, buffer, tokens);
      BlockSize(buffer, tokens);
      defined, result, text := XpressDecode(buffer, |orig|, decodeSize, orig, tokens);
    }
  }

  /** Ten zeros and then all other byte values: the block has more bytes than the text, and does not decode. */
  method TooLarge() returns (size: int, defined: bool, result: int, text: seq<Byte>)
    ensures size >= 290 && defined && result == -1
  {
    hide IsPacked, AllChosen, Spells, Expanded, HasMatch, NewBytes, IsHuffAll;
    var hash: Hash := (a, b, c) => 0;
    var orig: seq<Byte> := TenZerosAndAll();
    var buffer;
    ghost var tokens, passed, next, block;
    size, buffer, tokens, passed, next, block := XpressEncode(orig, 0x10000, 0xffff, 0, 9, hash, 1, false, 0);
    SomeMatch(orig, hash, next, tokens, passed);
    SizeOfAll(orig, block, tokens);
    defined, result, text := XpressDecode(buffer, 265, 265, orig, tokens);
  }

  method TenZerosAndAll() returns (orig: seq<Byte>)
    ensures |orig| == 265 && orig[0] == orig[1] == orig[2] == orig[3] && NewBytes(orig, 10)
  {
    orig := seq(265, i requires 0 <= i < 265 => if i < 10 then 0 else i - 9);
  }

  lemma SomeMatch(orig: seq<Byte>, hash: Hash, next: seq<nat>, tokens: seq<Token>, passed: nat)
    requires |orig| == 265 && orig[0] == orig[1] == orig[2] == orig[3]
    requires passed <= |tokens| && |orig| <= |Expanded(tokens[..passed])| + 7
    requires AllChosen(orig, hash, next, 0, REACH, tokens[..passed])
    ensures HasMatch(tokens)
  {
    hide Expanded, AllChosen;
    var early := tokens[..passed];
    FirstChosen(orig, hash, next, 0, REACH, early);
    SecondMatches(orig, hash, next, 0, REACH, early[1]);
    assert tokens[1].Match?;
  }

  lemma SizeOfAll(orig: seq<Byte>, block: seq<Byte>, tokens: seq<Token>)
    requires |orig| == 265 && NewBytes(orig, 10) && IsPacked(orig, block, tokens)
    ensures 290 <= |block| < 0x10000
  {
    hide IsHuffAll, NewBytes;
    AsManyTokens(orig, tokens, REACH, 10);
    SizeWithin(block, tokens);
    TokensWithin(orig, tokens);
  }

  lemma TokensWithin(orig: seq<Byte>, tokens: seq<Token>)
    requires Spells(orig, tokens, |orig|, REACH)
    ensures |tokens| <= |orig|
  {
    hide Expanded, Valid;
    BufferAtMost(tokens, |tokens|);
    assert tokens[..|tokens|] == tokens && orig[..|orig|] == orig;
  }
}
