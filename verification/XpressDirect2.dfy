/** The library's calls with the plain coding: a block of text to a block of bytes and back. */
module XpressDirect2 {
  import opened PrefixCodes
  import opened BitStreams
  import opened Tokens
  import opened PlainStreams
  import opened Direct2Encode
  import opened Direct2Decode
  import opened Direct2Fast
  import opened HashChains
  import opened MatchFinder
  import opened Compressor

  const MIN_SIZE := 8

  /** How far back a match may reach. */
  const REACH: nat := 0x1fff

  // ----- how much is written -----

  /** How many bytes of text the token stands for. */
  function Span(t: Token): nat { if t.Match? then t.length else 1 }

  /** No token takes more bytes than it stands for, nor more than six. */
  lemma BodySize(s: Plain, t: Token)
    requires Fits(t)
    ensures |s.cells| < |AddBody(s, t).cells| <= |s.cells| + 6
    ensures |AddBody(s, t).cells| <= |s.cells| + Span(t)
    ensures t.Match? ==> |s.cells| + 2 <= |AddBody(s, t).cells|
    ensures t.Match? && |s.quads| == 0 && 10 <= t.length ==> |s.cells| + 3 <= |AddBody(s, t).cells|
  {
    if t.Match? {
      TwoLong(PairOf(t.offset, t.length));
    }
  }

  lemma FlagSize(s: Plain, b: bool)
    ensures |AddFlag(s, b).cells| == |s.cells| + if (|s.flags| + 1) % 32 == 0 then 4 else 0
  {
  }

  lemma SpanAdds(tokens: seq<Token>, i: nat)
    requires Valid(tokens, 0x2000) && i < |tokens|
    ensures |Expanded(tokens[..i + 1])| == |Expanded(tokens[..i])| + Span(tokens[i]) && Fits(tokens[i])
  {
    ExpandedNext(tokens, i);
    assert Applies(Expanded(tokens[..i]), tokens[i], 0x2000);
  }

  ghost predicate AllFit(tokens: seq<Token>) {
    forall k :: 0 <= k < |tokens| ==> Fits(tokens[k])
  }

  lemma ValidFits(tokens: seq<Token>)
    requires Valid(tokens, 0x2000)
    ensures AllFit(tokens)
  {
    forall k | 0 <= k < |tokens| ensures Fits(tokens[k]) {
      assert Applies(Expanded(tokens[..k]), tokens[k], 0x2000);
    }
  }

  /** How many bytes the first `i` tokens take, with the words for their flags. */
  ghost function Written(tokens: seq<Token>, i: nat): nat
    requires AllFit(tokens) && i <= |tokens|
  {
    |PlainOf(tokens[..i]).cells|
  }

  ghost function Spelled(tokens: seq<Token>, i: nat): nat
    requires i <= |tokens|
  {
    |Expanded(tokens[..i])|
  }

  lemma OneWritten(tokens: seq<Token>, i: nat)
    requires AllFit(tokens) && i < |tokens| && Valid(tokens, 0x2000)
    ensures Written(tokens, i) < Written(tokens, i + 1) <= Written(tokens, i) + 6 + 4 * ((i + 1) / 32 - i / 32)
    ensures Written(tokens, i + 1) - Written(tokens, i) <= Spelled(tokens, i + 1) - Spelled(tokens, i) +
              4 * ((i + 1) / 32 - i / 32)
  {
    hide Fits, AddBody, AddFlag, PlainOf, Valid, Expanded;
    SpanAdds(tokens, i);
    PlainNext(tokens, i);
    FlagsOfTokens(tokens, i);
    var s := PlainOf(tokens[..i]);
    BodySize(s, tokens[i]);
    BodyFlags(s, tokens[i]);
    FlagSize(AddBody(s, tokens[i]), tokens[i].Match?);
    WordsCompleted(i);
  }

  lemma WordsCompleted(i: nat)
    ensures (i + 1) / 32 - i / 32 == if (i + 1) % 32 == 0 then 1 else 0
  {
  }

  /** Apart from the words for flags, tokens take no more bytes than they stand for. */
  lemma {:induction false} SomeWritten(tokens: seq<Token>, i: nat, j: nat)
    requires AllFit(tokens) && i <= j <= |tokens| && Valid(tokens, 0x2000)
    ensures Spelled(tokens, i) + (j - i) <= Spelled(tokens, j)
    ensures Written(tokens, j) - Written(tokens, i) <= Spelled(tokens, j) - Spelled(tokens, i) + 4 * (j / 32 - i / 32)
    decreases j
  {
    hide Written, Spelled, AllFit, Valid;
    if i < j {
      SomeWritten(tokens, i, j - 1);
      OneWritten(tokens, j - 1);
      SpelledNext(tokens, j - 1);
    }
  }

  lemma SpelledNext(tokens: seq<Token>, i: nat)
    requires Valid(tokens, 0x2000) && i < |tokens|
    ensures Spelled(tokens, i) < Spelled(tokens, i + 1)
  {
    hide Valid;
    SpanAdds(tokens, i);
  }

  /** The room a pass may use, by the source's estimate. */
  function Room(compSize: int, written: int): int {
    var rest := compSize - written - 8;
    rest - (rest + 7) / 8
  }

  /** The source goes on exactly if 28 bytes are left. */
  lemma RoomMeans(compSize: int, written: int)
    ensures Room(compSize, written) > 16 <==> compSize - written >= 28
  {
  }

  /** A pass over at most that many bytes of text stays within the output, wherever its last match ends. */
  lemma RoomSuffices(compSize: int, written: int, rest: int, tokens: nat, more: int)
    requires rest == Room(compSize, written) > 16
    requires more <= rest + 5 + 4 * ((tokens + rest) / 32 - tokens / 32)
    ensures written + more <= compSize
  {
    var all := compSize - written - 8;
    assert (tokens + rest) / 32 - tokens / 32 <= (rest + 31) / 32;
    assert 8 * ((all + 7) / 8) >= all;
  }

  /** After a pass. */
  lemma PassFits(prior: seq<Token>, tokens: seq<Token>, start: nat, stop: nat, compSize: int)
    requires Valid(tokens, 0x2000) && AllFit(tokens) && Added(prior, tokens, stop) && |Expanded(prior)| == start
    requires Room(compSize, Written(tokens, |prior|)) > 16 && stop <= start + Room(compSize, Written(tokens, |prior|))
    ensures Written(tokens, |tokens|) <= compSize
  {
    hide Valid, AllFit, Written;
    var last := |tokens| - 1;
    assert tokens[..|prior|] == prior;
    SomeWritten(tokens, |prior|, last);
    OneWritten(tokens, last);
    var rest := Room(compSize, Written(tokens, |prior|));
    MoreWords(|prior|, last, rest);
    RoomSuffices(compSize, Written(tokens, |prior|), rest, |prior|,
                 Written(tokens, |tokens|) - Written(tokens, |prior|));
  }

  lemma MoreWords(prior: nat, last: nat, rest: nat)
    requires prior <= last < prior + rest
    ensures (last + 1) / 32 <= (prior + rest) / 32
  {
  }

  /** There is room for the last few literals, and for more. */
  lemma TailFits(prior: seq<Token>, tokens: seq<Token>, compSize: int)
    requires Valid(tokens, 0x2000) && AllFit(tokens) && prior <= tokens && |Expanded(tokens)| <= |Expanded(prior)| + 8
    requires Room(compSize, Written(tokens, |prior|)) > 16
    ensures Written(tokens, |tokens|) < compSize
  {
    hide Valid, AllFit, Written;
    assert tokens[..|prior|] == prior && tokens[..|tokens|] == tokens;
    SomeWritten(tokens, |prior|, |tokens|);
  }

  lemma {:induction false} AByteEach(tokens: seq<Token>, i: nat)
    requires Valid(tokens, 0x2000) && AllFit(tokens) && i <= |tokens|
    ensures 4 + i <= Written(tokens, i)
  {
    hide Valid, AllFit, Written;
    if i == 0 {
      WrittenNone(tokens);
    } else {
      AByteEach(tokens, i - 1);
      OneWritten(tokens, i - 1);
    }
  }

  lemma WrittenNone(tokens: seq<Token>)
    requires AllFit(tokens)
    ensures Written(tokens, 0) == 4
  {
    assert tokens[..0] == [];
  }

  /** An output of less than eight bytes stands for at most ten. */
  ghost predicate Little(written: nat, spelled: nat) {
    4 <= written && (8 <= written || spelled + 4 <= written || (written == 7 && spelled <= 10))
  }

  lemma {:induction false} LittleWritten(tokens: seq<Token>, i: nat)
    requires Valid(tokens, 0x2000) && AllFit(tokens) && i <= |tokens|
    ensures Little(Written(tokens, i), Spelled(tokens, i))
            && (Written(tokens, i) < 7 ==> PlainOf(tokens[..i]).quads == [])
  {
    hide Fits, AddBody, AddFlag, PlainOf, Valid, Expanded;
    if i == 0 {
      assert tokens[..0] == [];
      NothingWritten();
    } else {
      LittleWritten(tokens, i - 1);
      SpanAdds(tokens, i - 1);
      PlainNext(tokens, i - 1);
      var s, t := PlainOf(tokens[..i - 1]), tokens[i - 1];
      BodySize(s, t);
      FlagSize(AddBody(s, t), t.Match?);
      if t.Match? {
        MatchNotFirst(tokens, i - 1);
      }
      BodyQuads(s, t);
    }
  }

  lemma NothingWritten()
    ensures |PlainOf([]).cells| == 4 && PlainOf([]).quads == [] && Expanded([]) == []
  {
  }

  lemma MatchNotFirst(tokens: seq<Token>, i: nat)
    requires Valid(tokens, 0x2000) && i < |tokens| && tokens[i].Match?
    ensures 0 < |Expanded(tokens[..i])|
  {
    assert Applies(Expanded(tokens[..i]), tokens[i], 0x2000);
  }

  lemma BodyQuads(s: Plain, t: Token)
    requires Fits(t)
    ensures t.Literal? ==> AddFlag(AddBody(s, t), t.Match?).quads == s.quads
  {
  }

  // ----- the encoder -----

  /** The buffer holds the text. */
  ghost predicate IsPacked(orig: seq<Byte>, buffer: seq<Byte>, tokens: seq<Token>) {
    Spells(orig, tokens, |orig|, REACH) && AllFit(tokens) && IsPlain(buffer, PlainOf(tokens))
  }

  lemma SpellsMeans(orig: seq<Byte>, tokens: seq<Token>, pos: nat)
    requires Spells(orig, tokens, pos, REACH)
    ensures pos <= |orig| && Valid(tokens, 0x2000) && AllFit(tokens) && Expanded(tokens) == orig[..pos]
  {
    hide Expanded, Fits;
    forall i | 0 <= i < |tokens| ensures Applies(Expanded(tokens[..i]), tokens[i], 0x2000) {
      assert Applies(Expanded(tokens[..i]), tokens[i], REACH);
    }
    ValidFits(tokens);
  }

  /** Writes the tokens from number `from` on. */
  method WriteTokens(writer: PlainWriter, tokens: seq<Token>, from: nat)
    requires writer.Valid() && from <= |tokens| && AllFit(tokens) && writer.s == PlainOf(tokens[..from])
    modifies writer
    ensures writer.Valid() && writer.s == PlainOf(tokens)
  {
    hide Writing, AddToken, Fits, PlainOf;
    var i := from;
    while i < |tokens|
      invariant from <= i <= |tokens| && writer.Valid() && writer.s == PlainOf(tokens[..i])
    {
      PlainNext(tokens, i);
      match tokens[i] {
        case Literal(b) => writer.WriteLit(b);
        case Match(offset, length) => writer.WritePtr(offset, length);
      }
      i := i + 1;
    }
    assert tokens[..|tokens|] == tokens;
  }

  lemma WriterSize(s: Plain, out: seq<Byte>, tagPtr: nat, tagMask: nat, quadPtr: nat)
    requires Writing(s, out, tagPtr, tagMask, quadPtr)
    ensures |out| == |s.cells|
  {
  }

  /** After the pass with the room that was left. */
  lemma RoundFits(orig: seq<Byte>, hash: Hash, next: seq<nat>, level: nat, prior: seq<Token>, tokens: seq<Token>,
                  start: nat, stop: nat, pos: nat, compSize: int, written: nat)
    requires Passed(orig, hash, next, level, REACH, prior, start) && Passed(orig, hash, next, level, REACH, tokens, pos)
    requires Added(prior, tokens, stop) && AllFit(prior) && written == |PlainOf(prior).cells|
    requires Room(compSize, written) > 16 && stop <= start + Room(compSize, written)
    ensures AllFit(tokens) && tokens[..|prior|] == prior && |PlainOf(tokens).cells| <= compSize && |prior| < |tokens|
  {
    hide AllFit, PlainOf, Room, Valid, Expanded, Spells;
    SpellsMeans(orig, prior, start);
    SpellsMeans(orig, tokens, pos);
    assert tokens[..|prior|] == prior && tokens[..|tokens|] == tokens;
    PassFits(prior, tokens, start, stop, compSize);
  }

  lemma StartSize()
    ensures AllFit([]) && PlainOf([]) == StartPlain() && |PlainOf([]).cells| == 4
  {
  }

  lemma EndFits(orig: seq<Byte>, prior: seq<Token>, tokens: seq<Token>, pos: nat, compSize: int)
    requires Spells(orig, prior, pos, REACH) && Spells(orig, tokens, |orig|, REACH) && prior <= tokens
    requires AllFit(prior) && |orig| <= pos + 8 && Room(compSize, |PlainOf(prior).cells|) > 16
    ensures AllFit(tokens) && tokens[..|prior|] == prior && |PlainOf(tokens).cells| < compSize && 32 <= compSize
  {
    hide AllFit, PlainOf, Valid, Expanded, Spells;
    assert prior[..|prior|] == prior;
    SpellsMeans(orig, prior, pos);
    SpellsMeans(orig, tokens, |orig|);
    assert tokens[..|prior|] == prior && tokens[..|tokens|] == tokens;
    LittleWritten(prior, |prior|);
    TailFits(prior, tokens, compSize);
  }

  /** Whatever the tokens are, they take no more than literals only would. */
  lemma WorstCase(orig: seq<Byte>, hash: Hash, next: seq<nat>, level: nat, tokens: seq<Token>, pos: nat)
    requires Passed(orig, hash, next, level, REACH, tokens, pos) && AllFit(tokens)
    ensures |PlainOf(tokens).cells| <= 4 + |orig| + |orig| / 8
  {
    hide Fits, PlainOf, Valid, Expanded, Spells, AllChosen;
    SpellsMeans(orig, tokens, pos);
    NothingWritten();
    assert tokens[..0] == [] && tokens[..|tokens|] == tokens;
    var n := |tokens|;
    SomeWritten(tokens, 0, n);
    WordsWithin(n, |orig|);
    assert Written(tokens, 0) == 4 && Spelled(tokens, 0) == 0 && Spelled(tokens, n) == pos;
    assert |PlainOf(tokens).cells| == Written(tokens, n);
  }

  /** Some tokens of the beginning of a text have been written, but not yet the word of flags at `reserved`. */
  ghost predicate IsUnfinished(orig: seq<Byte>, buffer: seq<Byte>, tokens: seq<Token>, reserved: nat) {
    && AllFit(tokens) && |buffer| == |PlainOf(tokens).cells| && 4 < |buffer|
    && (exists pos: nat :: Spells(orig, tokens, pos, REACH))
    && exists tagMask: nat, quadPtr: nat :: Writing(PlainOf(tokens), buffer, reserved, tagMask, quadPtr)
  }

  lemma UnfinishedMeans(orig: seq<Byte>, tokens: seq<Token>, pos: nat, out: seq<Byte>, tagPtr: nat, tagMask: nat,
                        quadPtr: nat)
    requires AllFit(tokens) && tokens != [] && Spells(orig, tokens, pos, REACH)
    requires Writing(PlainOf(tokens), out, tagPtr, tagMask, quadPtr)
    ensures IsUnfinished(orig, out, tokens, tagPtr) && out != []
  {
    hide Spells, Fits, PlainOf, Valid, Expanded;
    SpellsMeans(orig, tokens, pos);
    AByteEach(tokens, |tokens|);
    assert tokens[..|tokens|] == tokens;
    WriterSize(PlainOf(tokens), out, tagPtr, tagMask, quadPtr);
  }

  /** The sizes with which compression is tried at all. */
  predicate Tried(size: nat, maxSize: nat, compSize: int) {
    8 < size <= maxSize + 1 && 8 <= compSize
  }

  /** Compresses a block. `buffer` is what has been stored in the output, apart from a word of flags that is only
      reserved if compression fails; the size of the text is returned then. The output is never exceeded, and what
      comes after the passes always fits. A failure leaves the output alone exactly if the sizes are refused or the
      room does not suffice for the first pass. */
  method XpressEncode(orig: seq<Byte>, compSize: int, maxSize: nat, level: int, maxLevel: nat, hash: Hash,
                      hashSize: nat, report: bool, progressSize: int)
    returns (size: int, buffer: seq<Byte>, ghost packed: bool, ghost tokens: seq<Token>, ghost passed: nat,
             ghost next: seq<nat>, ghost reserved: nat)
    requires maxSize < 0x10000 && forall a: Byte, b: Byte, c: Byte :: hash(a, b, c) < hashSize
    ensures buffer != [] ==> |buffer| <= compSize
    ensures !packed ==> (buffer == [] <==> !Tried(|orig|, maxSize, compSize) || compSize < 32)
    ensures !packed && buffer != [] ==>
              && IsUnfinished(orig, buffer, tokens, reserved) && compSize < |buffer| + 28
              && AllChosen(orig, hash, next, Effective(level, maxLevel), 0x1fff, tokens)
    ensures packed ==> AllFit(tokens) && passed <= |tokens| && |PlainOf(tokens[..passed]).cells| + 28 <= compSize
    ensures !packed ==> size == |orig|
    ensures packed ==> size == |buffer| < compSize && IsPacked(orig, buffer, tokens)
    ensures packed ==> passed <= |tokens| && |orig| <= |Expanded(tokens[..passed])| + 8
    ensures packed && level < 0 ==> AllChosen(orig, hash, next, 0, 0x1fff, tokens[..passed])
    ensures packed && 0 <= level <= maxLevel ==> AllChosen(orig, hash, next, level, 0x1fff, tokens[..passed])
    ensures packed && maxLevel < level ==> AllChosen(orig, hash, next, maxLevel, 0x1fff, tokens[..passed])
    ensures packed ==> 32 <= compSize && 8 < |orig| <= maxSize + 1
    ensures 8 < |orig| <= maxSize + 1 && 32 + |orig| + |orig| / 8 <= compSize ==> packed
  {
    hide Passed, Ready, Expanded, PlainOf, Writing, Spells, AllChosen, Fits, IsPlain, Added, Valid,
         IsUnfinished, Room;
    size, buffer, packed, tokens, passed, next, reserved := |orig|, [], false, [], 0, [], 0;
    if |orig| == 0 || |orig| - 1 > maxSize || |orig| <= MIN_SIZE || compSize < MIN_SIZE {
      return;
    }
    var chain := Effective(level, maxLevel);
    var progress := if !report then 0 else if progressSize <= 0 || progressSize > |orig| then |orig| else progressSize;
    var table, zNext;
    table, zNext, next := Prepare(orig, hash, hashSize, chain);
    var pos: nat, done: nat := 0, 0;
    var list: seq<Token> := [];
    PassedStarts(orig, hash, next, chain, REACH);
    var writer := new PlainWriter();
    StartSize();
    while true
      invariant fresh(table) && fresh(zNext) && fresh(writer) && table != zNext && done <= pos <= |orig|
      invariant Ready(orig, hash, chain, table[..], zNext[..], next, pos)
                && Passed(orig, hash, next, chain, REACH, list, pos)
      invariant list == [] ==> pos == 0
      invariant list != [] ==> 32 <= compSize
      invariant AllFit(list) && writer.Valid() && writer.s == PlainOf(list) && |PlainOf(list).cells| <= compSize
      decreases |orig| - pos
    {
      WriterSize(writer.s, writer.out, writer.tagPtr, writer.tagMask, writer.quadPtr);
      var rest := Room(compSize, |writer.out|);
      RoomMeans(compSize, |writer.out|);
      if rest <= 16 {
        WorstCase(orig, hash, next, chain, list, pos);
        if list != [] {
          PassesEnd(orig, hash, next, chain, REACH, list, pos);
          UnfinishedMeans(orig, list, pos, writer.out, writer.tagPtr, writer.tagMask, writer.quadPtr);
          buffer, tokens, reserved := writer.out, list, writer.tagPtr;
        }
        return;
      }
      if pos >= |orig| {
        break;
      }
      var stop := pos + rest;
      if stop > |orig| - 8 {
        stop := |orig| - 8;
        if pos >= stop {
          break;
        }
      }
      ghost var prior, start := list, pos;
      var count := |list|;
      pos, list, done := PassProgress(orig, hash, table, zNext, chain, REACH, pos, stop, list, progress, done, next);
      PassedWithin(orig, hash, next, chain, REACH, list, pos);
      RoundFits(orig, hash, next, chain, prior, list, start, stop, pos, compSize, |PlainOf(prior).cells|);
      WriteTokens(writer, list, count);
    }
    var count := |list|;
    passed := count;
    ghost var before := list;
    PassesEnd(orig, hash, next, chain, REACH, list, pos);
    list := TailLiterals(orig, pos, list, REACH);
    EndFits(orig, before, list, pos, compSize);
    RoomMeans(compSize, |PlainOf(before).cells|);
    assert list[..passed] == before;
    WriteTokens(writer, list, count);
    writer.TagWriteFinish();
    PlainSize(writer.out, PlainOf(list));
    size, buffer, tokens := |writer.out|, writer.out, list;
    if size >= compSize {
      size := |orig|;
    } else {
      packed := true;
    }
  }

  // ----- the decoder -----

  /** Decodes the first `decodeSize` bytes of a block. A block as long as the text is the text itself, which the caller
      has already. */
  method XpressDecode(comp: seq<Byte>, origSize: int, decodeSize: int, ghost orig: seq<Byte>, ghost tokens: seq<Token>)
    returns (result: int, dst: seq<Byte>)
    requires decodeSize <= origSize
    ensures result == -1 || result == decodeSize
    ensures 8 <= |comp| < origSize <= 0x10000 && 8 < origSize && 0 < decodeSize ==>
              var d := Direct2Decoded(comp, origSize, decodeSize).outcome;
              if d.Done? && (decodeSize == origSize ==> d.eof) then result == decodeSize && dst == d.dst
              else result == -1 && dst == []
    ensures dst == [] || |dst| <= decodeSize
    ensures |comp| == origSize ==> result == decodeSize && dst == []
    ensures |comp| > origSize || (|comp| < origSize && (origSize <= 8 || |comp| < 8)) ==>
              result == -1 && dst == []
    ensures 8 <= |comp| < origSize && 8 < origSize && (0x10000 < origSize || decodeSize <= 0) ==>
              result == decodeSize && dst == []
    ensures IsPacked(orig, comp, tokens) && |orig| == origSize && 8 <= |comp| < origSize <= 0x10000
            && 0 <= decodeSize ==>
              result == decodeSize && dst == orig[..decodeSize]
  {
    hide IsPacked, Encodes, Careful;
    result, dst := -1, [];
    if |comp| == origSize {
      return decodeSize, [];
    }
    if origSize < |comp| || origSize <= MIN_SIZE || |comp| < MIN_SIZE {
      return;
    }
    if origSize > 0x10000 || decodeSize <= 0 {
      return decodeSize, [];
    }
    PackedEncodes(orig, comp, tokens);
    if IsPacked(orig, comp, tokens) && |orig| == origSize {
      EncodingDecodes(comp, tokens, origSize, decodeSize);
    }
    DecodedWithin(comp, origSize, decodeSize);
    var out := new Byte[origSize](_ => 0);
    var ok, eof, n, last := DecodeDirect2(comp, out, decodeSize);
    if !ok || n > decodeSize || last > |comp| || (decodeSize == origSize && !eof) {
      return;
    }
    result, dst := decodeSize, out[..n];
  }

  lemma DecodedWithin(src: seq<Byte>, size: nat, stop: nat)
    ensures var d := Direct2Decoded(src, size, stop);
      d.last <= |src| && (d.outcome.Done? ==> |d.outcome.dst| <= stop)
  {
    hide Careful;
    CarefulWithin(src, size, stop, 0, Pow2(31), 0, []);
  }

  lemma PackedEncodes(orig: seq<Byte>, comp: seq<Byte>, tokens: seq<Token>)
    ensures IsPacked(orig, comp, tokens) ==> Encodes(comp, tokens, |orig|) && Expanded(tokens) == orig
  {
    hide Fits, Expanded, IsPlain;
    if IsPacked(orig, comp, tokens) {
      SpellsMeans(orig, tokens, |orig|);
      assert orig[..|orig|] == orig;
    }
  }

  // ----- there and back -----

  /** Only a text of nine or ten bytes can be packed in less than the smallest block, and then in seven. */
  lemma PackedSize(orig: seq<Byte>, buffer: seq<Byte>, tokens: seq<Token>)
    requires IsPacked(orig, buffer, tokens)
    ensures |orig| > 10 ==> |buffer| >= 8
    ensures |orig| > 8 ==> |buffer| >= 7
  {
    hide Fits, Expanded, Spells, PlainOf;
    SpellsMeans(orig, tokens, |orig|);
    assert tokens[..|tokens|] == tokens && orig[..|orig|] == orig;
    LittleWritten(tokens, |tokens|);
    PlainSize(buffer, PlainOf(tokens));
  }

  /** A client keeps the text if the size returned is that of the text, and the output otherwise. The beginning of the
      text comes back exactly if the size is at least the smallest one and not greater than that of the text; and it
      always does if the output has at most one byte more room than the text. */
  method RoundTrip(orig: seq<Byte>, compSize: int, maxSize: nat, level: int, maxLevel: nat, hash: Hash, hashSize: nat,
                   report: bool, progressSize: int, decodeSize: int)
    returns (size: int, result: int, text: seq<Byte>)
    requires maxSize < 0x10000 && (forall a: Byte, b: Byte, c: Byte :: hash(a, b, c) < hashSize)
             && 0 <= decodeSize <= |orig|
    ensures size == |orig| || 8 <= size < |orig| ==> result == decodeSize && text == orig[..decodeSize]
    ensures !(size == |orig| || 8 <= size < |orig|) ==> result == -1 && text == []
    ensures size < 8 ==> size == |orig| || (size == 7 && |orig| <= 10 && 32 <= compSize)
    ensures size > |orig| ==> compSize > |orig| + 1
    ensures compSize <= |orig| + 1 ==> result == decodeSize && text == orig[..decodeSize]
  {
    hide IsPacked, AllChosen;
    var buffer;
    ghost var packed, tokens, passed, next, reserved;
    size, buffer, packed, tokens, passed, next, reserved :=
      XpressEncode(orig, compSize, maxSize, level, maxLevel, hash, hashSize, report, progressSize);
    if size == |orig| {
      var kept;
      result, kept := XpressDecode(orig, size, decodeSize, orig, tokens);
      text := orig[..decodeSize];
    } else {
      PackedSize(orig, buffer, tokens);
      result, text := XpressDecode(buffer, |orig|, decodeSize, orig, tokens);
    }
  }

  /** Ten equal bytes, with more room for the output than the text has: the block has seven bytes, and does not
      decode. */
  method TooSmall() returns (size: int, result: int, text: seq<Byte>)
    ensures size == 7 && result == -1
  {
    hide IsPacked, AllChosen, Expanded;
    var hash: Hash := (a, b, c) => 0;
    var orig: seq<Byte> := [0, 0, 0, 0, 0, 0, 0, 0, 0, 0];
    var buffer;
    ghost var packed, tokens, passed, next, reserved;
    size, buffer, packed, tokens, passed, next, reserved := XpressEncode(orig, 64, 0xffff, 0, 9, hash, 1, false, 0);
    SevenBytes(orig, buffer, hash, next, tokens, passed);
    result, text := XpressDecode(buffer, 10, 1, orig, tokens);
  }

  ghost predicate AllZero(orig: seq<Byte>) {
    forall i :: 0 <= i < |orig| ==> orig[i] == 0
  }

  /** Zeros are packed as the first one and a copy of it. */
  lemma ZerosTokens(orig: seq<Byte>, hash: Hash, next: seq<nat>, tokens: seq<Token>, pos: nat, passed: nat)
    requires AllZero(orig) && 4 <= |orig| && Spells(orig, tokens, pos, REACH)
    requires passed <= |tokens| && 2 <= |Expanded(tokens[..passed])|
    requires AllChosen(orig, hash, next, 0, REACH, tokens[..passed])
    ensures tokens == [Literal(0), Match(1, |orig| - 1)]
  {
    hide Expanded, Valid, AllFit, Fits, AllChosen;
    SpellsMeans(orig, tokens, pos);
    var early, both := tokens[..passed], [Literal(0), Match(1, |orig| - 1)];
    FirstChosen(orig, hash, next, 0, REACH, early);
    SecondMatches(orig, hash, next, 0, REACH, early[1]);
    SecondToken(orig, early[1]);
    assert tokens[..2] == both;
    TwoSpelled(both);
    ExpandedProgress(tokens, 0x2000, 2);
  }

  lemma SecondToken(orig: seq<Byte>, t: Token)
    requires AllZero(orig) && 4 <= |orig| && t.Match? && t.offset == 1 && AgreesExactly(orig, 0, 1, t.length)
    ensures t == Match(1, |orig| - 1)
  {
  }

  lemma TwoSpelled(tokens: seq<Token>)
    requires |tokens| == 2 && tokens[0].Literal? && tokens[1].Match? && tokens[1].offset == 1
    ensures |Expanded(tokens)| == 1 + tokens[1].length
  {
    assert tokens[..0] == [] && tokens[..1] == [tokens[0]] && tokens[..2] == tokens;
    ExpandedNext(tokens, 0);
    ExpandedNext(tokens, 1);
  }

  /** A short match takes three bytes, and one of 280 or more takes six. */
  lemma TwoWritten(tokens: seq<Token>)
    requires AllFit(tokens) && |tokens| == 2 && tokens[0].Literal? && tokens[1].Match?
    ensures tokens[1].length == 9 ==> |PlainOf(tokens).cells| == 7
    ensures 280 <= tokens[1].length ==> |PlainOf(tokens).cells| == 11
  {
    assert tokens[..0] == [] && tokens[..1] == [tokens[0]] && tokens[..2] == tokens;
    PlainNext(tokens, 0);
    PlainNext(tokens, 1);
    TwoLong(PairOf(tokens[1].offset, tokens[1].length));
  }

  lemma SevenBytes(orig: seq<Byte>, buffer: seq<Byte>, hash: Hash, next: seq<nat>, tokens: seq<Token>, passed: nat)
    requires AllZero(orig) && |orig| == 10 && IsPacked(orig, buffer, tokens)
    requires passed <= |tokens| && |orig| <= |Expanded(tokens[..passed])| + 8
    requires AllChosen(orig, hash, next, 0, REACH, tokens[..passed])
    ensures |buffer| == 7
  {
    hide IsPlain, PlainOf, Expanded, Valid, Fits, AllChosen, Spells;
    ZerosTokens(orig, hash, next, tokens, 10, passed);
    TwoWritten(tokens);
    PlainSize(buffer, PlainOf(tokens));
  }

  // ----- a text that compresses well -----

  /** Ten thousand zeros, with no more room than the text takes: the block has eleven bytes, and the text comes
      back. */
  method Shrinks() returns (size: int, result: int, text: seq<Byte>)
    ensures size == 11 && result == 10000 && text == seq(10000, i => 0)
  {
    hide IsPacked, IsUnfinished, AllChosen, Expanded, AllZero;
    var hash: Hash := (a, b, c) => 0;
    var orig: seq<Byte> := TenThousandZeros();
    var buffer;
    ghost var packed, tokens, passed, next, reserved;
    size, buffer, packed, tokens, passed, next, reserved := XpressEncode(orig, 10000, 0xffff, 0, 9, hash, 1, false, 0);
    if packed {
      ElevenBytes(orig, buffer, hash, next, tokens, passed);
    } else {
      ElevenAtMost(orig, buffer, hash, next, tokens, reserved);
    }
    result, text := XpressDecode(buffer, 10000, 10000, orig, tokens);
  }

  method TenThousandZeros() returns (orig: seq<Byte>)
    ensures |orig| == 10000 && AllZero(orig) && orig == seq(10000, i => 0)
  {
    orig := seq(10000, i => 0);
  }

  lemma ElevenBytes(orig: seq<Byte>, buffer: seq<Byte>, hash: Hash, next: seq<nat>, tokens: seq<Token>, passed: nat)
    requires AllZero(orig) && |orig| == 10000 && IsPacked(orig, buffer, tokens)
    requires passed <= |tokens| && |orig| <= |Expanded(tokens[..passed])| + 8
    requires AllChosen(orig, hash, next, 0, REACH, tokens[..passed])
    ensures |buffer| == 11
  {
    hide IsPlain, PlainOf, Expanded, Valid, Fits, AllChosen, Spells;
    ZerosTokens(orig, hash, next, tokens, 10000, passed);
    TwoWritten(tokens);
    PlainSize(buffer, PlainOf(tokens));
  }

  lemma ElevenAtMost(orig: seq<Byte>, buffer: seq<Byte>, hash: Hash, next: seq<nat>, tokens: seq<Token>, reserved: nat)
    requires AllZero(orig) && |orig| == 10000 && IsUnfinished(orig, buffer, tokens, reserved)
    requires AllChosen(orig, hash, next, 0, REACH, tokens)
    ensures |buffer| <= 11
  {
    hide PlainOf, Expanded, Valid, AllFit, Fits, AllChosen, Spells, Writing;
    var pos: nat :| Spells(orig, tokens, pos, REACH);
    SpellsMeans(orig, tokens, pos);
    assert tokens[..|tokens|] == tokens;
    if |tokens| <= 1 {
      TenAtMost(tokens);
    } else {
      SomeWritten(tokens, 0, |tokens|);
      ZerosTokens(orig, hash, next, tokens, pos, |tokens|);
      TwoWritten(tokens);
    }
  }

  lemma TenAtMost(tokens: seq<Token>)
    requires |tokens| <= 1 && Valid(tokens, 0x2000) && AllFit(tokens)
    ensures |PlainOf(tokens).cells| <= 10
  {
    hide PlainOf, Valid, AllFit;
    WrittenNone(tokens);
    assert tokens[..|tokens|] == tokens;
    if |tokens| == 1 {
      OneWritten(tokens, 0);
    } else {
      assert tokens[..0] == tokens;
    }
  }

  // ----- texts that do not compress -----

  /** A text that repeats no byte value takes more room than it has bytes. */
  lemma NewBytesTakeMore(orig: seq<Byte>, buffer: seq<Byte>, tokens: seq<Token>)
    requires IsPacked(orig, buffer, tokens) && NewBytes(orig, 0)
    ensures |orig| + 4 <= |buffer|
  {
    hide Fits, Expanded, Spells, PlainOf, NewBytes;
    SpellsMeans(orig, tokens, |orig|);
    AsManyTokens(orig, tokens, REACH, 0);
    AByteEach(tokens, |tokens|);
    assert tokens[..|tokens|] == tokens;
    PlainSize(buffer, PlainOf(tokens));
  }

  /** A hundred different bytes with room for 32: compression fails, and the output has been written to. */
  method Spoiled() returns (size: int, buffer: seq<Byte>)
    ensures size == 100 && 4 < |buffer| <= 32
  {
    hide IsPacked, AllChosen, Expanded, NewBytes;
    var hash: Hash := (a, b, c) => 0;
    var orig: seq<Byte> := HundredBytes();
    ghost var packed, tokens, passed, next, reserved;
    size, buffer, packed, tokens, passed, next, reserved := XpressEncode(orig, 32, 0xffff, 0, 9, hash, 1, false, 0);
    if packed {
      NewBytesTakeMore(orig, buffer, tokens);
    }
  }

  method HundredBytes() returns (orig: seq<Byte>)
    ensures |orig| == 100 && NewBytes(orig, 0)
  {
    orig := seq(100, i requires 0 <= i < 100 => i);
  }

  /** A hundred different bytes with room for a thousand: the block has more bytes than the text, and does not
      decode. */
  method TooLarge() returns (size: int, result: int, text: seq<Byte>)
    ensures size >= 104 && result == -1
  {
    hide IsPacked, AllChosen, Expanded, NewBytes;
    var hash: Hash := (a, b, c) => 0;
    var orig: seq<Byte> := HundredBytes();
    var buffer;
    ghost var packed, tokens, passed, next, reserved;
    size, buffer, packed, tokens, passed, next, reserved := XpressEncode(orig, 1000, 0xffff, 0, 9, hash, 1, false, 0);
    NewBytesTakeMore(orig, buffer, tokens);
    result, text := XpressDecode(buffer, 100, 100, orig, tokens);
  }
}
