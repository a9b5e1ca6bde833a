/** The two passes of the Huffman encoder. */
module HuffBuffer {
  // The first leaves the tokens in a buffer with words of flags, the second reads them back and writes the stream.

  import opened PrefixCodes
  import opened CanonicalCodes
  import opened BitStreams
  import opened BitIO
  import opened Tokens
  import opened HuffEncode
  import opened PlainStreams
  import opened Direct2Encode
  import opened Direct2Decode

  ghost predicate Normal(t: Token) {
    t.Match? ==> 0 < t.offset < 0x10000 && 3 <= t.length < 0x10003
  }

  /** The offset without its highest bit. */
  function OffsetRest(offset: nat): (m: nat)
    requires 0 < offset
  {
    offset - Pow2(BitNo(offset))
  }

  lemma OffsetRestBelow(offset: nat)
    requires 0 < offset < 0x10000
    ensures OffsetRest(offset) < 0x10000 && (BitNo(offset) < 9 ==> OffsetRest(offset) < 256)
  {
    hide Pow2, BitNo;
    var k := BitNo(offset);
    PowNext(k);
    if k < 9 {
      Pow2Monotone(k, 8);
      Pow8();
    }
  }

  function OffsetBytes(offset: nat): seq<Byte>
    requires 0 < offset < 0x10000
  {
    OffsetRestBelow(offset);
    if BitNo(offset) < 9 then [OffsetRest(offset)] else TwoBytes(OffsetRest(offset))
  }

  /** The bytes of a token in the buffer. */
  function BufferOf(t: Token): seq<Byte>
    requires Normal(t)
  {
    match t
    case Literal(b) => [b]
    case Match(offset, length) =>
      SymbolBelow(t);
      [SymbolOf(t) - 256] + LengthBytes(length - 3) + OffsetBytes(offset)
  }

  ghost function AddBuffered(s: Plain, t: Token): Plain
    requires Normal(t)
  {
    AddFlag(AddRaw(s, BufferOf(t)), t.Match?)
  }

  ghost function Buffered(tokens: seq<Token>): Plain
    requires forall i :: 0 <= i < |tokens| ==> Normal(tokens[i])
  {
    if tokens == [] then StartPlain() else AddBuffered(Buffered(tokens[..|tokens| - 1]), tokens[|tokens| - 1])
  }

  lemma BufferedNext(tokens: seq<Token>, i: nat)
    requires i < |tokens| && forall k :: 0 <= k < |tokens| ==> Normal(tokens[k])
    ensures Buffered(tokens[..i + 1]) == AddBuffered(Buffered(tokens[..i]), tokens[i])
  {
    assert tokens[..i + 1][..i] == tokens[..i];
  }

  lemma RawFollows(s: Plain, bytes: seq<Byte>)
    ensures PlainStreams.Follows(s, AddRaw(s, bytes))
  {
  }

  lemma {:induction false} BufferedFollows(tokens: seq<Token>, i: nat)
    requires i <= |tokens| && forall k :: 0 <= k < |tokens| ==> Normal(tokens[k])
    ensures PlainStreams.Follows(Buffered(tokens[..i]), Buffered(tokens))
    decreases |tokens| - i
  {
    hide Normal, BufferOf, AddFlag, AddRaw;
    if i == |tokens| {
      assert tokens[..i] == tokens;
    } else {
      var s := Buffered(tokens[..i]);
      BufferedNext(tokens, i);
      BufferedFollows(tokens, i + 1);
      RawFollows(s, BufferOf(tokens[i]));
      FollowsFlag(AddRaw(s, BufferOf(tokens[i])), tokens[i].Match?);
    }
  }

  /** One flag a token, and no shared bytes. */
  lemma {:induction false} FlagsBuffered(tokens: seq<Token>, i: nat)
    requires i <= |tokens| && forall k :: 0 <= k < |tokens| ==> Normal(tokens[k])
    ensures |Buffered(tokens[..i]).flags| == i && Buffered(tokens[..i]).quads == []
  {
    hide Normal, BufferOf;
    if i != 0 {
      FlagsBuffered(tokens, i - 1);
      BufferedNext(tokens, i - 1);
    }
  }

  lemma FlagBuffered(tokens: seq<Token>, i: nat)
    requires i <= |tokens| && forall k :: 0 <= k < |tokens| ==> Normal(tokens[k])
    ensures i < |AllFlags(Buffered(tokens))|
            && AllFlags(Buffered(tokens))[i] == if i < |tokens| then tokens[i].Match? else true
  {
    hide Normal, BufferOf, Buffered;
    assert tokens[..|tokens|] == tokens;
    FlagsBuffered(tokens, |tokens|);
    if i < |tokens| {
      FlagsBuffered(tokens, i);
      BufferedNext(tokens, i);
      BufferedFollows(tokens, i + 1);
      assert Buffered(tokens[..i + 1]).flags[i] == tokens[i].Match?;
    }
  }

  // ----- the first pass -----

  method WriteBuffer(tokens: seq<Token>) returns (buffer: seq<Byte>)
    requires forall i :: 0 <= i < |tokens| ==> Normal(tokens[i])
    ensures IsPlain(buffer, Buffered(tokens))
  {
    hide Direct2Encode.Writing, IsPlain, StartPlain, BufferOf, AddRaw, AddFlag;
    var writer := new PlainWriter();
    for i := 0 to |tokens|
      invariant writer.Valid() && fresh(writer) && writer.s == Buffered(tokens[..i])
    {
      BufferedNext(tokens, i);
      assert Normal(tokens[i]);
      writer.PutRaw(BufferOf(tokens[i]));
      writer.TagWrite(tokens[i].Match?);
    }
    assert tokens[..|tokens|] == tokens;
    writer.TagWriteFinish();
    buffer := writer.out;
  }

  // ----- the second pass -----

  /** A match as the buffer has it: the byte of its symbol, the bytes of a long length, and the offset's other bits. */
  datatype Stored = Stored(k: nat, more: seq<Byte>, rest: nat, pos: nat)

  function MoreAt(buffer: seq<Byte>, pos: nat, k: nat): seq<Byte> {
    if k % 16 != 15 || pos >= |buffer| then []
    else if buffer[pos] != 255 || pos + 2 >= |buffer| then [buffer[pos]]
    else buffer[pos..pos + 3]
  }

  function StoredAt(buffer: seq<Byte>, pos: nat): Option<Stored> {
    if pos >= |buffer| then None
    else
      var k := buffer[pos];
      var more := MoreAt(buffer, pos + 1, k);
      var p := pos + 1 + |more|;
      if k / 16 > 8 then if p + 1 >= |buffer| then None else Some(Stored(k, more, Peek(buffer, p), p + 2))
      else if p >= |buffer| then None else Some(Stored(k, more, buffer[p], p + 1))
  }

  lemma MoreStored(buffer: seq<Byte>, pos: nat, l: nat, k: nat)
    requires l < 0x10000 && pos + |LengthBytes(l)| <= |buffer| && buffer[pos..pos + |LengthBytes(l)|] == LengthBytes(l)
    requires k % 16 == if l < 15 then l else 15
    ensures MoreAt(buffer, pos, k) == LengthBytes(l)
  {
    var b := LengthBytes(l);
    if l >= 15 {
      assert buffer[pos] == buffer[pos..pos + |b|][0] == b[0];
    }
  }

  lemma OffsetStored(buffer: seq<Byte>, p: nat, offset: nat)
    requires 0 < offset < 0x10000 && p + |OffsetBytes(offset)| <= |buffer|
    requires buffer[p..p + |OffsetBytes(offset)|] == OffsetBytes(offset)
    ensures |OffsetBytes(offset)| == if BitNo(offset) > 8 then 2 else 1
    ensures OffsetRest(offset) == if BitNo(offset) > 8 then Peek(buffer, p) else buffer[p] as int
  {
    hide Pow2, BitNo;
    var b := OffsetBytes(offset);
    assert buffer[p] == buffer[p..p + |b|][0] == b[0];
    if BitNo(offset) > 8 {
      assert buffer[p + 1] == buffer[p..p + |b|][1] == b[1];
    }
  }

  lemma MatchStored(buffer: seq<Byte>, pos: nat, t: Token)
    requires t.Match? && Normal(t) && pos + |BufferOf(t)| <= |buffer| && buffer[pos..pos + |BufferOf(t)|] == BufferOf(t)
    ensures StoredAt(buffer, pos).Some?
    ensures var x := StoredAt(buffer, pos).value;
      && x.k == SymbolOf(t) - 256 && x.k / 16 == BitNo(t.offset) && x.more == LengthBytes(t.length - 3)
      && x.rest == OffsetRest(t.offset)
      && x.pos == pos + |BufferOf(t)|
  {
    hide OffsetBytes, LengthBytes, BitNo, OffsetRest, MoreAt, Peek;
    var a, b, c := SymbolOf(t) - 256, LengthBytes(t.length - 3), OffsetBytes(t.offset);
    SymbolBelow(t);
    PartsOf(buffer, pos, [a], b, c);
    SymbolParts(t);
    MoreStored(buffer, pos + 1, t.length - 3, a);
    OffsetStored(buffer, pos + 1 + |b|, t.offset);
  }

  lemma SymbolParts(t: Token)
    requires t.Match? && Normal(t)
    ensures var a := SymbolOf(t) - 256;
              a / 16 == BitNo(t.offset) && a % 16 == if t.length - 3 < 15 then t.length - 3 else 15
  {
    hide BitNo;
  }

  lemma PartsOf(buffer: seq<Byte>, pos: nat, a: seq<Byte>, b: seq<Byte>, c: seq<Byte>)
    requires |a| == 1 && pos + |a + b + c| <= |buffer| && buffer[pos..pos + |a + b + c|] == a + b + c
    ensures buffer[pos] == a[0] && buffer[pos + 1..pos + 1 + |b|] == b
    ensures buffer[pos + 1 + |b|..pos + 1 + |b| + |c|] == c
  {
    var n := |a + b + c|;
    assert buffer[pos] == buffer[pos..pos + n][0];
    SliceOfSlice(buffer, pos, n, 1, 1 + |b|);
    SliceOfSlice(buffer, pos, n, 1 + |b|, n);
    assert (a + b + c)[1..1 + |b|] == b && (a + b + c)[1 + |b|..n] == c;
  }

  lemma SliceOfSlice<T>(q: seq<T>, p: nat, n: nat, i: nat, j: nat)
    requires p + n <= |q| && i <= j <= n
    ensures q[p..p + n][i..j] == q[p + i..p + j]
  {
    var a, b := q[p..p + n][i..j], q[p + i..p + j];
    forall x | 0 <= x < |a| ensures a[x] == b[x] {
      assert a[x] == q[p..p + n][i + x];
    }
  }

  /** The second pass is before token `i`. */
  ghost predicate AtToken(buffer: seq<Byte>, pos: nat, bmask: nat, tokens: seq<Token>, i: nat) {
    && i <= |tokens| && (forall k :: 0 <= k < |tokens| ==> Normal(tokens[k]))
    && Between(buffer, pos, bmask, 0, Buffered(tokens[..i]), Buffered(tokens))
  }

  lemma AtStart(buffer: seq<Byte>, tokens: seq<Token>)
    requires (forall k :: 0 <= k < |tokens| ==> Normal(tokens[k])) && IsPlain(buffer, Buffered(tokens))
    ensures AtToken(buffer, 0, Pow2(31), tokens, 0)
  {
    hide IsPlain, Between, Pow2, Normal;
    BufferedFollows(tokens, 0);
    BetweenStarts(buffer, Buffered(tokens));
  }

  /** The flag of token `i` has been read: where its bytes are, and that the next token follows them. */
  ghost predicate AtBytes(buffer: seq<Byte>, r: FlagRead, tokens: seq<Token>, i: nat) {
    && i < |tokens| && Normal(tokens[i]) && r.flag == tokens[i].Match?
    && r.pos + |BufferOf(tokens[i])| <= |buffer| && buffer[r.pos..r.pos + |BufferOf(tokens[i])|] == BufferOf(tokens[i])
    && AtToken(buffer, r.pos + |BufferOf(tokens[i])|, r.bmask, tokens, i + 1)
  }

  lemma FlagAtToken(buffer: seq<Byte>, pos: nat, bmask: nat, tokens: seq<Token>, i: nat)
    requires AtToken(buffer, pos, bmask, tokens, i)
    ensures NextFlag(buffer, pos, bmask).Some?
    ensures i < |tokens| ==> AtBytes(buffer, NextFlag(buffer, pos, bmask).value, tokens, i)
    ensures i == |tokens| ==>
              NextFlag(buffer, pos, bmask).value.flag && NextFlag(buffer, pos, bmask).value.pos == |buffer|
  {
    hide NextFlag, MaskAfter, IsPlain, Buffered, AllFlags, BufferOf, PlainStreams.Follows, AddRaw, AddFlag;
    var s, f := Buffered(tokens[..i]), Buffered(tokens);
    NextFlagRead(buffer, pos, bmask, 0, s, f);
    FlagsBuffered(tokens, i);
    FlagBuffered(tokens, i);
    var r := NextFlag(buffer, pos, bmask).value;
    if i == |tokens| {
      assert tokens[..i] == tokens;
      PlainSize(buffer, f);
    } else {
      BufferedNext(tokens, i);
      BufferedFollows(tokens, i + 1);
      var b := AddRaw(s, BufferOf(tokens[i]));
      FollowsFlag(b, tokens[i].Match?);
      PlainStreams.FollowsTransitive(b, Buffered(tokens[..i + 1]), f);
      RawInSource(buffer, s, f, BufferOf(tokens[i]));
      RawSizes(s, BufferOf(tokens[i]));
      FlagAdded(buffer, r.pos + |BufferOf(tokens[i])|, r.bmask, 0, b, tokens[i].Match?, f);
    }
  }

  lemma RawSizes(s: Plain, bytes: seq<Byte>)
    ensures |AddRaw(s, bytes).cells| == |s.cells| + |bytes| && AddRaw(s, bytes).flags == s.flags
            && AddRaw(s, bytes).quads == s.quads
  {
  }

  ghost predicate HasMasks(length: seq<nat>, mask: seq<nat>) {
    |length| == |mask| == 512 && Fills(length, 15)
        && forall s :: 0 <= s < 512 && 0 < length[s] ==> mask[s] == Canon(length, s)
  }

  method PutSymbol(writer: BitWriter, length: seq<nat>, mask: seq<nat>, k: nat)
    requires writer.Valid() && HasMasks(length, mask) && k < 512 && 0 < length[k]
    modifies writer
    ensures writer.Valid() && writer.s == AddField(old(writer.s), CodeWord(length, k))
  {
    hide Pow2, BitIO.Writing, Word, AddField, Canon, Fills;
    CodeWordFacts(length, k);
    writer.Put(mask[k], length[k]);
  }

  /** Copies one token from the buffer to the stream. */
  method CopyToken(writer: BitWriter, buffer: seq<Byte>, r: FlagRead, length: seq<nat>, mask: seq<nat>,
                   ghost tokens: seq<Token>, ghost i: nat)
    returns (pos: nat)
    requires writer.Valid() && HasMasks(length, mask) && AtBytes(buffer, r, tokens, i) && Encodable(length, tokens[i])
    modifies writer
    ensures writer.Valid() && writer.s == Emit(old(writer.s), length, tokens[i])
    ensures pos == r.pos + |BufferOf(tokens[i])|
  {
    hide Pow2, BitIO.Writing, AddField, AddBytes, BitNo, LengthBytes, HasMasks, Emit, StoredAt, SymbolOf, BufferOf,
         AtToken, CodeWord, Word;
    ghost var t := tokens[i];
    SymbolBelow(t);
    EmitIs(writer.s, length, t);
    MasksSize(length, mask);
    if !r.flag {
      LiteralStored(buffer, r, tokens, i);
      PutSymbol(writer, length, mask, buffer[r.pos]);
      pos := r.pos + 1;
    } else {
      MatchStored(buffer, r.pos, t);
      OffsetFieldFacts(t);
      var x := StoredAt(buffer, r.pos).value;
      PutSymbol(writer, length, mask, 256 + x.k);
      PutBytes(writer, x.more);
      writer.Put(x.rest, x.k / 16);
      pos := x.pos;
    }
  }

  lemma MasksSize(length: seq<nat>, mask: seq<nat>)
    requires HasMasks(length, mask)
    ensures |length| == 512
  {
  }

  /** Reads the buffer and writes every token with its codeword, and the end mark. */
  method EncodePass2(buffer: seq<Byte>, length: seq<nat>, mask: seq<nat>, ghost tokens: seq<Token>)
    returns (out: seq<Byte>)
    requires Codes(length, tokens) && HasMasks(length, mask)
    requires (forall k :: 0 <= k < |tokens| ==> Normal(tokens[k])) && IsPlain(buffer, Buffered(tokens))
    ensures Image(out, Finished(length, tokens))
  {
    hide Pow2, Image, BitIO.Writing, Start, AddField, HasMasks, Codes, Emit, IsPlain, AtToken, AtBytes, NextFlag,
         BufferOf, Normal, Encodable, Emitted;
    var writer := new BitWriter();
    var pos, bmask := 0, Pow2(31);
    AtStart(buffer, tokens);
    NothingEmitted(length, tokens);
    ghost var i: nat := 0;
    while true
      invariant i <= |tokens| && 0 <= pos && 0 <= bmask
      invariant writer.Valid() && fresh(writer) && writer.s == Emitted(length, tokens[..i])
      invariant AtToken(buffer, pos, bmask, tokens, i)
      decreases |tokens| - i
    {
      FlagAtToken(buffer, pos, bmask, tokens, i);
      var r := NextFlag(buffer, pos, bmask).value;
      if r.flag && r.pos >= |buffer| {
        TokensLeft(buffer, r, tokens, i);
        break;
      }
      CodesFacts(length, tokens, i);
      BytesFacts(buffer, r, tokens, i);
      pos := CopyToken(writer, buffer, r, length, mask, tokens, i);
      bmask := r.bmask;
      EmittedNext(length, tokens, i);
      i := i + 1;
    }
    assert tokens[..|tokens|] == tokens;
    MasksSize(length, mask);
    EndMark(length, tokens);
    PutSymbol(writer, length, mask, 256);
    writer.Finish();
    out := writer.out;
  }

  lemma NothingEmitted(length: seq<nat>, tokens: seq<Token>)
    ensures Emitted(length, tokens[..0]) == Start()
  {
  }

  lemma CodesFacts(length: seq<nat>, tokens: seq<Token>, i: nat)
    requires Codes(length, tokens) && i < |tokens|
    ensures Encodable(length, tokens[i])
  {
    hide Fills;
  }

  lemma EndMark(length: seq<nat>, tokens: seq<Token>)
    requires Codes(length, tokens)
    ensures |length| == 512 && 0 < length[256]
  {
    hide Fills;
  }

  lemma BytesFacts(buffer: seq<Byte>, r: FlagRead, tokens: seq<Token>, i: nat)
    requires AtBytes(buffer, r, tokens, i)
    ensures i < |tokens| && Normal(tokens[i]) && AtToken(buffer, r.pos + |BufferOf(tokens[i])|, r.bmask, tokens, i + 1)
  {
  }

  lemma TokensLeft(buffer: seq<Byte>, r: FlagRead, tokens: seq<Token>, i: nat)
    requires i <= |tokens| && r.pos >= |buffer| && (i < |tokens| ==> AtBytes(buffer, r, tokens, i))
    ensures i == |tokens|
  {
    hide AtToken;
  }

  lemma LiteralStored(buffer: seq<Byte>, r: FlagRead, tokens: seq<Token>, i: nat)
    requires AtBytes(buffer, r, tokens, i) && !r.flag
    ensures r.pos < |buffer| && SymbolOf(tokens[i]) == buffer[r.pos] as int && |BufferOf(tokens[i])| == 1
  {
    hide AtToken;
    assert buffer[r.pos] == buffer[r.pos..r.pos + 1][0];
  }
}
