/** Tokens as fields and bytes of an interleaved stream. */
module HuffEncode {
  import opened Totals
  import opened PrefixCodes
  import opened HuffmanTrees
  import opened CanonicalCodes
  import opened BitStreams
  import opened BitIO
  import opened Tokens

  /** The place of the highest set bit. */
  function BitNo(n: nat): (k: nat)
    requires 0 < n
    ensures Pow2(k) <= n < Pow2(k + 1)
  {
    if n == 1 then 0 else BitNo(n / 2) + 1
  }

  lemma BitNoBelow(n: nat)
    requires 0 < n < 0x10000
    ensures BitNo(n) < 16
  {
    hide Pow2, BitNo;
    Pow16();
    if BitNo(n) >= 16 {
      Pow2Monotone(16, BitNo(n));
    }
  }

  /** The symbol of a token: a byte, or 256 and the size of the offset and the length as far as four bits hold it. */
  function SymbolOf(t: Token): nat {
    match t
    case Literal(b) => b
    case Match(offset, length) =>
      if offset == 0 || length < 3 then 0
      else 256 + 16 * BitNo(offset) + if length - 3 < 15 then length - 3 else 15
  }

  /** What follows the symbol of a long match; `l` is the length less 3. */
  function LengthBytes(l: nat): seq<Byte>
    requires l < 0x10000
  {
    if l < 15 then [] else if l - 15 < 255 then [l - 15] else [255, l % 256, l / 256]
  }

  ghost function AddBytes(s: Stream, bytes: seq<Byte>): Stream {
    if bytes == [] then s else AddByte(AddBytes(s, bytes[..|bytes| - 1]), bytes[|bytes| - 1])
  }

  ghost function AddSymbol(s: Stream, length: seq<nat>, t: Token): Stream {
    AddField(s, CodeWord(length, SymbolOf(t)))
  }

  ghost function OffsetField(t: Token): seq<bool>
    requires t.Match? && 0 < t.offset
  {
    Word(t.offset - Pow2(BitNo(t.offset)), BitNo(t.offset))
  }

  /** What a match adds after its symbol. */
  ghost function AddMatch(s: Stream, t: Token): Stream
    requires t.Match? && 0 < t.offset && 3 <= t.length < 0x10003
  {
    AddField(AddBytes(s, LengthBytes(t.length - 3)), OffsetField(t))
  }

  ghost predicate Encodable(length: seq<nat>, t: Token) {
    && (t.Match? ==> 0 < t.offset < 0x10000 && 3 <= t.length < 0x10003)
    && 0 < At(length, SymbolOf(t))
  }

  ghost function Emit(s: Stream, length: seq<nat>, t: Token): Stream {
    if Encodable(length, t) && t.Match? then AddMatch(AddSymbol(s, length, t), t) else AddSymbol(s, length, t)
  }

  ghost function Emitted(length: seq<nat>, tokens: seq<Token>): Stream {
    if tokens == [] then Start() else Emit(Emitted(length, tokens[..|tokens| - 1]), length, tokens[|tokens| - 1])
  }

  /** The whole stream ends with symbol 256. */
  ghost function Finished(length: seq<nat>, tokens: seq<Token>): Stream {
    AddField(Emitted(length, tokens), CodeWord(length, 256))
  }

  /** A complete canonical code in which all these tokens and the end mark have codewords. */
  ghost predicate Codes(length: seq<nat>, tokens: seq<Token>) {
    && |length| == 512 && Fills(length, 15) && 0 < length[256]
    && forall i :: 0 <= i < |tokens| ==> Encodable(length, tokens[i])
  }

  // ----- every state on the way is a prefix of the final one -----

  /** `t` is a well-formed later state of `s`. */
  ghost predicate Follows(s: Stream, t: Stream) {
    Layout(s) && Layout(t) && Extends(s, t)
  }

  lemma FollowsField(s: Stream, w: seq<bool>)
    requires Layout(s) && |w| <= 15
    ensures Follows(s, AddField(s, w))
  {
    LayoutField(s, w);
  }

  lemma FollowsByte(s: Stream, b: Byte)
    requires Layout(s)
    ensures Follows(s, AddByte(s, b))
  {
  }

  lemma FollowsTransitive(s: Stream, t: Stream, f: Stream)
    requires Follows(s, t) && Follows(t, f)
    ensures Follows(s, f)
  {
  }

  lemma FollowsSelf(s: Stream)
    requires Layout(s)
    ensures Follows(s, s)
  {
  }

  lemma FollowsMeans(s: Stream, t: Stream)
    requires Follows(s, t)
    ensures Layout(s) && Layout(t) && Extends(s, t)
  {
  }

  lemma {:induction false} FollowsBytes(s: Stream, bytes: seq<Byte>)
    requires Layout(s)
    ensures Follows(s, AddBytes(s, bytes))
  {
    hide Follows, Layout, AddByte;
    FollowsSelf(s);
    if bytes != [] {
      var last := |bytes| - 1;
      FollowsBytes(s, bytes[..last]);
      FollowsMeans(s, AddBytes(s, bytes[..last]));
      FollowsByte(AddBytes(s, bytes[..last]), bytes[last]);
      FollowsTransitive(s, AddBytes(s, bytes[..last]), AddBytes(s, bytes));
    }
  }

  lemma CodeWordFacts(length: seq<nat>, sym: int)
    requires Fills(length, 15) && 0 <= sym < |length| && 0 < length[sym]
    ensures 0 <= Canon(length, sym) < Pow2(length[sym]) && length[sym] <= 15
    ensures CodeWord(length, sym) == Word(Canon(length, sym), length[sym])
    ensures |CodeWord(length, sym)| == length[sym] && Value(CodeWord(length, sym)) == Canon(length, sym)
  {
    hide Pow2, Canon, Word, Value, Total, Space;
    CodewordFits(length, 15, sym);
    WordSize(Canon(length, sym), length[sym]);
    ValueOfWord(Canon(length, sym), length[sym]);
  }

  lemma OffsetFieldFacts(t: Token)
    requires t.Match? && 0 < t.offset < 0x10000
    ensures BitNo(t.offset) <= 15 && 0 <= t.offset - Pow2(BitNo(t.offset)) < Pow2(BitNo(t.offset))
    ensures |OffsetField(t)| == BitNo(t.offset) && Value(OffsetField(t)) == t.offset - Pow2(BitNo(t.offset))
  {
    hide Pow2, BitNo, Word, Value;
    var k := BitNo(t.offset);
    BitNoBelow(t.offset);
    PowNext(k);
    WordSize(t.offset - Pow2(k), k);
    ValueOfWord(t.offset - Pow2(k), k);
  }

  lemma SymbolBelow(t: Token)
    requires t.Match? ==> 0 < t.offset < 0x10000 && 3 <= t.length
    ensures SymbolOf(t) < 512
  {
    hide BitNo;
    if t.Match? {
      BitNoBelow(t.offset);
    }
  }

  /** The states a token goes through, each following the one before. */
  lemma EmitFollows(s: Stream, length: seq<nat>, t: Token)
    requires Layout(s) && |length| == 512 && Fills(length, 15) && Encodable(length, t)
    ensures Follows(s, AddSymbol(s, length, t)) && Follows(AddSymbol(s, length, t), Emit(s, length, t))
            && Follows(s, Emit(s, length, t))
    ensures t.Match? ==> Follows(AddBytes(AddSymbol(s, length, t), LengthBytes(t.length - 3)), Emit(s, length, t))
  {
    hide Follows, Layout, Extends, AddField, AddBytes, LengthBytes, OffsetField, CodeWord, Fills, BitNo;
    SymbolBelow(t);
    CodeWordFacts(length, SymbolOf(t));
    var a := AddSymbol(s, length, t);
    FollowsField(s, CodeWord(length, SymbolOf(t)));
    FollowsMeans(s, a);
    FollowsSelf(a);
    if t.Match? {
      var b := AddBytes(a, LengthBytes(t.length - 3));
      FollowsBytes(a, LengthBytes(t.length - 3));
      FollowsMeans(a, b);
      OffsetFieldFacts(t);
      FollowsField(b, OffsetField(t));
      FollowsTransitive(a, b, AddField(b, OffsetField(t)));
      FollowsTransitive(s, a, AddField(b, OffsetField(t)));
    }
  }

  lemma EmittedNext(length: seq<nat>, tokens: seq<Token>, i: nat)
    requires i < |tokens|
    ensures Emitted(length, tokens[..i + 1]) == Emit(Emitted(length, tokens[..i]), length, tokens[i])
  {
    assert tokens[..i + 1][..i] == tokens[..i];
  }

  lemma {:induction false} EmittedLayout(length: seq<nat>, tokens: seq<Token>, i: nat)
    requires Codes(length, tokens) && i <= |tokens|
    ensures Layout(Emitted(length, tokens[..i]))
  {
    hide Layout, Follows, Emit, Fills, Encodable;
    if i == 0 {
      StartLayout();
    } else {
      EmittedLayout(length, tokens, i - 1);
      EmittedNext(length, tokens, i - 1);
      EmitFollows(Emitted(length, tokens[..i - 1]), length, tokens[i - 1]);
      FollowsMeans(Emitted(length, tokens[..i - 1]), Emitted(length, tokens[..i]));
    }
  }

  /** What has been written for the first tokens is never changed. */
  lemma {:induction false} EmittedFollows(length: seq<nat>, tokens: seq<Token>, i: nat)
    requires Codes(length, tokens) && i <= |tokens|
    ensures Follows(Emitted(length, tokens[..i]), Finished(length, tokens))
    decreases |tokens| - i
  {
    hide Layout, Follows, Emit, Fills, Encodable, CodeWord, AddField;
    EmittedLayout(length, tokens, i);
    if i == |tokens| {
      assert tokens[..i] == tokens;
      CodeWordFacts(length, 256);
      FollowsField(Emitted(length, tokens), CodeWord(length, 256));
    } else {
      EmittedNext(length, tokens, i);
      EmitFollows(Emitted(length, tokens[..i]), length, tokens[i]);
      EmittedFollows(length, tokens, i + 1);
      FollowsTransitive(Emitted(length, tokens[..i]), Emitted(length, tokens[..i + 1]), Finished(length, tokens));
    }
  }

  // ----- the second pass -----

  method PutBytes(writer: BitWriter, bytes: seq<Byte>)
    requires writer.Valid()
    modifies writer
    ensures writer.Valid() && writer.s == AddBytes(old(writer.s), bytes)
  {
    hide Writing, AddByte;
    for i := 0 to |bytes|
      invariant writer.Valid() && writer.s == AddBytes(old(writer.s), bytes[..i])
    {
      assert bytes[..i + 1][..i] == bytes[..i];
      writer.PutByte(bytes[i]);
    }
    assert bytes[..|bytes|] == bytes;
  }

  lemma EmitIs(s: Stream, length: seq<nat>, t: Token)
    requires Encodable(length, t)
    ensures Emit(s, length, t) ==
      if t.Match? then AddField(AddBytes(AddField(s, CodeWord(length, SymbolOf(t))), LengthBytes(t.length - 3)),
                                OffsetField(t))
      else AddField(s, CodeWord(length, SymbolOf(t)))
  {
  }
}
