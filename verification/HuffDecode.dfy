/** The decoder of the Huffman coding, with all its bounds checks, and why it undoes the encoder's second pass. */
module HuffDecode {
  import opened PrefixCodes
  import opened HuffmanTrees
  import opened CanonicalCodes
  import opened DecodeTables
  import opened Lookup
  import opened Registers
  import opened BitStreams
  import opened BitIO
  import opened Tokens
  import opened HuffEncode

  /** The match length less 3 and the offset after it; `low` is what the symbol says. */
  function LengthAt(src: seq<Byte>, pos: nat, low: nat): Option<(nat, nat)> {
    if low < 15 then Some((low, pos))
    else if pos >= |src| then None
    else if src[pos] < 255 then Some((src[pos] as int + 15, pos + 1))
    else if pos + 2 >= |src| then None
    else if Peek(src, pos + 1) < 255 + 15 then None
    else Some((Peek(src, pos + 1), pos + 3))
  }

  /** The long form of a length is read back. */
  lemma LengthReads(src: seq<Byte>, pos: nat, l: nat)
    requires l < 0x10000 && pos + |LengthBytes(l)| <= |src| && src[pos..pos + |LengthBytes(l)|] == LengthBytes(l)
    ensures LengthAt(src, pos, if l < 15 then l else 15) == Some((l, pos + |LengthBytes(l)|))
  {
    var b := LengthBytes(l);
    forall i | 0 <= i < |b| ensures src[pos + i] == b[i] {
      assert src[pos..pos + |b|][i] == src[pos + i];
    }
    if l >= 15 {
      assert src[pos + 0] == b[0];
      if l - 15 >= 255 {
        assert src[pos + 1] == b[1] && src[pos + 2] == b[2];
      }
    }
  }

  lemma {:induction false} BytesInSync(src: seq<Byte>, r: Reader, s: Stream, f: Stream, bytes: seq<Byte>)
    requires InSync(src, r, s, f) && Extends(AddBytes(s, bytes), f)
    ensures r.pos + |bytes| <= |src| && src[r.pos..r.pos + |bytes|] == bytes
    ensures InSync(src, r.(pos := r.pos + |bytes|), AddBytes(s, bytes), f)
  {
    hide InSync, Extends, AddByte, Layout;
    SyncLayout(src, r, s, f);
    if bytes != [] {
      var last := |bytes| - 1;
      var t := AddBytes(s, bytes[..last]);
      FollowsBytes(s, bytes[..last]);
      FollowsMeans(s, t);
      FollowsByte(t, bytes[last]);
      FollowsMeans(t, AddBytes(s, bytes));
      ExtendsTransitive(t, AddBytes(s, bytes), f);
      BytesInSync(src, r, s, f, bytes[..last]);
      ByteInSync(src, r.(pos := r.pos + last), t, f, bytes[last]);
      assert bytes == bytes[..last] + [bytes[last]];
    }
  }

  lemma SyncLayout(src: seq<Byte>, r: Reader, s: Stream, f: Stream)
    requires InSync(src, r, s, f)
    ensures Layout(s) && r.pos <= |src|
  {
  }

  /** The reader's registers are those of the writer after the first `i` tokens. */
  ghost predicate AtToken(src: seq<Byte>, r: Reader, length: seq<nat>, tokens: seq<Token>, i: nat) {
    && i <= |tokens| && Codes(length, tokens)
    && InSync(src, r, Emitted(length, tokens[..i]), Finished(length, tokens))
  }

  ghost function NextSymbol(tokens: seq<Token>, i: nat): nat {
    if i < |tokens| then SymbolOf(tokens[i]) else 256
  }

  ghost function AfterSymbol(length: seq<nat>, tokens: seq<Token>, i: nat): Stream
    requires i <= |tokens|
  {
    AddField(Emitted(length, tokens[..i]), CodeWord(length, NextSymbol(tokens, i)))
  }

  /** The next codeword is that of the next token, or of the end mark. */
  lemma SymbolInSync(src: seq<Byte>, r: Reader, length: seq<nat>, tokens: seq<Token>, i: nat)
    requires AtToken(src, r, length, tokens, i)
    ensures Begins(length, NextSymbol(tokens, i), r.mask)
    ensures var next := Refill(src, Drop(r, length[NextSymbol(tokens, i)]));
      next.Some? && InSync(src, next.value, AfterSymbol(length, tokens, i), Finished(length, tokens))
  {
    hide InSync, Extends, Layout, Fills, Canon, CodeWord, Value, Top, Follows, AddField, Refill, Drop, Emit,
         SymbolOf, Pow2;
    var s, f, k := Emitted(length, tokens[..i]), Finished(length, tokens), NextSymbol(tokens, i);
    if i < |tokens| {
      assert Encodable(length, tokens[i]);
      SymbolBelow(tokens[i]);
      SyncLayout(src, r, s, f);
      EmitFollows(s, length, tokens[i]);
      EmittedNext(length, tokens, i);
      EmittedFollows(length, tokens, i + 1);
      FollowsTransitive(AddSymbol(s, length, tokens[i]), Emitted(length, tokens[..i + 1]), f);
      FollowsMeans(AddSymbol(s, length, tokens[i]), f);
    } else {
      assert tokens[..i] == tokens;
      ExtendsSelf(f);
    }
    CodeWordFacts(length, k);
    SeesField(src, r, s, f, CodeWord(length, k));
    DropInSync(src, r, s, f, CodeWord(length, k));
  }

  /** What a match symbol and the stream after it say. The registers may still need a word. */
  datatype MatchRead = MatchRead(offset: nat, length: nat, r: Reader)

  function MatchAt(src: seq<Byte>, r: Reader, sym: nat): Option<MatchRead>
    requires 256 <= sym < 512
  {
    var k := (sym - 256) / 16;
    var len := LengthAt(src, r.pos, (sym - 256) % 16);
    if len.None? then None
    else Some(MatchRead(Pow2(k) + Top(r.mask, k), len.value.0 + 3, Drop(r, k).(pos := len.value.1)))
  }

  ghost predicate ReadsMatch(src: seq<Byte>, m: Option<MatchRead>, length: seq<nat>, tokens: seq<Token>, i: nat) {
    && i < |tokens| && tokens[i].Match? && m.Some? && m.value.offset == tokens[i].offset
    && m.value.length == tokens[i].length
    && Refill(src, m.value.r).Some? && AtToken(src, Refill(src, m.value.r).value, length, tokens, i + 1)
  }

  /** A match: its length, its offset, and the registers after it. */
  lemma MatchInSync(src: seq<Byte>, r: Reader, length: seq<nat>, tokens: seq<Token>, i: nat, sym: nat)
    requires 256 <= sym < 512 && i < |tokens| && Codes(length, tokens) && tokens[i].Match? && sym == SymbolOf(tokens[i])
    requires InSync(src, r, AfterSymbol(length, tokens, i), Finished(length, tokens))
    ensures ReadsMatch(src, MatchAt(src, r, sym), length, tokens, i)
  {
    hide InSync, Extends, Layout, Fills, CodeWord, Value, Top, Shifted, Follows, AddField, AddBytes, LengthBytes,
         LengthAt, OffsetField, BitNo, Refill, Pow2;
    var t, f, a := tokens[i], Finished(length, tokens), AfterSymbol(length, tokens, i);
    assert Encodable(length, t);
    OffsetFieldFacts(t);
    MatchSymbol(t);
    EmittedLayout(length, tokens, i);
    var s := Emitted(length, tokens[..i]);
    EmitFollows(s, length, t);
    EmittedNext(length, tokens, i);
    EmittedFollows(length, tokens, i + 1);
    var bytes := LengthBytes(t.length - 3);
    var b := AddBytes(a, bytes);
    FollowsTransitive(b, Emitted(length, tokens[..i + 1]), f);
    FollowsMeans(b, f);
    FollowsMeans(Emitted(length, tokens[..i + 1]), f);
    BytesInSync(src, r, a, f, bytes);
    LengthReads(src, r.pos, t.length - 3);
    var r' := r.(pos := r.pos + |bytes|);
    EmitIs(s, length, t);
    SeesField(src, r', b, f, OffsetField(t));
    DropInSync(src, r', b, f, OffsetField(t));
    assert Drop(r', BitNo(t.offset)) == Drop(r, BitNo(t.offset)).(pos := r'.pos);
  }

  lemma MatchSymbol(t: Token)
    requires t.Match? && 0 < t.offset < 0x10000 && 3 <= t.length
    ensures 256 <= SymbolOf(t) < 512
    ensures (SymbolOf(t) - 256) / 16 == BitNo(t.offset)
            && (SymbolOf(t) - 256) % 16 == if t.length - 3 < 15 then t.length - 3 else 15
  {
    hide BitNo;
    SymbolBelow(t);
  }

  /** The source is the encoding of these tokens, whose text has `size` bytes. */
  ghost predicate Encodes(src: seq<Byte>, length: seq<nat>, tokens: seq<Token>, size: nat) {
    Codes(length, tokens) && Image(src, Finished(length, tokens)) && Valid(tokens, 0xffff) && |Expanded(tokens)| == size
  }

  lemma AtStart(src: seq<Byte>, length: seq<nat>, tokens: seq<Token>)
    requires Codes(length, tokens) && Image(src, Finished(length, tokens))
    ensures 4 <= |src| && AtToken(src, Open(src), length, tokens, 0)
  {
    hide InSync, Extends, Layout, Follows, Fills, AddField, CodeWord;
    EmittedFollows(length, tokens, 0);
    FollowsMeans(Emitted(length, tokens[..0]), Finished(length, tokens));
    OpenInSync(src, Finished(length, tokens));
  }

  /** A literal leaves the registers at the next token. */
  lemma LiteralInSync(src: seq<Byte>, r: Reader, length: seq<nat>, tokens: seq<Token>, i: nat)
    requires i < |tokens| && Codes(length, tokens) && tokens[i].Literal?
    requires InSync(src, r, AfterSymbol(length, tokens, i), Finished(length, tokens))
    ensures SymbolOf(tokens[i]) == tokens[i].b as int && AtToken(src, r, length, tokens, i + 1)
  {
    hide InSync, Fills, CodeWord, AddField;
    EmittedNext(length, tokens, i);
  }

  /** What the decoder knows at a token if the source is an encoding. */
  ghost predicate Reached(src: seq<Byte>, r: Reader, length: seq<nat>, tokens: seq<Token>, i: nat, dst: seq<Byte>,
                          size: nat) {
    && AtToken(src, r, length, tokens, i) && dst == Expanded(tokens[..i])
    && Valid(tokens, 0xffff) && |Expanded(tokens)| == size
  }

  lemma ReachedStart(src: seq<Byte>, length: seq<nat>, tokens: seq<Token>, size: nat)
    requires Encodes(src, length, tokens, size) && 4 <= |src|
    ensures Reached(src, Open(src), length, tokens, 0, [], size)
  {
    hide AtToken, Codes, Image, Valid;
    AtStart(src, length, tokens);
    assert tokens[..0] == [];
  }

  /** If the text is complete no token is left, and otherwise some is; what has been decoded is its beginning. */
  lemma ReachedPrefix(src: seq<Byte>, r: Reader, length: seq<nat>, tokens: seq<Token>, i: nat, dst: seq<Byte>,
                      size: nat)
    requires Reached(src, r, length, tokens, i, dst, size)
    ensures i <= |tokens| && dst <= Expanded(tokens) && (|dst| == size <==> i == |tokens|)
  {
    hide Valid, InSync, Codes;
    ExpandedProgress(tokens, 0xffff, i);
  }

  /** The step over a literal. */
  lemma ReachedLiteral(src: seq<Byte>, r: Reader, length: seq<nat>, tokens: seq<Token>, i: nat, dst: seq<Byte>,
                       size: nat, r': Reader)
    requires Reached(src, r, length, tokens, i, dst, size) && i < |tokens| && tokens[i].Literal?
    requires InSync(src, r', AfterSymbol(length, tokens, i), Finished(length, tokens))
    ensures SymbolOf(tokens[i]) == tokens[i].b as int
    ensures Reached(src, r', length, tokens, i + 1, dst + [tokens[i].b], size)
  {
    hide InSync, Valid, Fills;
    LiteralInSync(src, r', length, tokens, i);
    ExpandedNext(tokens, i);
  }

  /** The step over a match. */
  lemma ReachedMatch(src: seq<Byte>, r: Reader, length: seq<nat>, tokens: seq<Token>, i: nat, dst: seq<Byte>,
                     size: nat, m: Option<MatchRead>)
    requires Reached(src, r, length, tokens, i, dst, size) && ReadsMatch(src, m, length, tokens, i)
    ensures m.Some? && 1 <= m.value.offset <= |dst| && 3 <= m.value.length && Refill(src, m.value.r).Some?
    ensures Reached(src, Refill(src, m.value.r).value, length, tokens, i + 1,
                    Copied(dst, m.value.offset, m.value.length), size)
  {
    hide AtToken, Refill;
    ExpandedNext(tokens, i);
    assert Applies(Expanded(tokens[..i]), tokens[i], 0xffff);
  }

  /** A match cut off at `stop` still gives the beginning of the text. */
  lemma ReachedCut(src: seq<Byte>, r: Reader, length: seq<nat>, tokens: seq<Token>, i: nat, dst: seq<Byte>,
                   size: nat, stop: nat, offset: nat, n: nat)
    requires 1 <= offset <= |dst| <= stop < |dst| + n
             && Reached(src, r, length, tokens, i, Copied(dst, offset, n), size)
    ensures stop < size && Copied(dst, offset, stop - |dst|) == Expanded(tokens)[..stop]
  {
    hide Valid, InSync, Codes;
    ExpandedCut(tokens, i, dst, offset, n, stop);
  }

  // ----- what decoding means -----

  /** The symbol whose codeword the register begins with. */
  ghost function SymbolAt(length: seq<nat>, mask: nat): (s: nat)
    requires |length| == 512
    ensures s < 512
  {
    if s :| Begins(length, s, mask) then s else 0
  }

  lemma SymbolIs(length: seq<nat>, s: int, mask: nat)
    requires |length| == 512 && Begins(length, s, mask)
    ensures SymbolAt(length, mask) == s
  {
    hide Begins;
    OneBegins(length, s, SymbolAt(length, mask), mask);
  }

  /** The registers after symbol `sym`. */
  ghost function AfterCode(src: seq<Byte>, length: seq<nat>, r: Reader, sym: int): Option<Reader> {
    Refill(src, Drop(r, At(length, sym)))
  }

  /** Decoding with every check, from a place between two tokens on: up to `stop` of the `size` bytes of a text, of
      which `dst` is there already. */
  ghost function Careful(src: seq<Byte>, length: seq<nat>, size: nat, stop: nat, r: Reader, dst: seq<Byte>): Decoded
    requires |length| == 512
    decreases stop - |dst|, 2
  {
    var sym := SymbolAt(length, r.mask);
    var next := AfterCode(src, length, r, sym);
    if next.None? then Decoded(Failed, r.pos) else CarefulSymbol(src, length, size, stop, sym, next.value, dst)
  }

  /** The same when a symbol has been read. */
  ghost function CarefulSymbol(src: seq<Byte>, length: seq<nat>, size: nat, stop: nat, sym: nat, r: Reader,
                               dst: seq<Byte>): Decoded
    requires |length| == 512 && sym < 512
    decreases stop - |dst|, 1
  {
    if |dst| >= stop then Decoded(Done(dst, |dst| == size && sym == 256), r.pos)
    else if sym < 256 then Careful(src, length, size, stop, r, dst + [sym])
    else
      var m := MatchAt(src, r, sym);
      if m.None? then Decoded(Failed, r.pos)
      else
        MatchFacts(src, r, sym);
        CarefulCopy(src, length, size, stop, m.value, dst)
  }

  /** The same when a match has been read. */
  ghost function CarefulCopy(src: seq<Byte>, length: seq<nat>, size: nat, stop: nat, m: MatchRead,
                             dst: seq<Byte>): Decoded
    requires |length| == 512 && |dst| < stop && 1 <= m.offset && 3 <= m.length
    decreases stop - |dst|, 0
  {
    if m.offset > |dst| then Decoded(Failed, m.r.pos)
    else if |dst| + m.length > stop then Decoded(Done(Copied(dst, m.offset, stop - |dst|), false), m.r.pos)
    else
      var next := Refill(src, m.r);
      if next.None? then Decoded(Failed, m.r.pos)
      else Careful(src, length, size, stop, next.value, Copied(dst, m.offset, m.length))
  }

  /** From the beginning of the source. */
  ghost function HuffDecoded(src: seq<Byte>, length: seq<nat>, size: nat, stop: nat): Decoded
    requires 4 <= |src| && |length| == 512
  {
    Careful(src, length, size, stop, Open(src), [])
  }

  lemma {:induction false} CarefulDecodes(src: seq<Byte>, length: seq<nat>, size: nat, stop: nat, r: Reader,
                                          dst: seq<Byte>, tokens: seq<Token>, i: nat)
    requires |length| == 512 && |dst| <= stop <= size && Reached(src, r, length, tokens, i, dst, size)
    ensures Careful(src, length, size, stop, r, dst).outcome == Done(Expanded(tokens)[..stop], stop == size)
    decreases stop - |dst|
  {
    hide Reached, AtToken, MatchAt, ReadsMatch, Refill, SymbolOf, Valid, Expanded, Copied, Begins, Drop, Codes, InSync,
         SymbolAt;
    ReachedPrefix(src, r, length, tokens, i, dst, size);
    ReachedSymbol(src, r, length, tokens, i, dst, size);
    var sym := NextSymbol(tokens, i);
    SymbolIs(length, sym, r.mask);
    var next := Refill(src, Drop(r, length[sym])).value;
    assert Careful(src, length, size, stop, r, dst) == CarefulSymbol(src, length, size, stop, sym, next, dst);
    if |dst| < stop {
      if sym < 256 {
        LiteralSymbol(src, r, length, tokens, i, sym);
        ReachedLiteral(src, r, length, tokens, i, dst, size, next);
        CarefulDecodes(src, length, size, stop, next, dst + [tokens[i].b], tokens, i + 1);
      } else {
        MatchesSymbol(src, r, length, tokens, i, sym);
        MatchInSync(src, next, length, tokens, i, sym);
        ReachedMatch(src, r, length, tokens, i, dst, size, MatchAt(src, next, sym));
        var m := MatchAt(src, next, sym).value;
        assert CarefulSymbol(src, length, size, stop, sym, next, dst) == CarefulCopy(src, length, size, stop, m, dst);
        if |dst| + m.length > stop {
          ReachedCut(src, Refill(src, m.r).value, length, tokens, i + 1, dst, size, stop, m.offset, m.length);
        } else {
          CarefulDecodes(src, length, size, stop, Refill(src, m.r).value, Copied(dst, m.offset, m.length), tokens,
                         i + 1);
        }
      }
    }
  }

  /** On an encoding: the text up to `stop`, and the end mark exactly at the end. */
  lemma EncodingDecodes(src: seq<Byte>, length: seq<nat>, tokens: seq<Token>, size: nat, stop: nat)
    requires 4 <= |src| && |length| == 512 && Encodes(src, length, tokens, size) && stop <= size
    ensures HuffDecoded(src, length, size, stop).outcome == Done(Expanded(tokens)[..stop], stop == size)
  {
    hide Encodes, Reached, Careful, Expanded;
    ReachedStart(src, length, tokens, size);
    CarefulDecodes(src, length, size, stop, Open(src), [], tokens, 0);
  }

  /** On any source: no more than asked for, and nothing read beyond the end. */
  lemma {:induction false} CarefulWithin(src: seq<Byte>, length: seq<nat>, size: nat, stop: nat, r: Reader,
                                         dst: seq<Byte>)
    requires |length| == 512 && |dst| <= stop && r.pos <= |src|
    ensures var d := Careful(src, length, size, stop, r, dst);
      d.last <= |src| && (d.outcome.Done? ==> dst <= d.outcome.dst && |d.outcome.dst| <= stop)
    decreases stop - |dst|
  {
    hide Refill, MatchAt, Copied, SymbolAt;
    var sym := SymbolAt(length, r.mask);
    var x := Drop(r, At(length, sym));
    if Refill(src, x).Some? {
      RefillWithin(src, x);
      var next := Refill(src, x).value;
      if |dst| < stop {
        if sym < 256 {
          CarefulWithin(src, length, size, stop, next, dst + [sym]);
        } else if MatchAt(src, next, sym).Some? {
          MatchFacts(src, next, sym);
          MatchWithin(src, next, sym);
          var m := MatchAt(src, next, sym).value;
          assert CarefulSymbol(src, length, size, stop, sym, next, dst)
              == CarefulCopy(src, length, size, stop, m, dst);
          if m.offset <= |dst| && |dst| + m.length <= stop && Refill(src, m.r).Some? {
            RefillWithin(src, m.r);
            CarefulWithin(src, length, size, stop, Refill(src, m.r).value, Copied(dst, m.offset, m.length));
          }
        }
      }
    }
  }

  lemma RefillWithin(src: seq<Byte>, r: Reader)
    requires r.pos <= |src| && Refill(src, r).Some?
    ensures Refill(src, r).value.pos <= |src|
  {
    hide Low32, Joined, Peek;
  }

  lemma MatchWithin(src: seq<Byte>, r: Reader, sym: nat)
    requires 256 <= sym < 512 && MatchAt(src, r, sym).Some? && r.pos <= |src|
    ensures MatchAt(src, r, sym).value.r.pos <= |src|
  {
    hide Pow2, Top, Shifted, Peek;
  }

  lemma MatchFacts(src: seq<Byte>, r: Reader, sym: nat)
    requires 256 <= sym < 512 && MatchAt(src, r, sym).Some?
    ensures var m := MatchAt(src, r, sym).value; 1 <= m.offset && 3 <= m.length && m.r.mask < Pow2(32)
  {
    hide Pow2, Top, Shifted, LengthAt, Refill;
    MaskBelow(src, r, (sym - 256) / 16);
  }

  lemma ReachedSymbol(src: seq<Byte>, r: Reader, length: seq<nat>, tokens: seq<Token>, i: nat, dst: seq<Byte>,
                      size: nat)
    requires Reached(src, r, length, tokens, i, dst, size)
    ensures AtToken(src, r, length, tokens, i) && Codes(length, tokens) && i <= |tokens| && |length| == 512
    ensures NextSymbol(tokens, i) < 512 && Begins(length, NextSymbol(tokens, i), r.mask)
    ensures var next := Refill(src, Drop(r, length[NextSymbol(tokens, i)]));
      next.Some? && InSync(src, next.value, AfterSymbol(length, tokens, i), Finished(length, tokens))
  {
    hide InSync, Fills, CodeWord, AddField, Refill, Drop, Valid, Canon, Top;
    SymbolInSync(src, r, length, tokens, i);
  }

  /** A symbol below 256 is that of a literal. */
  lemma LiteralSymbol(src: seq<Byte>, r: Reader, length: seq<nat>, tokens: seq<Token>, i: nat, sym: nat)
    requires AtToken(src, r, length, tokens, i) && sym == NextSymbol(tokens, i) && sym < 256
    ensures i < |tokens| && tokens[i].Literal? && tokens[i].b as int == sym
  {
    hide InSync, Fills, BitNo;
    if i < |tokens| {
      assert Encodable(length, tokens[i]);
    }
  }

  /** A symbol from 256 on, if tokens are left, is that of a match. */
  lemma MatchesSymbol(src: seq<Byte>, r: Reader, length: seq<nat>, tokens: seq<Token>, i: nat, sym: nat)
    requires AtToken(src, r, length, tokens, i) && sym == NextSymbol(tokens, i) && sym >= 256 && i < |tokens|
    ensures tokens[i].Match?
  {
  }
}
