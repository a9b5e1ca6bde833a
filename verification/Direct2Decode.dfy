/** The decoder of the plain coding, with all its bounds checks, and why it undoes the writer. */
module Direct2Decode {
  import opened PrefixCodes
  import opened Registers
  import opened BitStreams
  import opened Tokens
  import opened PlainStreams
  import opened Direct2Encode

  // ----- flags -----

  function Word32(src: seq<Byte>, p: nat): nat
    requires p + 4 <= |src|
  {
    src[p] as int + 0x100 * (src[p + 1] as int) + 0x10000 * (src[p + 2] as int) + 0x1000000 * (src[p + 3] as int)
  }

  datatype FlagRead = FlagRead(flag: bool, pos: nat, bmask: nat)

  /** The next flag is the top bit of the mask, whose lowest set bit only marks the end: when that one comes to the top,
      the next word is loaded. */
  function NextFlag(src: seq<Byte>, pos: nat, bmask: nat): Option<FlagRead> {
    if bmask < Pow2(31) then Some(FlagRead(false, pos, Shifted(bmask, 1)))
    else if Shifted(bmask, 1) != 0 then Some(FlagRead(true, pos, Shifted(bmask, 1)))
    else if pos + 3 >= |src| then None
    else
      var tag := Word32(src, pos);
      Some(FlagRead(tag >= Pow2(31), pos + 4, Low32(2 * tag + 1)))
  }

  /** The flags of the current word that are left after `n` flags. */
  ghost function FlagsLeft(f: Plain, n: nat): (u: seq<bool>)
    requires n <= |AllFlags(f)|
    ensures |u| <= 31 && (|u| == 0 <==> n % 32 == 0)
  {
    AllFlags(f)[n..32 * ((n + 31) / 32)]
  }

  lemma FlagsLeftNext(f: Plain, n: nat)
    requires n < |AllFlags(f)|
    ensures n % 32 != 0 ==> FlagsLeft(f, n) == [AllFlags(f)[n]] + FlagsLeft(f, n + 1)
    ensures n % 32 == 0 ==> n + 32 <= |AllFlags(f)| && AllFlags(f)[n..n + 32] == [AllFlags(f)[n]] + FlagsLeft(f, n + 1)
  {
    hide AllFlags;
    if n % 32 == 0 {
      assert (n + 1 + 31) / 32 == n / 32 + 1;
      HeadOfSlice(AllFlags(f), n, n + 32);
    } else {
      assert (n + 1 + 31) / 32 == (n + 31) / 32;
      HeadOfSlice(AllFlags(f), n, 32 * ((n + 31) / 32));
    }
  }

  lemma HeadOfSlice<T>(q: seq<T>, a: nat, k: nat)
    requires a < k <= |q|
    ensures q[a..k] == [q[a]] + q[a + 1..k]
  {
  }

  /** The mask after `n` flags. */
  ghost predicate MaskAfter(bmask: nat, f: Plain, n: nat) {
    n <= |AllFlags(f)| && bmask == Aligned(FlagsLeft(f, n) + [true])
  }

  lemma TopBit(u: seq<bool>)
    requires 0 < |u| <= 32
    ensures Aligned(u) >= Pow2(31) <==> u[0]
  {
    hide Pow2, Over, Left, Value;
    TopAligned(u, 1);
    DivMod(Aligned(u), Pow2(31));
    ValueOne();
    assert Value([false]) == 0 by { ValueZero(); }
    assert u[..1] == [u[0]];
    if Over(Aligned(u), Pow2(31)) == 0 {
    } else {
      ScaleLe(Pow2(31), 1, Over(Aligned(u), Pow2(31)));
    }
  }

  lemma ValueZero()
    ensures Value([false]) == 0
  {
    assert [false][..0] == [];
  }

  lemma MarkerLeft(u: seq<bool>)
    requires 0 < |u| <= 32 && u[|u| - 1]
    ensures Aligned(u) != 0
  {
    hide Pow2;
    ScaleLe(Pow2(32 - |u|), 1, Value(u));
  }

  lemma NothingLeft()
    ensures Aligned([]) == 0
  {
  }

  /** A mask with flags left gives the next one. */
  lemma FlagFromMask(src: seq<Byte>, pos: nat, bmask: nat, u: seq<bool>)
    requires 0 < |u| <= 31 && bmask == Aligned(u + [true])
    ensures NextFlag(src, pos, bmask) == Some(FlagRead(u[0], pos, Aligned(u[1..] + [true])))
  {
    hide Pow2, Aligned, Shifted;
    TopBit(u + [true]);
    ShiftAligned(u + [true], 1);
    assert (u + [true])[1..] == u[1..] + [true];
    MarkerLeft(u[1..] + [true]);
  }

  lemma BytesOfWord(v: nat)
    requires v < 0x100000000
    ensures ByteOf(v, 0) as int + 0x100 * (ByteOf(v, 1) as int) + 0x10000 * (ByteOf(v, 2) as int) +
              0x1000000 * (ByteOf(v, 3) as int) == v
  {
    assert v / 0x100 / 0x100 == v / 0x10000 && v / 0x10000 / 0x100 == v / 0x1000000;
  }

  lemma WholeAligned(t: seq<bool>)
    requires |t| == 32
    ensures Aligned(t) == Value(t)
  {
    hide Value;
    PowZero();
  }

  /** A loaded word gives its first flag and leaves the others before the marker. */
  lemma FlagFromWord(t: seq<bool>)
    requires |t| == 32
    ensures Value(t) < Pow2(32) && (Value(t) >= Pow2(31) <==> t[0])
    ensures Low32(2 * Value(t) + 1) == Aligned(t[1..] + [true])
  {
    hide Pow2, Over, Left, Value, Aligned;
    ValueBelow(t);
    WholeAligned(t);
    TopBit(t);
    ValueNext(t, true);
    var u := t[1..] + [true];
    WholeAligned(u);
    assert t + [true] == [t[0]] + u;
    ValueConcat([t[0]], u);
    ValueBelow(u);
    ValueOne();
    ValueZero();
    QuotientIs(Value(t + [true]), Pow2(32), if t[0] then 1 else 0, Value(u));
  }

  ghost predicate TagBytes(src: seq<Byte>, p: nat, v: nat)
    requires p + 4 <= |src|
  {
    src[p] == ByteOf(v, 0) && src[p + 1] == ByteOf(v, 1) && src[p + 2] == ByteOf(v, 2) && src[p + 3] == ByteOf(v, 3)
  }

  lemma FlagFromSource(src: seq<Byte>, pos: nat, t: seq<bool>)
    requires |t| == 32 && pos + 4 <= |src|
    requires TagBytes(src, pos, Value(t))
    ensures NextFlag(src, pos, Aligned([true])) == Some(FlagRead(t[0], pos + 4, Aligned(t[1..] + [true])))
  {
    hide Pow2, Value, ByteOf, Shifted, Low32, Aligned;
    FlagFromWord(t);
    Pow32();
    BytesOfWord(Value(t));
    TopBit([true]);
    ShiftAligned([true], 1);
    assert [true][1..] == [];
    NothingLeft();
  }

  // ----- where the decoder is -----

  /** Between two tokens. A word that was reserved after the last flag is not loaded yet. */
  ghost predicate Between(src: seq<Byte>, pos: nat, bmask: nat, quadPtr: nat, s: Plain, f: Plain) {
    && IsPlain(src, f) && Follows(s, f) && QuadWaits(s, quadPtr) && MaskAfter(bmask, f, |s.flags|)
    && (if |s.flags| % 32 == 0 then pos + 4 == |s.cells| && s.cells[pos..] == TagCells(|s.flags| / 32)
        else pos == |s.cells|)
  }

  /** The byte at a cell of a word. */
  lemma WordByte(src: seq<Byte>, o: nat, f: Plain, n: nat, j: nat)
    requires IsPlain(src, f) && o < |f.cells| && n % 32 == 0 && f.cells[o] == TagCell(n / 32, j)
             && n + 32 <= |AllFlags(f)|
    ensures src[o] == ByteOf(Value(AllFlags(f)[n..n + 32]), j)
  {
    hide Value, ByteOf;
    assert src[o] == CellByte(f.cells[o], AllFlags(f), f.quads);
  }

  /** The bytes at the cells of a word. */
  lemma WordInSource(src: seq<Byte>, pos: nat, s: Plain, f: Plain)
    requires IsPlain(src, f) && Follows(s, f) && |s.flags| % 32 == 0 && pos + 4 == |s.cells|
             && s.cells[pos..] == TagCells(|s.flags| / 32)
    ensures pos + 4 <= |src| && |s.flags| + 32 <= |AllFlags(f)|
    ensures TagBytes(src, pos, Value(AllFlags(f)[|s.flags|..|s.flags| + 32]))
  {
    hide Value, ByteOf;
    var n := |s.flags|;
    assert s.cells[pos] == s.cells[pos..][0] && s.cells[pos + 1] == s.cells[pos..][1];
    assert s.cells[pos + 2] == s.cells[pos..][2] && s.cells[pos + 3] == s.cells[pos..][3];
    WordByte(src, pos, f, n, 0);
    WordByte(src, pos + 1, f, n, 1);
    WordByte(src, pos + 2, f, n, 2);
    WordByte(src, pos + 3, f, n, 3);
  }

  /** The next flag, and where the decoder is then: after everything written before the token. */
  lemma NextFlagRead(src: seq<Byte>, pos: nat, bmask: nat, quadPtr: nat, s: Plain, f: Plain)
    requires Between(src, pos, bmask, quadPtr, s, f)
    ensures |s.flags| < |AllFlags(f)| && NextFlag(src, pos, bmask).Some?
    ensures var r := NextFlag(src, pos, bmask).value;
      r.flag == AllFlags(f)[|s.flags|] && r.pos == |s.cells| && MaskAfter(r.bmask, f, |s.flags| + 1)
  {
    hide Value, TagBytes, NextFlag, Aligned, IsPlain, FlagsLeft;
    var n, all := |s.flags|, AllFlags(f);
    FlagsLeftNext(f, n);
    if n % 32 == 0 {
      WordInSource(src, pos, s, f);
      var t := all[n..n + 32];
      assert FlagsLeft(f, n) + [true] == [true] && t[1..] == FlagsLeft(f, n + 1);
      FlagFromSource(src, pos, t);
    } else {
      var u := FlagsLeft(f, n);
      assert u[1..] == FlagsLeft(f, n + 1);
      FlagFromMask(src, pos, bmask, u);
    }
  }

  // ----- matches -----

  lemma RawInSource(src: seq<Byte>, s: Plain, f: Plain, bytes: seq<Byte>)
    requires IsPlain(src, f) && Follows(AddRaw(s, bytes), f)
    ensures |s.cells| + |bytes| <= |src| && src[|s.cells|..|s.cells| + |bytes|] == bytes
  {
    hide AllFlags, TagByte, QuadByte;
    var p := |s.cells|;
    forall i | 0 <= i < |bytes| ensures src[p + i] == bytes[i] {
      assert f.cells[p + i] == AddRaw(s, bytes).cells[p + i] == RawCell(bytes[i]);
      assert src[p + i] == CellByte(f.cells[p + i], AllFlags(f), f.quads);
    }
  }

  datatype QuadRead = QuadRead(quad: nat, pos: nat, quadPtr: nat)

  /** The next four-bit length: the low half of a new byte, or the high half of the one kept. */
  function NextQuad(src: seq<Byte>, pos: nat, quadPtr: nat): Option<QuadRead> {
    if quadPtr == 0 then if pos >= |src| then None else Some(QuadRead(src[pos] % 16, pos + 1, pos))
    else if quadPtr >= |src| then None else Some(QuadRead(src[quadPtr] / 16, pos, 0))
  }

  lemma QuadInSource(src: seq<Byte>, s: Plain, f: Plain, q: nat, quadPtr: nat)
    requires IsPlain(src, f) && Follows(AddQuad(s, q), f) && QuadWaits(s, quadPtr) && 0 < |s.cells|
    ensures NextQuad(src, |s.cells|, quadPtr).Some?
    ensures var r := NextQuad(src, |s.cells|, quadPtr).value;
      r.quad == q && r.pos == |AddQuad(s, q).cells| && QuadWaits(AddQuad(s, q), r.quadPtr)
  {
    hide AllFlags, TagByte;
    var t, k := AddQuad(s, q), |s.quads| / 2;
    var o := if |s.quads| % 2 == 0 then |s.cells| else quadPtr;
    assert f.cells[o] == t.cells[o] == QuadCell(k);
    assert src[o] == CellByte(f.cells[o], AllFlags(f), f.quads) == QuadByte(f.quads, k);
    assert f.quads[|s.quads|] == t.quads[|s.quads|] == q;
    if |s.quads| % 2 == 1 {
      assert f.quads[2 * k] < 16;
    }
  }

  datatype LongRead = LongRead(length: nat, pos: nat)

  /** What follows the four-bit length 15. */
  function NextLength(src: seq<Byte>, pos: nat): Option<LongRead> {
    if pos >= |src| then None
    else if src[pos] < 255 then Some(LongRead(src[pos] as int + 15 + 7, pos + 1))
    else if pos + 2 >= |src| || Peek(src, pos + 1) < 255 + 15 + 7 then None
    else Some(LongRead(Peek(src, pos + 1), pos + 3))
  }

  lemma LengthInSource(src: seq<Byte>, pos: nat, l: nat)
    requires 22 <= l < 0x10000 && pos + |MoreLength(l)| <= |src| && src[pos..pos + |MoreLength(l)|] == MoreLength(l)
    ensures NextLength(src, pos) == Some(LongRead(l, pos + |MoreLength(l)|))
  {
    var b := MoreLength(l);
    assert src[pos] == src[pos..pos + |b|][0] == b[0];
    if l - 22 >= 255 {
      assert src[pos + 1] == src[pos..pos + |b|][1] == b[1] && src[pos + 2] == src[pos..pos + |b|][2] == b[2];
    }
  }

  datatype MatchRead = MatchRead(offset: nat, length: nat, pos: nat, quadPtr: nat)

  function NextMatch(src: seq<Byte>, pos: nat, quadPtr: nat): Option<MatchRead> {
    if pos + 1 >= |src| then None
    else
      var pair := Peek(src, pos);
      var offset := pair / 8 + 1;
      if pair % 8 < 7 then Some(MatchRead(offset, pair % 8 + 3, pos + 2, quadPtr))
      else
        var q := NextQuad(src, pos + 2, quadPtr);
        if q.None? then None
        else if q.value.quad < 15 then Some(MatchRead(offset, q.value.quad + 7 + 3, q.value.pos, q.value.quadPtr))
        else
          var l := NextLength(src, q.value.pos);
          if l.None? then None else Some(MatchRead(offset, l.value.length + 3, l.value.pos, q.value.quadPtr))
  }

  lemma PairInSource(src: seq<Byte>, pos: nat, t: Token)
    requires t.Match? && Fits(t) && pos + 2 <= |src| && src[pos..pos + 2] == TwoBytes(PairOf(t.offset, t.length))
    ensures Peek(src, pos) / 8 + 1 == t.offset && Peek(src, pos) % 8 == if t.length - 3 < 7 then t.length - 3 else 7
  {
    var b := TwoBytes(PairOf(t.offset, t.length));
    assert src[pos] == src[pos..pos + 2][0] == b[0] && src[pos + 1] == src[pos..pos + 2][1] == b[1];
  }

  /** A match is read back, whichever of the four forms its length has. */
  lemma MatchInSource(src: seq<Byte>, s: Plain, f: Plain, t: Token, quadPtr: nat)
    requires t.Match? && Fits(t) && IsPlain(src, f) && Follows(AddBody(s, t), f) && QuadWaits(s, quadPtr)
    ensures NextMatch(src, |s.cells|, quadPtr).Some?
    ensures var r := NextMatch(src, |s.cells|, quadPtr).value;
      r.offset == t.offset && r.length == t.length && r.pos == |AddBody(s, t).cells|
          && QuadWaits(AddBody(s, t), r.quadPtr)
  {
    hide IsPlain, TwoBytes, NextQuad, NextLength, MoreLength, RawCells;
    var l, two := t.length - 3, TwoBytes(PairOf(t.offset, t.length));
    assert |two| == 2 by { TwoLong(PairOf(t.offset, t.length)); }
    var a := AddRaw(s, two);
    FollowsBody(s, t);
    RawInSource(src, s, f, two);
    PairInSource(src, |s.cells|, t);
    if l >= 7 {
      var b := AddQuad(a, QuadOf(l));
      FollowsTransitive(a, AddBody(s, t), f);
      FollowsTransitive(b, AddBody(s, t), f);
      QuadInSource(src, a, f, QuadOf(l), quadPtr);
      NoMore(l);
      RawInSource(src, b, f, MoreLength(l));
      if l >= 22 {
        LengthInSource(src, |b.cells|, l);
      }
    }
  }

  lemma TwoLong(v: nat)
    requires v < 0x10000
    ensures |TwoBytes(v)| == 2
  {
  }

  lemma NoMore(l: nat)
    requires l < 0x10000
    ensures l < 22 ==> MoreLength(l) == []
  {
  }

  // ----- the decoder -----

  /** The source is the plain coding of these tokens, whose text has `size` bytes. */
  ghost predicate Encodes(src: seq<Byte>, tokens: seq<Token>, size: nat) {
    && Valid(tokens, 0x2000) && |Expanded(tokens)| == size
    && (forall k :: 0 <= k < |tokens| ==> Fits(tokens[k]))
    && IsPlain(src, PlainOf(tokens))
  }

  /** The decoder is before token `i` and has decoded the ones before. */
  ghost predicate Reached(src: seq<Byte>, pos: nat, bmask: nat, quadPtr: nat, tokens: seq<Token>, i: nat,
                          dst: seq<Byte>, size: nat) {
    && i <= |tokens| && Encodes(src, tokens, size) && dst == Expanded(tokens[..i])
    && Between(src, pos, bmask, quadPtr, PlainOf(tokens[..i]), PlainOf(tokens))
  }

  lemma ReachedStart(src: seq<Byte>, tokens: seq<Token>, size: nat)
    requires Encodes(src, tokens, size)
    ensures Reached(src, 0, Pow2(31), 0, tokens, 0, [], size)
  {
    hide Valid, IsPlain, Fits, Pow2, Between;
    assert tokens[..0] == [];
    PlainFollows(tokens, 0);
    BetweenStarts(src, PlainOf(tokens));
  }

  /** A bare marker stands for the jump to the place where a word is loaded. */
  lemma BetweenStarts(src: seq<Byte>, f: Plain)
    requires IsPlain(src, f) && Follows(StartPlain(), f)
    ensures Between(src, 0, Pow2(31), 0, StartPlain(), f)
  {
    hide IsPlain, Pow2, Value;
    assert FlagsLeft(f, 0) + [true] == [true];
    ValueOne();
    PowZero();
  }

  /** Token `i` of the sequence is the one its flag announces; after the last one comes padding. */
  lemma FlagOfToken(tokens: seq<Token>, i: nat)
    requires i <= |tokens| && forall k :: 0 <= k < |tokens| ==> Fits(tokens[k])
    ensures i < |AllFlags(PlainOf(tokens))|
            && AllFlags(PlainOf(tokens))[i] == if i < |tokens| then tokens[i].Match? else true
  {
    hide Fits, AddBody, PlainOf;
    assert tokens[..|tokens|] == tokens;
    FlagsOfTokens(tokens, |tokens|);
    if i < |tokens| {
      FlagsOfTokens(tokens, i);
      PlainNext(tokens, i);
      PlainFollows(tokens, i + 1);
      BodyFlags(PlainOf(tokens[..i]), tokens[i]);
      assert PlainOf(tokens[..i + 1]).flags[i] == tokens[i].Match?;
    }
  }

  /** The next flag and what it announces. */
  lemma ReachedFlag(src: seq<Byte>, pos: nat, bmask: nat, quadPtr: nat, tokens: seq<Token>, i: nat, dst: seq<Byte>,
                    size: nat)
    requires Reached(src, pos, bmask, quadPtr, tokens, i, dst, size)
    ensures i <= |tokens| && dst <= Expanded(tokens) && |Expanded(tokens)| == size && (|dst| == size <==> i == |tokens|)
    ensures NextFlag(src, pos, bmask).Some?
    ensures var r := NextFlag(src, pos, bmask).value;
      && r.flag == (if i < |tokens| then tokens[i].Match? else true)
      && Announced(src, r, quadPtr, tokens, i) && (i == |tokens| ==> r.pos == |src|)
  {
    hide Valid, Fits, NextFlag, MaskAfter, IsPlain, QuadWaits, Follows, PlainOf, AllFlags, Expanded;
    var s, f := PlainOf(tokens[..i]), PlainOf(tokens);
    ExpandedProgress(tokens, 0x2000, i);
    NextFlagRead(src, pos, bmask, quadPtr, s, f);
    FlagsOfTokens(tokens, i);
    FlagOfToken(tokens, i);
    if i == |tokens| {
      assert tokens[..i] == tokens;
      PlainSize(src, f);
    }
  }

  /** A flag has been read, and the decoder is at the bytes of token `i`. */
  ghost predicate Announced(src: seq<Byte>, r: FlagRead, quadPtr: nat, tokens: seq<Token>, i: nat) {
    && i <= |tokens| && (forall k :: 0 <= k < |tokens| ==> Fits(tokens[k]))
    && var s, f := PlainOf(tokens[..i]), PlainOf(tokens);
    && IsPlain(src, f) && QuadWaits(s, quadPtr) && r.pos == |s.cells| && MaskAfter(r.bmask, f, |s.flags| + 1)
  }

  lemma BetweenAgain(src: seq<Byte>, r: FlagRead, quadPtr: nat, tokens: seq<Token>, i: nat, pos': nat, quadPtr': nat)
    requires Announced(src, r, quadPtr, tokens, i) && i < |tokens|
    requires pos' == |AddBody(PlainOf(tokens[..i]), tokens[i]).cells|
             && QuadWaits(AddBody(PlainOf(tokens[..i]), tokens[i]), quadPtr')
    ensures Between(src, pos', r.bmask, quadPtr', PlainOf(tokens[..i + 1]), PlainOf(tokens))
  {
    hide Fits, IsPlain, MaskAfter, AddBody, Between, AddFlag, QuadWaits;
    PlainNext(tokens, i);
    PlainFollows(tokens, i + 1);
    BodyFlags(PlainOf(tokens[..i]), tokens[i]);
    FlagAdded(src, pos', r.bmask, quadPtr', AddBody(PlainOf(tokens[..i]), tokens[i]), tokens[i].Match?,
              PlainOf(tokens));
  }

  /** After the bytes of a token, whose flag has been read, the decoder is between two tokens again. */
  lemma FlagAdded(src: seq<Byte>, pos: nat, bmask: nat, quadPtr: nat, b: Plain, flag: bool, f: Plain)
    requires IsPlain(src, f) && Follows(AddFlag(b, flag), f) && MaskAfter(bmask, f, |b.flags| + 1)
    requires pos == |b.cells| && QuadWaits(b, quadPtr)
    ensures Between(src, pos, bmask, quadPtr, AddFlag(b, flag), f)
  {
    hide IsPlain, MaskAfter;
    if |AddFlag(b, flag).flags| % 32 == 0 {
      assert (b.cells + TagCells((|b.flags| + 1) / 32))[pos..] == TagCells((|b.flags| + 1) / 32);
    }
  }

  lemma BodyFollows(tokens: seq<Token>, i: nat)
    requires i < |tokens| && forall k :: 0 <= k < |tokens| ==> Fits(tokens[k])
    ensures Follows(AddBody(PlainOf(tokens[..i]), tokens[i]), PlainOf(tokens))
  {
    hide Fits, AddBody, AddFlag, Follows;
    PlainNext(tokens, i);
    PlainFollows(tokens, i + 1);
    FollowsFlag(AddBody(PlainOf(tokens[..i]), tokens[i]), tokens[i].Match?);
    FollowsTransitive(AddBody(PlainOf(tokens[..i]), tokens[i]), PlainOf(tokens[..i + 1]), PlainOf(tokens));
  }

  lemma ReachedLiteral(src: seq<Byte>, pos: nat, bmask: nat, quadPtr: nat, tokens: seq<Token>, i: nat,
                       dst: seq<Byte>, size: nat, r: FlagRead)
    requires Reached(src, pos, bmask, quadPtr, tokens, i, dst, size) && i < |tokens| && tokens[i].Literal?
    requires Announced(src, r, quadPtr, tokens, i)
    ensures r.pos < |src| && src[r.pos] == tokens[i].b
    ensures Reached(src, r.pos + 1, r.bmask, quadPtr, tokens, i + 1, dst + [tokens[i].b], size)
  {
    hide IsPlain, Valid, MaskAfter, Between;
    BodyFollows(tokens, i);
    var s := PlainOf(tokens[..i]);
    RawInSource(src, s, PlainOf(tokens), [tokens[i].b]);
    assert src[|s.cells|] == src[|s.cells|..|s.cells| + 1][0];
    BetweenAgain(src, r, quadPtr, tokens, i, r.pos + 1, quadPtr);
    ExpandedNext(tokens, i);
  }

  lemma ReachedMatch(src: seq<Byte>, pos: nat, bmask: nat, quadPtr: nat, tokens: seq<Token>, i: nat, dst: seq<Byte>,
                     size: nat, r: FlagRead)
    requires Reached(src, pos, bmask, quadPtr, tokens, i, dst, size) && i < |tokens| && tokens[i].Match?
    requires Announced(src, r, quadPtr, tokens, i)
    ensures NextMatch(src, r.pos, quadPtr).Some?
    ensures var m := NextMatch(src, r.pos, quadPtr).value;
      && 1 <= m.offset <= |dst| && 3 <= m.length
      && Reached(src, m.pos, r.bmask, m.quadPtr, tokens, i + 1, Copied(dst, m.offset, m.length), size)
  {
    hide IsPlain, MaskAfter, Between, NextMatch, AddBody, QuadWaits;
    BodyFollows(tokens, i);
    MatchInSource(src, PlainOf(tokens[..i]), PlainOf(tokens), tokens[i], quadPtr);
    var m := NextMatch(src, r.pos, quadPtr).value;
    BetweenAgain(src, r, quadPtr, tokens, i, m.pos, m.quadPtr);
    ExpandedNext(tokens, i);
    assert Applies(Expanded(tokens[..i]), tokens[i], 0x2000);
  }

  lemma ReachedCut(src: seq<Byte>, pos: nat, bmask: nat, quadPtr: nat, tokens: seq<Token>, i: nat, dst: seq<Byte>,
                   size: nat, stop: nat, offset: nat, n: nat)
    requires 1 <= offset <= |dst| <= stop < |dst| + n
             && Reached(src, pos, bmask, quadPtr, tokens, i, Copied(dst, offset, n), size)
    ensures stop < size && Copied(dst, offset, stop - |dst|) == Expanded(tokens)[..stop]
  {
    hide Between, Valid, Copied;
    ExpandedCut(tokens, i, dst, offset, n, stop);
  }

  // ----- what decoding means -----

  /** Decoding with every check, from a place between two tokens on: up to `stop` of the `size` bytes of a text, of
      which `dst` is there already. */
  function Careful(src: seq<Byte>, size: nat, stop: nat, pos: nat, bmask: nat, quadPtr: nat, dst: seq<Byte>): Decoded
    decreases stop - |dst|, 2
  {
    var next := NextFlag(src, pos, bmask);
    if next.None? then Decoded(Failed, pos)
    else
      var r := next.value;
      if |dst| >= stop then Decoded(Done(dst, r.flag && |dst| == size), r.pos)
      else if r.flag then CarefulMatch(src, size, stop, r.pos, r.bmask, quadPtr, dst)
      else if r.pos >= |src| then Decoded(Failed, r.pos)
      else Careful(src, size, stop, r.pos + 1, r.bmask, quadPtr, dst + [src[r.pos]])
  }

  /** The same from the bytes of a match on. */
  function CarefulMatch(src: seq<Byte>, size: nat, stop: nat, pos: nat, bmask: nat, quadPtr: nat,
                        dst: seq<Byte>): Decoded
    requires |dst| < stop
    decreases stop - |dst|, 1
  {
    var found := NextMatch(src, pos, quadPtr);
    if found.None? then Decoded(Failed, pos)
    else
      MatchFacts(src, pos, quadPtr);
      CarefulCopy(src, size, stop, found.value, bmask, dst)
  }

  /** The same when the match has been read. */
  function CarefulCopy(src: seq<Byte>, size: nat, stop: nat, m: MatchRead, bmask: nat, dst: seq<Byte>): Decoded
    requires |dst| < stop && 1 <= m.offset && 3 <= m.length
    decreases stop - |dst|, 0
  {
    if m.offset > |dst| then Decoded(Failed, m.pos)
    else if |dst| + m.length > stop then Decoded(Done(Copied(dst, m.offset, stop - |dst|), false), m.pos)
    else Careful(src, size, stop, m.pos, bmask, m.quadPtr, Copied(dst, m.offset, m.length))
  }

  /** From the beginning of the source. */
  function Direct2Decoded(src: seq<Byte>, size: nat, stop: nat): Decoded {
    Careful(src, size, stop, 0, Pow2(31), 0, [])
  }

  lemma MatchAdvances(src: seq<Byte>, pos: nat, quadPtr: nat)
    requires NextMatch(src, pos, quadPtr).Some?
    ensures pos < NextMatch(src, pos, quadPtr).value.pos <= |src|
  {
    hide Peek;
  }

  lemma FlagAdvances(src: seq<Byte>, pos: nat, bmask: nat)
    requires NextFlag(src, pos, bmask).Some? && pos <= |src|
    ensures pos <= NextFlag(src, pos, bmask).value.pos <= |src|
  {
    hide Word32, Low32, Shifted;
  }

  lemma MatchFacts(src: seq<Byte>, pos: nat, quadPtr: nat)
    requires NextMatch(src, pos, quadPtr).Some?
    ensures 1 <= NextMatch(src, pos, quadPtr).value.offset && 3 <= NextMatch(src, pos, quadPtr).value.length
  {
  }

  lemma {:induction false} CarefulDecodes(src: seq<Byte>, pos: nat, bmask: nat, quadPtr: nat, tokens: seq<Token>,
                                          i: nat, dst: seq<Byte>, size: nat, stop: nat)
    requires |dst| <= stop <= size && Reached(src, pos, bmask, quadPtr, tokens, i, dst, size)
    ensures var d := Careful(src, size, stop, pos, bmask, quadPtr, dst);
      d.outcome == Done(Expanded(tokens)[..stop], stop == size) && (stop == size ==> d.last == |src|)
    decreases stop - |dst|
  {
    hide Reached, Announced, NextFlag, NextMatch, Expanded, Copied;
    ReachedFlag(src, pos, bmask, quadPtr, tokens, i, dst, size);
    var r := NextFlag(src, pos, bmask).value;
    if |dst| < stop {
      if r.flag {
        ReachedMatch(src, pos, bmask, quadPtr, tokens, i, dst, size, r);
        MatchFacts(src, r.pos, quadPtr);
        var m := NextMatch(src, r.pos, quadPtr).value;
        assert CarefulMatch(src, size, stop, r.pos, r.bmask, quadPtr, dst) ==
                 CarefulCopy(src, size, stop, m, r.bmask, dst);
        if |dst| + m.length > stop {
          ReachedCut(src, m.pos, r.bmask, m.quadPtr, tokens, i + 1, dst, size, stop, m.offset, m.length);
        } else {
          CarefulDecodes(src, m.pos, r.bmask, m.quadPtr, tokens, i + 1, Copied(dst, m.offset, m.length), size, stop);
        }
      } else {
        ReachedLiteral(src, pos, bmask, quadPtr, tokens, i, dst, size, r);
        CarefulDecodes(src, r.pos + 1, r.bmask, quadPtr, tokens, i + 1, dst + [tokens[i].b], size, stop);
      }
    }
  }

  /** On an encoding: the text up to `stop`, the end mark exactly at the end, and the source used up there. */
  lemma EncodingDecodes(src: seq<Byte>, tokens: seq<Token>, size: nat, stop: nat)
    requires Encodes(src, tokens, size) && stop <= size
    ensures var d := Direct2Decoded(src, size, stop);
      d.outcome == Done(Expanded(tokens)[..stop], stop == size) && (stop == size ==> d.last == |src|)
  {
    hide Encodes, Reached, Careful, Pow2, Expanded;
    ReachedStart(src, tokens, size);
    CarefulDecodes(src, 0, Pow2(31), 0, tokens, 0, [], size, stop);
  }

  /** On any source: no more than asked for, and nothing read beyond the end. */
  lemma {:induction false} CarefulWithin(src: seq<Byte>, size: nat, stop: nat, pos: nat, bmask: nat, quadPtr: nat,
                                         dst: seq<Byte>)
    requires |dst| <= stop && pos <= |src|
    ensures var d := Careful(src, size, stop, pos, bmask, quadPtr, dst);
      d.last <= |src| && (d.outcome.Done? ==> dst <= d.outcome.dst && |d.outcome.dst| <= stop)
    decreases stop - |dst|
  {
    hide NextFlag, NextMatch, Copied;
    if NextFlag(src, pos, bmask).Some? {
      FlagAdvances(src, pos, bmask);
      var r := NextFlag(src, pos, bmask).value;
      if |dst| < stop {
        if !r.flag {
          if r.pos < |src| {
            CarefulWithin(src, size, stop, r.pos + 1, r.bmask, quadPtr, dst + [src[r.pos]]);
          }
        } else if NextMatch(src, r.pos, quadPtr).Some? {
          MatchFacts(src, r.pos, quadPtr);
          MatchAdvances(src, r.pos, quadPtr);
          var m := NextMatch(src, r.pos, quadPtr).value;
          assert CarefulMatch(src, size, stop, r.pos, r.bmask, quadPtr, dst) ==
                   CarefulCopy(src, size, stop, m, r.bmask, dst);
          if m.offset <= |dst| && |dst| + m.length <= stop {
            CarefulWithin(src, size, stop, m.pos, r.bmask, m.quadPtr, Copied(dst, m.offset, m.length));
          }
        }
      }
    }
  }
}
