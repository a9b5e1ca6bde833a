/** A short token list and the bytes of its plain coding, and sources that are refused. */
module PlainExamples {
  import opened PrefixCodes
  import opened Registers
  import opened BitStreams
  import opened Tokens
  import opened PlainStreams
  import opened Direct2Encode
  import opened Direct2Decode

  /** Every form a length can take, on both sides of each border. */
  function PlainTokens(): seq<Token> {
    [Literal(0x61), Match(1, 3), Match(0x1234, 9), Match(2, 10), Match(3, 24), Match(4, 25), Match(5, 280)]
  }

  lemma PlainTokensFit()
    ensures forall i :: 0 <= i < |PlainTokens()| ==> Fits(PlainTokens()[i])
  {
  }

  /** A literal among the first 31 tokens. */
  lemma AfterLiteral(s: Plain, b: Byte)
    requires |s.flags| < 31
    ensures AddToken(s, Literal(b)) == Plain(s.flags + [false], s.quads, s.cells + [RawCell(b)])
  {
    assert RawCells([b]) == [RawCell(b)];
  }

  /** A short match among the first 31 tokens. */
  lemma AfterShort(s: Plain, t: Token, a: Byte, b: Byte)
    requires t.Match? && Fits(t) && t.length < 10 && PairOf(t.offset, t.length) == a as int + 256 * b && |s.flags| < 31
    ensures AddToken(s, t) == Plain(s.flags + [true], s.quads, s.cells + [RawCell(a), RawCell(b)])
  {
    hide PairOf;
    PairBytes(PairOf(t.offset, t.length), a, b);
    assert RawCells([a, b]) == [RawCell(a), RawCell(b)];
  }

  lemma PairBytes(v: nat, a: Byte, b: Byte)
    requires v == a as int + 256 * b
    ensures v < 0x10000 && TwoBytes(v) == [a, b]
  {
  }

  /** A longer one. */
  lemma AfterLong(s: Plain, t: Token, a: Byte, b: Byte, q: nat, more: seq<Byte>)
    requires t.Match? && Fits(t) && 10 <= t.length && PairOf(t.offset, t.length) == a as int + 256 * b
    requires QuadOf(t.length - 3) == q && MoreLength(t.length - 3) == more && |s.flags| < 31
    ensures AddToken(s, t) ==
      Plain(s.flags + [true], s.quads + [q],
            s.cells + [RawCell(a), RawCell(b)] + (if |s.quads| % 2 == 0 then [QuadCell(|s.quads| / 2)] else [])
              + RawCells(more))
  {
    hide PairOf, QuadOf, MoreLength, TwoBytes, RawCells;
    PairBytes(PairOf(t.offset, t.length), a, b);
    assert RawCells([a, b]) == [RawCell(a), RawCell(b)] by { TwoCells(a, b); }
  }

  lemma TwoCells(a: Byte, b: Byte)
    ensures RawCells([a, b]) == [RawCell(a), RawCell(b)]
  {
  }

  ghost function FirstCells(): seq<Cell> {
    TagCells(0) + [RawCell(0x61), RawCell(0), RawCell(0), RawCell(0x9e), RawCell(0x91)]
  }

  ghost function MoreCells(): seq<Cell> {
    FirstCells() + [RawCell(0x0f), RawCell(0), QuadCell(0), RawCell(0x17), RawCell(0)]
  }

  ghost function MostCells(): seq<Cell> {
    MoreCells() + [RawCell(0x1f), RawCell(0), QuadCell(1), RawCell(0)]
  }

  ghost function AllCells(): seq<Cell> {
    MostCells() + [RawCell(0x27), RawCell(0), RawCell(0xff), RawCell(0x15), RawCell(0x01)]
  }

  lemma FirstTokens(t: seq<Token>)
    requires 3 <= |t| && t[..3] == PlainTokens()[..3] && forall i :: 0 <= i < |t| ==> Fits(t[i])
    ensures PlainOf(t[..3]) == Plain([false, true, true], [], FirstCells())
  {
    hide PlainOf, AddToken;
    assert t[..0] == [];
    assert t[0] == t[..3][0] == Literal(0x61) && t[1] == t[..3][1] == Match(1, 3)
           && t[2] == t[..3][2] == Match(0x1234, 9);
    assert PlainOf(t[..0]) == StartPlain() by { EmptyPlain(); }
    PlainNext(t, 0);
    PlainNext(t, 1);
    PlainNext(t, 2);
    AfterLiteral(StartPlain(), 0x61);
    AfterShort(PlainOf(t[..1]), t[1], 0, 0);
    AfterShort(PlainOf(t[..2]), t[2], 0x9e, 0x91);
  }

  lemma EmptyPlain()
    ensures PlainOf([]) == StartPlain()
  {
  }

  lemma MoreTokens(t: seq<Token>)
    requires t == PlainTokens() && forall i :: 0 <= i < |t| ==> Fits(t[i])
    ensures PlainOf(t[..5]) == Plain([false, true, true, true, true], [0, 14], MoreCells())
  {
    hide PlainOf, AddToken, FirstCells, RawCells;
    FirstTokens(t);
    PlainNext(t, 3);
    PlainNext(t, 4);
    AfterLong(PlainOf(t[..3]), t[3], 0x0f, 0, 0, []);
    AfterLong(PlainOf(t[..4]), t[4], 0x17, 0, 14, []);
    NoCells();
  }

  lemma NoCells()
    ensures RawCells([]) == []
  {
  }

  lemma MostTokens(t: seq<Token>)
    requires t == PlainTokens() && forall i :: 0 <= i < |t| ==> Fits(t[i])
    ensures PlainOf(t[..6]) == Plain([false, true, true, true, true, true], [0, 14, 15], MostCells())
  {
    hide PlainOf, AddToken, MoreCells, RawCells;
    MoreTokens(t);
    PlainNext(t, 5);
    AfterLong(PlainOf(t[..5]), t[5], 0x1f, 0, 15, [0]);
    SomeCells();
  }

  lemma LastToken(t: seq<Token>)
    requires |t| == 7 && t[6] == Match(5, 280) && forall i :: 0 <= i < |t| ==> Fits(t[i])
    requires PlainOf(t[..6]) == Plain([false, true, true, true, true, true], [0, 14, 15], MostCells())
    ensures PlainOf(t) == Plain([false, true, true, true, true, true, true], [0, 14, 15, 15], AllCells())
  {
    hide PlainOf, AddToken, MostCells, RawCells, Fits;
    assert t[..7] == t;
    PlainNext(t, 6);
    assert Fits(t[6]);
    AfterLong(PlainOf(t[..6]), Match(5, 280), 0x27, 0, 15, [255, 0x15, 0x01]);
    SomeCells();
  }

  lemma SomeCells()
    ensures RawCells([0]) == [RawCell(0)]
    ensures RawCells([255, 0x15, 0x01]) == [RawCell(255), RawCell(0x15), RawCell(0x01)]
  {
  }

  // ----- the word of flags -----

  lemma {:induction false} ValueOfOnes(n: nat)
    ensures Value(Ones(n)) == Pow2(n) - 1
  {
    if n != 0 {
      ValueOfOnes(n - 1);
      assert Ones(n)[..n - 1] == Ones(n - 1);
    }
  }

  lemma Pow31()
    ensures Pow2(31) == 0x80000000
  {
    hide Pow2;
    Pow32();
    PowNext(31);
  }

  /** One literal at the beginning, and matches from there on. */
  lemma OneLiteral(flags: seq<bool>)
    requires flags == [false] + Ones(31)
    ensures Value(flags) == 0x7fffffff
  {
    hide Pow2, Value;
    ValueConcat([false], Ones(31));
    ValueOfOnes(31);
    Pow31();
    ValueZero();
  }

  lemma ValueZero()
    ensures Value([false]) == 0
  {
    assert [false][..0] == [];
  }

  lemma FlagBytes(s: Plain)
    requires s.flags == [false, true, true, true, true, true, true]
    ensures var all := AllFlags(s);
      TagByte(all, 0, 0) == 0xff && TagByte(all, 0, 1) == 0xff && TagByte(all, 0, 2) == 0xff
          && TagByte(all, 0, 3) == 0x7f
  {
    hide Value;
    assert AllFlags(s) == [false] + Ones(31);
    assert AllFlags(s)[0..32] == AllFlags(s);
    OneLiteral(AllFlags(s));
  }

  lemma QuadBytes()
    ensures QuadByte([0, 14, 15, 15], 0) == 0xe0 && QuadByte([0, 14, 15, 15], 1) == 0xff
  {
  }

  ghost predicate PlainEnd(s: Plain) {
    s.flags == [false, true, true, true, true, true, true] && s.quads == [0, 14, 15, 15] && s.cells == AllCells()
  }

  lemma FirstBytes(out: seq<Byte>, s: Plain)
    requires IsPlain(out, s) && PlainEnd(s)
    ensures |out| == 23
    ensures out[..9] == [0xff, 0xff, 0xff, 0x7f, 0x61, 0x00, 0x00, 0x9e, 0x91]
  {
    hide AllFlags, TagByte, QuadByte;
    FlagBytes(s);
    forall o | 0 <= o < 9 ensures s.cells[o] == FirstCells()[o] {
    }
  }

  lemma MiddleBytes(out: seq<Byte>, s: Plain)
    requires IsPlain(out, s) && PlainEnd(s)
    ensures |out| == 23 && out[9..18] == [0x0f, 0x00, 0xe0, 0x17, 0x00, 0x1f, 0x00, 0xff, 0x00]
  {
    hide AllFlags, TagByte, QuadByte, FirstCells;
    assert |FirstCells()| == 9 by { FirstSize(); }
    QuadBytes();
  }

  lemma FirstSize()
    ensures |FirstCells()| == 9
  {
  }

  lemma MostSize()
    ensures |MostCells()| == 18
  {
  }

  lemma LastBytes(out: seq<Byte>, s: Plain)
    requires IsPlain(out, s) && PlainEnd(s)
    ensures |out| == 23 && out[18..] == [0x27, 0x00, 0xff, 0x15, 0x01]
  {
    hide AllFlags, TagByte, QuadByte, MostCells;
    MostSize();
  }

  /** The output for these tokens: low bytes first, low half of a shared byte first, 16 bits of length in full. */
  lemma PlainBytes(out: seq<Byte>)
    requires (forall i :: 0 <= i < |PlainTokens()| ==> Fits(PlainTokens()[i])) && IsPlain(out, PlainOf(PlainTokens()))
    ensures out == [0xff, 0xff, 0xff, 0x7f, 0x61, 0x00, 0x00, 0x9e, 0x91, 0x0f, 0x00, 0xe0, 0x17, 0x00, 0x1f, 0x00,
                    0xff, 0x00, 0x27, 0x00, 0xff, 0x15, 0x01]
  {
    hide PlainOf, IsPlain, AllCells, Fits;
    var t := PlainTokens();
    MostTokens(t);
    LastToken(t);
    FirstBytes(out, PlainOf(t));
    MiddleBytes(out, PlainOf(t));
    LastBytes(out, PlainOf(t));
    assert out == out[..9] + out[9..18] + out[18..];
  }
  method EncodePlain() returns (out: seq<Byte>)
    ensures out == [0xff, 0xff, 0xff, 0x7f, 0x61, 0x00, 0x00, 0x9e, 0x91, 0x0f, 0x00, 0xe0, 0x17, 0x00, 0x1f, 0x00,
                    0xff, 0x00, 0x27, 0x00, 0xff, 0x15, 0x01]
  {
    hide PlainOf, IsPlain, Fits;
    PlainTokensFit();
    out := EncodeDirect2(PlainTokens());
    PlainBytes(out);
  }

  // ----- a length of 16 bits that would fit a shorter form -----

  lemma ShiftedOnce(mask: nat)
    requires 0x80000000 <= mask < 0x100000000
    ensures Pow2(31) <= mask && Shifted(mask, 1) == 2 * mask - 0x100000000
  {
    hide Pow2, Over, Left;
    Pow31();
    Pow32();
    PowNext(0);
    PowZero();
    QuotientIs(mask * 2, 0x100000000, 1, 2 * mask - 0x100000000);
  }

  /** The flags of these sources: a literal, a match, the end. */
  ghost predicate OneMatch(src: seq<Byte>) {
    |src| == 11 && src[..4] == [0xff, 0xff, 0xff, 0x7f] && src[5..9] == [0x07, 0x00, 0x0f, 0xff]
  }

  lemma LiteralFlag(src: seq<Byte>)
    requires OneMatch(src)
    ensures NextFlag(src, 0, Pow2(31)) == Some(FlagRead(false, 4, 0xffffffff))
  {
    hide Pow2, Shifted, Left;
    Pow31();
    Pow32();
    ShiftedOnce(0x80000000);
    assert src[0] == src[..4][0] && src[1] == src[..4][1] && src[2] == src[..4][2] && src[3] == src[..4][3];
    assert Word32(src, 0) == 0x7fffffff;
    QuotientIs(0xffffffff, 0x100000000, 0, 0xffffffff);
  }

  lemma MatchFlags(src: seq<Byte>)
    ensures NextFlag(src, 5, 0xffffffff) == Some(FlagRead(true, 5, 0xfffffffe))
    ensures NextFlag(src, 11, 0xfffffffe) == Some(FlagRead(true, 11, 0xfffffffc))
  {
    hide Pow2, Shifted, Left;
    ShiftedOnce(0xffffffff);
    ShiftedOnce(0xfffffffe);
  }

  lemma LongMatch(src: seq<Byte>)
    requires OneMatch(src)
    ensures var v := src[9] as int + 256 * (src[10] as int);
      NextMatch(src, 5, 0) == if v < 277 then None else Some(MatchRead(1, v + 3, 11, 7))
  {
    var m := src[5..9];
    assert src[5] == m[0] && src[6] == m[1] && src[7] == m[2] && src[8] == m[3];
  }

  /** A literal and a long copy of it. Decoding fails exactly if the length is one that a single byte can hold. */
  lemma LongLengthRefused(src: seq<Byte>)
    requires OneMatch(src)
    ensures var v := src[9] as int + 256 * (src[10] as int);
      Direct2Decoded(src, v + 4, v + 4).outcome == if v < 277 then Failed else Done(Repeated(src[4], v + 4), true)
  {
    hide NextFlag, NextMatch, Copied, Repeated, Pow2;
    var v := src[9] as int + 256 * (src[10] as int);
    LiteralFlag(src);
    MatchFlags(src);
    LongMatch(src);
    var one := [src[4]];
    assert [] + one == one;
    assert Direct2Decoded(src, v + 4, v + 4) == Careful(src, v + 4, v + 4, 5, 0xffffffff, 0, one);
    assert Careful(src, v + 4, v + 4, 5, 0xffffffff, 0, one) == CarefulMatch(src, v + 4, v + 4, 5, 0xfffffffe, 0, one);
    if v >= 277 {
      var all := Copied(one, 1, v + 3);
      CopiedOne(one, src[4], v + 3);
      assert CarefulMatch(src, v + 4, v + 4, 5, 0xfffffffe, 0, one) ==
               Careful(src, v + 4, v + 4, 11, 0xfffffffe, 7, all);
      assert all == Repeated(src[4], v + 4);
    }
  }
}
