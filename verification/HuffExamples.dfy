/** A short token list and the bytes of its Huffman coding, and sources that are refused. */
module HuffExamples {
  import opened Totals
  import opened PrefixCodes
  import opened CanonicalCodes
  import opened Registers
  import opened BitStreams
  import opened BitIO
  import opened Tokens
  import opened HuffEncode
  import opened HuffDecode

  /** Four symbols of two bits: a byte, the end mark, and long matches at offset 1 and at offsets from 4 to 7. */
  ghost predicate FourSymbols(length: seq<nat>) {
    && |length| == 512
    && forall s :: 0 <= s < 512 ==> length[s] == if s == 97 || s == 256 || s == 271 || s == 303 then 2 else 0
  }

  lemma {:induction false} NothingUsed(length: seq<nat>, a: nat, b: nat)
    requires a <= b <= |length| && forall s :: a <= s < b ==> length[s] == 0
    ensures Used(length[..b]) == Used(length[..a])
    decreases b
  {
    hide Used;
    if a < b {
      NothingUsed(length, a, b - 1);
      UsedStep(length, b - 1);
    }
  }

  lemma FourUsed(length: seq<nat>)
    requires FourSymbols(length)
    ensures Used(length) == [97, 256, 271, 303]
  {
    hide Used;
    assert length[..0] == [] && length[..512] == length;
    UsedNone();
    NothingUsed(length, 0, 97);
    UsedStep(length, 97);
    NothingUsed(length, 98, 256);
    UsedStep(length, 256);
    NothingUsed(length, 257, 271);
    UsedStep(length, 271);
    NothingUsed(length, 272, 303);
    UsedStep(length, 303);
    NothingUsed(length, 304, 512);
  }

  lemma FourTotal(f: int -> int)
    ensures Total([97, 256, 271, 303], f) == f(97) + f(256) + f(271) + f(303)
  {
    hide Total;
    assert [97, 256, 271, 303] == [97, 256, 271] + [303] && [97, 256, 271] == [97, 256] + [271];
    assert [97, 256] == [97] + [256] && [97] == [] + [97];
    TotalOneMore([97, 256, 271], 303, f);
    TotalOneMore([97, 256], 271, f);
    TotalOneMore([97], 256, f);
    TotalOneMore([], 97, f);
    assert Total([], f) == 0 by { TotalNone(f); }
  }

  lemma TotalNone(f: int -> int)
    ensures Total([], f) == 0
  {
  }

  lemma FourCodes(length: seq<nat>, sym: int)
    requires FourSymbols(length) && sym in [97, 256, 271, 303]
    ensures Canon(length, sym) == if sym == 97 then 0 else if sym == 256 then 1 else if sym == 271 then 2 else 3
  {
    hide Total, Used;
    var f := Taking(length, sym);
    FourUsed(length);
    FourTotal(f);
    TakingNothing(length, sym);
    assert length[..512] == length;
    UsedTotal(length, 512, f);
  }

  lemma TwoBits(v: nat)
    requires v < 4
    ensures Word(v, 2) == [v / 2 == 1, v % 2 == 1]
  {
    assert Word(v / 2, 1) == Word(v / 4, 0) + [v / 2 % 2 == 1];
  }

  lemma FourWords(length: seq<nat>)
    requires FourSymbols(length)
    ensures CodeWord(length, 97) == [false, false] && CodeWord(length, 256) == [false, true]
            && CodeWord(length, 271) == [true, false] && CodeWord(length, 303) == [true, true]
  {
    hide Canon, Word;
    FourCodes(length, 97);
    FourCodes(length, 256);
    FourCodes(length, 271);
    FourCodes(length, 303);
    TwoBits(0);
    TwoBits(1);
    TwoBits(2);
    TwoBits(3);
  }

  /** A match whose length takes one more byte, the shortest one that takes three, literals up to the end of the first
      word of bits, and a match again. */
  function HuffTokens(): seq<Token> {
    [Literal(97), Match(1, 20), Match(5, 273), Literal(97), Literal(97), Literal(97), Literal(97), Match(1, 20)]
  }

  lemma OneByte(s: Stream, b: Byte)
    ensures AddBytes(s, [b]) == AddByte(s, b)
  {
    assert [b][..0] == [];
  }

  lemma ThreeBytes(s: Stream, a: Byte, b: Byte, c: Byte)
    ensures AddBytes(s, [a, b, c]) == AddByte(AddByte(AddByte(s, a), b), c)
  {
    assert [a, b, c][..2] == [a, b] && [a, b][..1] == [a];
    OneByte(s, a);
  }

  lemma AfterSpill(s: Stream, length: seq<nat>)
    requires FourSymbols(length) && |s.bits| == 16 && s.places == [0, 2] && s.size == 8
    ensures Emit(s, length, Match(1, 20)) == Stream(s.bits + [true, false], [0, 2, 8], 11, s.raw[10 := 2])
  {
    hide CodeWord, AddBytes, Word;
    FourWords(length);
    EmitIs(s, length, Match(1, 20));
    assert s.places + [8] == [0, 2, 8];
    OneByte(Stream(s.bits + [true, false], [0, 2, 8], 10, s.raw), 2);
    assert Word(0, 0) == [];
  }

  lemma AfterNear(s: Stream, length: seq<nat>)
    requires FourSymbols(length) && |s.bits| == 2 && s.places == [0, 2] && s.size == 4 && s.raw == map[]
    ensures Emit(s, length, Match(1, 20)) == Stream(s.bits + [true, false], [0, 2], 5, map[4 := 2])
  {
    hide CodeWord, AddBytes, Word;
    FourWords(length);
    EmitIs(s, length, Match(1, 20));
    OneByte(s.(bits := s.bits + [true, false]), 2);
    assert Word(0, 0) == [];
  }

  lemma AfterFar(s: Stream, length: seq<nat>)
    requires FourSymbols(length) && |s.bits| == 4 && s.places == [0, 2] && s.size == 5 && s.raw == map[4 := 2]
    ensures Emit(s, length, Match(5, 273)) ==
      Stream(s.bits + [true, true, false, true], [0, 2], 8, map[4 := 2, 5 := 255, 6 := 14, 7 := 1])
  {
    hide CodeWord, AddBytes, Word, Pow2, BitNo;
    FourWords(length);
    assert BitNo(5) == 2 && Pow2(2) == 4 by { FiveBits(); }
    EmitIs(s, length, Match(5, 273));
    ThreeBytes(s.(bits := s.bits + [true, true]), 255, 14, 1);
    TwoBits(1);
  }

  lemma FiveBits()
    ensures BitNo(5) == 2 && Pow2(2) == 4
  {
    assert BitNo(2) == 1 && BitNo(1) == 0;
  }

  ghost function FirstBits(): seq<bool> { [false, false, true, false, true, true, false, true] }

  lemma FirstTokens(length: seq<nat>, t: seq<Token>)
    requires FourSymbols(length) && t == HuffTokens()
    ensures Emitted(length, t[..3]) == Stream(FirstBits(), [0, 2], 8, map[4 := 2, 5 := 255, 6 := 14, 7 := 1])
  {
    hide CodeWord, Emit, Emitted;
    FourWords(length);
    assert t[..0] == [];
    assert Emitted(length, t[..0]) == Start() by { EmittedNone(length); }
    EmittedNext(length, t, 0);
    EmittedNext(length, t, 1);
    EmittedNext(length, t, 2);
    EmitLiteral(Start(), length, 97);
    AfterNear(Emitted(length, t[..1]), length);
    AfterFar(Emitted(length, t[..2]), length);
  }

  /** Four literals fill the word. */
  lemma FourLiterals(length: seq<nat>, t: seq<Token>)
    requires FourSymbols(length) && t == HuffTokens()
    ensures Emitted(length, t[..7]) ==
      Stream(FirstBits() + Zeros(8), [0, 2], 8, map[4 := 2, 5 := 255, 6 := 14, 7 := 1])
  {
    hide CodeWord, Emit, Emitted, FirstBits;
    FourWords(length);
    FirstTokens(length, t);
    var s := Emitted(length, t[..3]);
    var no := [false, false];
    assert |s.bits| == 8 by { FirstSize(); }
    EmittedNext(length, t, 3);
    EmittedNext(length, t, 4);
    EmittedNext(length, t, 5);
    EmittedNext(length, t, 6);
    EmitLiteral(s, length, 97);
    EmitLiteral(s.(bits := s.bits + no), length, 97);
    EmitLiteral(s.(bits := s.bits + no + no), length, 97);
    EmitLiteral(s.(bits := s.bits + no + no + no), length, 97);
    assert s.bits + no + no + no + no == s.bits + Zeros(8);
  }

  lemma FirstSize()
    ensures |FirstBits()| == 8
  {
  }

  /** The next field makes the second word current and reserves a third one, before the byte of the length. */
  lemma HuffState(length: seq<nat>)
    requires FourSymbols(length)
    ensures Finished(length, HuffTokens()) ==
      Stream(FirstBits() + Zeros(8) + [true, false, false, true], [0, 2, 8], 11,
             map[4 := 2, 5 := 255, 6 := 14, 7 := 1, 10 := 2])
  {
    hide CodeWord, Emit, Emitted;
    var t := HuffTokens();
    FourWords(length);
    assert t[..8] == t;
    FourLiterals(length, t);
    EmittedNext(length, t, 7);
    AfterSpill(Emitted(length, t[..7]), length);
  }

  lemma EmittedNone(length: seq<nat>)
    ensures Emitted(length, []) == Start()
  {
  }

  lemma EmitLiteral(s: Stream, length: seq<nat>, b: Byte)
    ensures Emit(s, length, Literal(b)) == AddField(s, CodeWord(length, b))
  {
    hide CodeWord, AddField;
  }

  lemma FirstWord(w: seq<bool>)
    requires w == FirstBits() + Zeros(8)
    ensures Value(w) == 0x2d00
  {
    hide Value, Pow2;
    ValueConcat(FirstBits(), Zeros(8));
    ValueOfZeros(8);
    Pow8();
    FirstValue();
  }

  lemma FirstValue()
    ensures Value(FirstBits()) == 0x2d
  {
    hide Value, Pow2;
    var a, b := [false, false, true, false], [true, true, false, true];
    assert FirstBits() == a + b;
    ValueConcat(a, b);
    assert Value(a) == 2 && Value(b) == 13 by { FourValues(); }
    assert Pow2(4) == 16 by { Pow4(); }
  }

  lemma Pow4()
    ensures Pow2(4) == 16 && Pow2(12) == 0x1000
  {
    assert Pow2(8) == 0x100;
  }

  lemma FourValues()
    ensures Value([false, false, true, false]) == 2 && Value([true, true, false, true]) == 13
            && Value([true, false, false, true]) == 9
  {
    var a, b, c := [false, false, true, false], [true, true, false, true], [true, false, false, true];
    assert a[..3][..2] == a[..2] && a[..2][..1] == a[..1] && a[..1][..0] == [];
    assert b[..3][..2] == b[..2] && b[..2][..1] == b[..1] && b[..1][..0] == [];
    assert c[..3][..2] == c[..2] && c[..2][..1] == c[..1] && c[..1][..0] == [];
    assert Value(a[..1]) == 0 && Value(a[..2]) == 0 && Value(a[..3]) == 1;
    assert Value(b[..1]) == 1 && Value(b[..2]) == 3 && Value(b[..3]) == 6;
    assert Value(c[..1]) == 1 && Value(c[..2]) == 2 && Value(c[..3]) == 4;
  }

  lemma SecondWord(w: seq<bool>)
    requires w == [true, false, false, true] + Zeros(12)
    ensures Value(w) == 0x9000
  {
    hide Value, Pow2;
    ValueConcat([true, false, false, true], Zeros(12));
    ValueOfZeros(12);
    assert Value([true, false, false, true]) == 9 by { FourValues(); }
    assert Pow2(12) == 0x1000 by { Pow4(); }
  }

  ghost predicate HuffEnd(s: Stream) {
    s == Stream(FirstBits() + Zeros(8) + [true, false, false, true], [0, 2, 8], 11,
                map[4 := 2, 5 := 255, 6 := 14, 7 := 1, 10 := 2])
  }

  lemma PaddedWords(s: Stream)
    requires HuffEnd(s)
    ensures |s.bits| <= 48 && |Padded(s)| == 48
    ensures var all := Padded(s);
      Value(all[0..16]) == 0x2d00 && Value(all[16..32]) == 0x9000 && Value(all[32..48]) == 0
  {
    hide Value, FirstBits;
    FirstSize();
    var all := Padded(s);
    assert all[0..16] == FirstBits() + Zeros(8);
    assert all[16..32] == [true, false, false, true] + Zeros(12);
    assert all[32..48] == Zeros(16);
    FirstWord(all[0..16]);
    SecondWord(all[16..32]);
    ValueOfZeros(16);
  }

  lemma ImageBytes(out: seq<Byte>, s: Stream)
    requires HuffEnd(s) && Image(out, s)
    ensures out == [0x00, 0x2d, 0x00, 0x90, 0x02, 0xff, 0x0e, 0x01, 0x00, 0x00, 0x02]
  {
    hide Value, FirstBits, Layout, Padded;
    PaddedWords(s);
    assert WordAt(out, s.places[0]) == 0x2d00 && WordAt(out, s.places[1]) == 0x9000 && WordAt(out, s.places[2]) == 0;
    assert 4 in s.raw && 5 in s.raw && 6 in s.raw && 7 in s.raw && 10 in s.raw;
  }

  lemma BytesImage(out: seq<Byte>, s: Stream)
    requires HuffEnd(s) && out == [0x00, 0x2d, 0x00, 0x90, 0x02, 0xff, 0x0e, 0x01, 0x00, 0x00, 0x02]
    ensures Image(out, s)
  {
    hide Value, FirstBits, Padded;
    FirstSize();
    PaddedWords(s);
  }

  /** The stream for these tokens: bits from the high end of each word, words low byte first, the words two ahead of the
      bytes that follow. */
  lemma HuffBytes(length: seq<nat>, out: seq<Byte>)
    requires FourSymbols(length)
    ensures Image(out, Finished(length, HuffTokens())) <==>
            out == [0x00, 0x2d, 0x00, 0x90, 0x02, 0xff, 0x0e, 0x01, 0x00, 0x00, 0x02]
  {
    hide Image, Finished;
    HuffState(length);
    var s := Finished(length, HuffTokens());
    if Image(out, s) {
      ImageBytes(out, s);
    } else if out == [0x00, 0x2d, 0x00, 0x90, 0x02, 0xff, 0x0e, 0x01, 0x00, 0x00, 0x02] {
      BytesImage(out, s);
    }
  }

  // ----- a length of 16 bits that would fit a shorter form -----

  lemma PowersNeeded()
    ensures Pow2(0) == 1 && Pow2(2) == 4 && Pow2(30) == 0x40000000 && Pow2(32) == 0x100000000
  {
    hide Pow2;
    PowZero();
    PowNext(0);
    PowNext(1);
    Pow32();
    PowNext(31);
    PowNext(30);
  }

  /** The registers give up two bits. */
  lemma TwoDropped(r: Reader, top: nat, rest: nat)
    requires r.mask == 0x40000000 * top + rest && top < 4 && rest < 0x40000000
    ensures Top(r.mask, 2) == top && Drop(r, 2) == Reader(r.pos, 4 * rest, r.free - 2)
  {
    hide Pow2, Over, Left;
    PowersNeeded();
    QuotientIs(r.mask, 0x40000000, top, rest);
    QuotientIs(r.mask * 4, 0x100000000, top, 4 * rest);
  }

  /** The symbol that two bits announce. */
  lemma NextOfFour(src: seq<Byte>, length: seq<nat>, r: Reader, sym: int, top: nat, rest: nat)
    requires FourSymbols(length) && r.mask == 0x40000000 * top + rest && top < 4 && rest < 0x40000000 && 2 <= r.free
    requires sym == if top == 0 then 97 else if top == 1 then 256 else if top == 2 then 271 else 303
    ensures SymbolAt(length, r.mask) == sym
    ensures AfterCode(src, length, r, sym) == Some(Reader(r.pos, 4 * rest, r.free - 2))
  {
    hide Canon, Top, Drop;
    FourCodes(length, sym);
    TwoDropped(r, top, rest);
    SymbolIs(length, sym, r.mask);
  }

  /** The bits announce a literal, a long match at offset 1, and the end. */
  ghost predicate OneMatch(src: seq<Byte>) {
    |src| == 7 && src[..5] == [0x00, 0x24, 0x00, 0x00, 0xff]
  }

  lemma Opened(src: seq<Byte>)
    requires OneMatch(src)
    ensures Open(src) == Reader(4, 0x24000000, 16)
  {
    var b := src[..5];
    assert src[0] == b[0] && src[1] == b[1] && src[2] == b[2] && src[3] == b[3];
  }

  lemma LongMatch(src: seq<Byte>)
    requires OneMatch(src)
    ensures var v := src[5] as int + 256 * (src[6] as int);
      MatchAt(src, Reader(4, 0x40000000, 12), 271)
        == if v < 270 then None else Some(MatchRead(1, v + 3, Reader(7, 0x40000000, 12)))
  {
    hide Pow2, Over, Left;
    assert src[4] == src[..5][4];
    PowersNeeded();
    QuotientIs(0x40000000, 0x100000000, 0, 0x40000000);
  }

  /** A literal and a long copy of it. Decoding fails exactly if the length is one that a single byte can hold. */
  lemma LongLengthRefused(src: seq<Byte>, length: seq<nat>)
    requires OneMatch(src) && FourSymbols(length)
    ensures var v := src[5] as int + 256 * (src[6] as int);
      HuffDecoded(src, length, v + 4, v + 4).outcome == if v < 270 then Failed else Done(Repeated(97, v + 4), true)
  {
    hide AfterCode, SymbolAt, MatchAt, Copied, Repeated, Pow2, Open;
    var v := src[5] as int + 256 * (src[6] as int);
    var n := v + 4;
    var one: seq<Byte> := [97];
    Opened(src);
    NextOfFour(src, length, Reader(4, 0x24000000, 16), 97, 0, 0x24000000);
    NextOfFour(src, length, Reader(4, 0x90000000, 14), 271, 2, 0x10000000);
    NextOfFour(src, length, Reader(7, 0x40000000, 12), 256, 1, 0);
    LongMatch(src);
    var none: seq<Byte> := [];
    assert none + one == one;
    assert HuffDecoded(src, length, n, n) == Careful(src, length, n, n, Reader(4, 0x24000000, 16), none)
        == CarefulSymbol(src, length, n, n, 97, Reader(4, 0x90000000, 14), none)
        == Careful(src, length, n, n, Reader(4, 0x90000000, 14), one);
    assert Careful(src, length, n, n, Reader(4, 0x90000000, 14), one)
        == CarefulSymbol(src, length, n, n, 271, Reader(4, 0x40000000, 12), one);
    if v >= 270 {
      var all := Copied(one, 1, v + 3);
      CopiedOne(one, 97, v + 3);
      assert all == Repeated(97, n);
      var m := MatchRead(1, v + 3, Reader(7, 0x40000000, 12));
      assert CarefulSymbol(src, length, n, n, 271, Reader(4, 0x40000000, 12), one)
          == CarefulCopy(src, length, n, n, m, one) == Careful(src, length, n, n, m.r, all)
          == CarefulSymbol(src, length, n, n, 256, Reader(7, 0, 10), all);
    } else {
      assert CarefulSymbol(src, length, n, n, 271, Reader(4, 0x40000000, 12), one) == Decoded(Failed, 4);
    }
  }
}
