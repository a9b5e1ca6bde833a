/** The writer of the plain coding: flags are collected in a word that is stored when its last flag is known. */
module Direct2Encode {
  import opened PrefixCodes
  import opened Registers
  import opened BitStreams
  import opened Tokens
  import opened PlainStreams

  /** What a byte of the unfinished output holds. The current word's bytes are at `tagPtr`; the byte that waits for its
      second length is at `quadPtr`. */
  ghost predicate CellSoFar(c: Cell, o: nat, v: nat, s: Plain, tagPtr: nat, quadPtr: nat) {
    match c
    case RawCell(b) => v == b
    case TagCell(i, j) =>
      && j < 4 && i <= |s.flags| / 32
      && (i < |s.flags| / 32 ==> v == TagByte(s.flags, i, j))
      && (i == |s.flags| / 32 ==> o == tagPtr + j)
    case QuadCell(k) =>
      && 2 * k < |s.quads| && v == QuadByte(s.quads, k)
      && (2 * k + 1 == |s.quads| ==> o == quadPtr)
  }

  ghost predicate CellsSoFar(s: Plain, out: seq<Byte>, tagPtr: nat, quadPtr: nat) {
    && |out| == |s.cells|
    && forall o :: 0 <= o < |out| ==> CellSoFar(s.cells[o], o, out[o], s, tagPtr, quadPtr)
  }

  /** The flags of the current word. */
  ghost function CurrentFlags(s: Plain): (c: seq<bool>)
    ensures |c| == |s.flags| % 32
  {
    s.flags[32 * (|s.flags| / 32)..]
  }

  /** The current word is marked by a leading one. */
  ghost predicate TagsSoFar(s: Plain, tagPtr: nat, tagMask: nat) {
    && tagPtr + 4 <= |s.cells| && s.cells[tagPtr..tagPtr + 4] == TagCells(|s.flags| / 32)
    && tagMask == Value([true] + CurrentFlags(s))
  }

  /** Where the byte is that waits for its second length, if any. */
  ghost predicate QuadWaits(s: Plain, quadPtr: nat) {
    if |s.quads| % 2 == 0 then quadPtr == 0
    else 0 < quadPtr < |s.cells| && s.cells[quadPtr] == QuadCell(|s.quads| / 2)
  }

  ghost predicate QuadsSoFar(s: Plain, quadPtr: nat) {
    && (forall k :: 0 <= k < |s.quads| ==> s.quads[k] < 16)
    && QuadWaits(s, quadPtr)
  }

  ghost predicate Writing(s: Plain, out: seq<Byte>, tagPtr: nat, tagMask: nat, quadPtr: nat) {
    CellsSoFar(s, out, tagPtr, quadPtr) && TagsSoFar(s, tagPtr, tagMask) && QuadsSoFar(s, quadPtr)
  }

  // ----- bytes and four-bit lengths -----

  lemma RawWritten(s: Plain, out: seq<Byte>, tagPtr: nat, tagMask: nat, quadPtr: nat, bytes: seq<Byte>)
    requires Writing(s, out, tagPtr, tagMask, quadPtr)
    ensures Writing(AddRaw(s, bytes), out + bytes, tagPtr, tagMask, quadPtr)
  {
    hide Value, TagByte, QuadByte;
    var t := AddRaw(s, bytes);
    assert t.cells[tagPtr..tagPtr + 4] == s.cells[tagPtr..tagPtr + 4];
    assert CurrentFlags(t) == CurrentFlags(s);
  }

  lemma QuadStaysPut(quads: seq<nat>, q: nat, k: nat)
    requires 2 * k + 1 < |quads|
    ensures QuadByte(quads + [q], k) == QuadByte(quads, k)
  {
  }

  /** A new byte for the first of two lengths. */
  lemma FirstQuad(s: Plain, out: seq<Byte>, tagPtr: nat, tagMask: nat, q: Byte)
    requires Writing(s, out, tagPtr, tagMask, 0) && |s.quads| % 2 == 0 && q < 16
    ensures Writing(AddQuad(s, q), out + [q], tagPtr, tagMask, |out|)
  {
    hide Value, TagByte, QuadByte;
    var t := AddQuad(s, q);
    assert t.cells[tagPtr..tagPtr + 4] == s.cells[tagPtr..tagPtr + 4];
    assert CurrentFlags(t) == CurrentFlags(s);
    forall o | 0 <= o < |out| + 1 ensures CellSoFar(t.cells[o], o, (out + [q])[o], t, tagPtr, |out|) {
      if o < |out| {
        assert CellSoFar(s.cells[o], o, out[o], s, tagPtr, 0);
        if s.cells[o].QuadCell? {
          QuadStaysPut(s.quads, q, s.cells[o].pair);
        }
      } else {
        QuadAlone(s.quads, q);
      }
    }
  }

  lemma QuadAlone(quads: seq<nat>, q: nat)
    requires |quads| % 2 == 0
    ensures QuadByte(quads + [q], |quads| / 2) == q
  {
  }

  lemma QuadBoth(quads: seq<nat>, q: nat)
    requires |quads| % 2 == 1
    ensures QuadByte(quads + [q], |quads| / 2) == QuadByte(quads, |quads| / 2) + 16 * q
    ensures quads[|quads| - 1] < 16 ==> QuadByte(quads, |quads| / 2) < 16
  {
  }

  /** The second of two lengths joins the first. */
  lemma SecondQuad(s: Plain, out: seq<Byte>, tagPtr: nat, tagMask: nat, quadPtr: nat, q: nat)
    requires Writing(s, out, tagPtr, tagMask, quadPtr) && |s.quads| % 2 == 1 && q < 16
    ensures quadPtr < |out| && out[quadPtr] + 16 * q < 256
    ensures Writing(AddQuad(s, q), out[quadPtr := out[quadPtr] + 16 * q], tagPtr, tagMask, 0)
  {
    hide Value, TagByte, QuadByte;
    assert CellSoFar(s.cells[quadPtr], quadPtr, out[quadPtr], s, tagPtr, quadPtr);
    QuadBoth(s.quads, q);
    var t, out' := AddQuad(s, q), out[quadPtr := out[quadPtr] + 16 * q];
    assert CurrentFlags(t) == CurrentFlags(s);
    forall o | 0 <= o < |out| ensures CellSoFar(t.cells[o], o, out'[o], t, tagPtr, 0) {
      assert CellSoFar(s.cells[o], o, out[o], s, tagPtr, quadPtr);
      if s.cells[o].QuadCell? && o != quadPtr {
        QuadStaysPut(s.quads, q, s.cells[o].pair);
      }
    }
  }

  // ----- flags -----

  lemma FlagShifted(s: Plain, b: bool)
    requires |s.flags| % 32 != 31
    ensures Value([true] + CurrentFlags(AddFlag(s, b))) == 2 * Value([true] + CurrentFlags(s)) + if b then 1 else 0
  {
    hide Value;
    ValueNext([true] + CurrentFlags(s), b);
    assert [true] + CurrentFlags(AddFlag(s, b)) == [true] + CurrentFlags(s) + [b];
  }

  lemma ValueNext(w: seq<bool>, b: bool)
    ensures Value(w + [b]) == 2 * Value(w) + if b then 1 else 0
  {
    assert (w + [b])[..|w|] == w;
  }

  lemma TagStaysPut(flags: seq<bool>, more: seq<bool>, i: nat, j: nat)
    requires 32 * i + 32 <= |flags|
    ensures TagByte(flags + more, i, j) == TagByte(flags, i, j)
  {
    assert (flags + more)[32 * i..32 * i + 32] == flags[32 * i..32 * i + 32];
  }

  /** A flag that leaves room in the word. */
  lemma FlagFits(s: Plain, out: seq<Byte>, tagPtr: nat, tagMask: nat, quadPtr: nat, b: bool)
    requires Writing(s, out, tagPtr, tagMask, quadPtr) && |s.flags| % 32 != 31
    ensures Writing(AddFlag(s, b), out, tagPtr, 2 * tagMask + (if b then 1 else 0), quadPtr)
  {
    hide Value, TagByte, QuadByte, CurrentFlags;
    var t := AddFlag(s, b);
    FlagShifted(s, b);
    forall o | 0 <= o < |out| ensures CellSoFar(t.cells[o], o, out[o], t, tagPtr, quadPtr) {
      assert CellSoFar(s.cells[o], o, out[o], s, tagPtr, quadPtr);
      if s.cells[o].TagCell? && s.cells[o].word < |s.flags| / 32 {
        TagStaysPut(s.flags, [b], s.cells[o].word, s.cells[o].index);
      }
    }
  }

  /** Whether the leading one has reached the top of the word. */
  lemma LeadingOne(c: seq<bool>)
    requires |c| <= 31
    ensures Value([true] + c) >= Pow2(31) <==> |c| == 31
    ensures Value([true] + c) < Pow2(32)
  {
    hide Pow2, Value;
    ValueConcat([true], c);
    ValueBelow(c);
    ValueOne();
    PowNext(|c|);
    PowNext(31);
    if |c| < 31 {
      Pow2Monotone(|c| + 1, 31);
    }
  }

  /** With the 32nd flag the leading one leaves the word. */
  lemma LastFlag(c: seq<bool>, b: bool)
    requires |c| == 31
    ensures Low32(2 * Value([true] + c) + if b then 1 else 0) == Value(c + [b]) < Pow2(32)
  {
    hide Pow2, Over, Left, Value;
    ValueNext([true] + c, b);
    ValueConcat([true], c + [b]);
    assert [true] + c + [b] == [true] + (c + [b]);
    ValueOne();
    ValueBelow(c + [b]);
    QuotientIs(Value([true] + c + [b]), Pow2(32), 1, Value(c + [b]));
  }

  /** Four bytes stored at `p`. */
  function Poke4(out: seq<Byte>, p: nat, v: nat): (r: seq<Byte>)
    requires p + 4 <= |out|
    ensures |r| == |out|
    ensures forall o :: 0 <= o < |out| ==> r[o] == if p <= o < p + 4 then ByteOf(v, o - p) else out[o]
  {
    out[p := ByteOf(v, 0)][p + 1 := ByteOf(v, 1)][p + 2 := ByteOf(v, 2)][p + 3 := ByteOf(v, 3)]
  }

  lemma TagAt(s: Plain, tagPtr: nat, o: nat)
    requires tagPtr + 4 <= |s.cells| && s.cells[tagPtr..tagPtr + 4] == TagCells(|s.flags| / 32)
             && tagPtr <= o < tagPtr + 4
    ensures s.cells[o] == TagCell(|s.flags| / 32, o - tagPtr)
  {
    assert s.cells[o] == s.cells[tagPtr..tagPtr + 4][o - tagPtr];
  }

  lemma WholeWord(s: Plain, b: bool, v: nat, j: nat)
    requires |s.flags| % 32 == 31 && v == Value(CurrentFlags(s) + [b])
    ensures TagByte(s.flags + [b], |s.flags| / 32, j) == ByteOf(v, j)
  {
    hide ByteOf, Value;
    var i := |s.flags| / 32;
    assert (s.flags + [b])[32 * i..32 * i + 32] == CurrentFlags(s) + [b];
  }

  /** The 32nd flag: the word is stored and a new one begins after what has been written. */
  lemma FlagCompletes(s: Plain, out: seq<Byte>, tagPtr: nat, tagMask: nat, quadPtr: nat, b: bool, v: nat,
                      more: seq<Byte>)
    requires Writing(s, out, tagPtr, tagMask, quadPtr) && |s.flags| % 32 == 31 && v == Value(CurrentFlags(s) + [b])
             && |more| == 4
    ensures tagPtr + 4 <= |out| && Writing(AddFlag(s, b), Poke4(out, tagPtr, v) + more, |out|, 1, quadPtr)
  {
    hide Value, TagByte, QuadByte, Poke4, ByteOf;
    var t, out' := AddFlag(s, b), Poke4(out, tagPtr, v) + more;
    forall o | 0 <= o < |out'| ensures CellSoFar(t.cells[o], o, out'[o], t, |out|, quadPtr) {
      if o < |out| {
        assert CellSoFar(s.cells[o], o, out[o], s, tagPtr, quadPtr);
        if tagPtr <= o < tagPtr + 4 {
          TagAt(s, tagPtr, o);
          WholeWord(s, b, v, o - tagPtr);
        } else if s.cells[o].TagCell? {
          TagStaysPut(s.flags, [b], s.cells[o].word, s.cells[o].index);
        }
      }
    }
    assert t.cells[|out|..|out| + 4] == TagCells(|t.flags| / 32);
    assert [true] + CurrentFlags(t) == [true];
    ValueOne();
  }

  lemma ValueOne()
    ensures Value([true]) == 1
  {
    assert [true][..0] == [];
  }

  lemma OnesFollow(n: nat)
    ensures Ones(n + 1) == Ones(n) + [true]
  {
  }

  /** The last word, padded with ones. */
  lemma FlagsEnd(s: Plain, out: seq<Byte>, tagPtr: nat, tagMask: nat, quadPtr: nat, v: nat)
    requires Writing(s, out, tagPtr, tagMask, quadPtr) && v == Value(CurrentFlags(s) + Ones(32 - |s.flags| % 32))
    ensures tagPtr + 4 <= |out| && IsPlain(Poke4(out, tagPtr, v), s)
  {
    hide Value, TagByte, QuadByte, Poke4, ByteOf;
    var out' := Poke4(out, tagPtr, v);
    forall o | 0 <= o < |out| ensures out'[o] == CellByte(s.cells[o], AllFlags(s), s.quads) {
      assert CellSoFar(s.cells[o], o, out[o], s, tagPtr, quadPtr);
      if tagPtr <= o < tagPtr + 4 {
        TagAt(s, tagPtr, o);
        PaddedWord(s, v, o - tagPtr);
      } else if s.cells[o].TagCell? {
        TagStaysPut(s.flags, Ones(32 - |s.flags| % 32), s.cells[o].word, s.cells[o].index);
      }
    }
  }

  lemma PaddedWord(s: Plain, v: nat, j: nat)
    requires v == Value(CurrentFlags(s) + Ones(32 - |s.flags| % 32))
    ensures TagByte(AllFlags(s), |s.flags| / 32, j) == ByteOf(v, j)
  {
    hide ByteOf, Value;
    var i := |s.flags| / 32;
    assert AllFlags(s)[32 * i..32 * i + 32] == CurrentFlags(s) + Ones(32 - |s.flags| % 32);
  }

  lemma PlainStarts()
    ensures Writing(StartPlain(), [0, 0, 0, 0], 0, 1, 0)
  {
    ValueOne();
    assert [true] + CurrentFlags(StartPlain()) == [true];
  }

  class PlainWriter {
    var out: seq<Byte>
    var tagPtr: nat
    var tagMask: nat
    var quadPtr: nat
    ghost var s: Plain

    ghost predicate Valid()
      reads this
    {
      Writing(s, out, tagPtr, tagMask, quadPtr)
    }

    constructor ()
      ensures Valid() && s == StartPlain()
    {
      hide Writing, StartPlain;
      out, tagPtr, tagMask, quadPtr := [0, 0, 0, 0], 0, 1, 0;
      s := StartPlain();
      PlainStarts();
    }

    method TagWrite(b: bool)
      requires Valid()
      modifies this
      ensures Valid() && s == AddFlag(old(s), b)
    {
      hide Pow2, Value, CellsSoFar, QuadsSoFar, Low32, Poke4;
      TagFacts(s, out, tagPtr, tagMask, quadPtr);
      var n := 2 * tagMask + if b then 1 else 0;
      if tagMask >= Pow2(31) {
        LastFlag(CurrentFlags(s), b);
        FlagCompletes(s, out, tagPtr, tagMask, quadPtr, b, Low32(n), [0, 0, 0, 0]);
        out := Poke4(out, tagPtr, Low32(n));
        tagPtr := |out|;
        out := out + [0, 0, 0, 0];
        n := 1;
      } else {
        FlagFits(s, out, tagPtr, tagMask, quadPtr, b);
      }
      tagMask := n;
      s := AddFlag(s, b);
    }

    method WriteLit(ch: Byte)
      requires Valid()
      modifies this
      ensures Valid() && s == AddToken(old(s), Literal(ch))
    {
      hide Writing;
      RawWritten(s, out, tagPtr, tagMask, quadPtr, [ch]);
      out := out + [ch];
      s := AddRaw(s, [ch]);
      TagWrite(false);
    }

    method WritePtr(offset: nat, length: nat)
      requires Valid() && Fits(Match(offset, length))
      modifies this
      ensures Valid() && s == AddToken(old(s), Match(offset, length))
    {
      hide Writing;
      var l, pair := length - 3, PairOf(offset, length);
      PutRaw(TwoBytes(pair));
      if l >= 7 {
        PutQuad(QuadOf(l));
        PutRaw(MoreLength(l));
      }
      TagWrite(true);
    }

    method PutRaw(bytes: seq<Byte>)
      requires Valid()
      modifies this
      ensures Valid() && s == AddRaw(old(s), bytes)
    {
      hide Writing;
      RawWritten(s, out, tagPtr, tagMask, quadPtr, bytes);
      out := out + bytes;
      s := AddRaw(s, bytes);
    }

    method PutQuad(q: nat)
      requires Valid() && q < 16
      modifies this
      ensures Valid() && s == AddQuad(old(s), q)
    {
      hide CellsSoFar, TagsSoFar;
      if quadPtr == 0 {
        FirstQuad(s, out, tagPtr, tagMask, q);
        quadPtr := |out|;
        out := out + [q];
      } else {
        SecondQuad(s, out, tagPtr, tagMask, quadPtr, q);
        out := out[quadPtr := out[quadPtr] + 16 * q];
        quadPtr := 0;
      }
      s := AddQuad(s, q);
    }

    /** Writes ones until the current word is complete; the word that would follow is not part of the output. */
    method TagWriteFinish()
      requires Valid()
      modifies this
      ensures IsPlain(out, s) && s == old(s)
    {
      hide Writing, Poke4, IsPlain, Value;
      TagFacts(s, out, tagPtr, tagMask, quadPtr);
      var word := Pad(tagMask, CurrentFlags(s));
      FlagsEnd(s, out, tagPtr, tagMask, quadPtr, word);
      out := Poke4(out, tagPtr, word);
    }
  }

  method Pad(tagMask: nat, ghost c: seq<bool>) returns (word: nat)
    requires |c| <= 31 && tagMask == Value([true] + c)
    ensures word == Value(c + Ones(32 - |c|))
  {
    hide Pow2, Value, Low32;
    ghost var m := 0;
    assert c + Ones(0) == c;
    var mask := tagMask;
    LeadingOne(c);
    while mask < Pow2(31)
      invariant m <= 31 - |c| && mask == Value([true] + (c + Ones(m)))
      decreases 31 - |c| - m
    {
      LeadingOne(c + Ones(m));
      ValueNext([true] + (c + Ones(m)), true);
      OnesFollow(m);
      assert [true] + (c + Ones(m)) + [true] == [true] + (c + Ones(m + 1));
      mask := 2 * mask + 1;
      m := m + 1;
    }
    LeadingOne(c + Ones(m));
    LastFlag(c + Ones(m), true);
    OnesFollow(m);
    assert c + Ones(m) + [true] == c + Ones(m + 1);
    word := Low32(2 * mask + 1);
  }

  lemma TagFacts(s: Plain, out: seq<Byte>, tagPtr: nat, tagMask: nat, quadPtr: nat)
    requires Writing(s, out, tagPtr, tagMask, quadPtr)
    ensures tagPtr + 4 <= |out| && tagMask == Value([true] + CurrentFlags(s))
    ensures tagMask >= Pow2(31) <==> |s.flags| % 32 == 31
  {
    hide Pow2, Value;
    LeadingOne(CurrentFlags(s));
  }

  /** The plain coding of a token sequence. */
  method EncodeDirect2(tokens: seq<Token>) returns (out: seq<Byte>)
    requires forall i :: 0 <= i < |tokens| ==> Fits(tokens[i])
    ensures IsPlain(out, PlainOf(tokens))
  {
    hide Writing, IsPlain, AddToken, StartPlain;
    var writer := new PlainWriter();
    for i := 0 to |tokens|
      invariant writer.Valid() && fresh(writer) && writer.s == PlainOf(tokens[..i])
    {
      PlainNext(tokens, i);
      match tokens[i]
      case Literal(b) => writer.WriteLit(b);
      case Match(offset, length) => writer.WritePtr(offset, length);
    }
    assert tokens[..|tokens|] == tokens;
    writer.TagWriteFinish();
    out := writer.out;
  }
}
