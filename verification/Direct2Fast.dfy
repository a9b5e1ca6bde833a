/** The decoder of the plain coding in full: a fast half without checks, and the careful half near the ends. */
module Direct2Fast {
  import opened PrefixCodes
  import opened Registers
  import opened BitStreams
  import opened Tokens
  import opened PlainStreams
  import opened Direct2Encode
  import opened Direct2Decode

  // ----- the flags left in a word -----

  /** `k` flags are left above the bit that marks the end. */
  ghost predicate Marked(bmask: nat, k: nat) {
    k <= 31 && exists c: nat :: c % 2 == 1 && c < 2 * Pow2(k) && bmask == c * Pow2(31 - k)
  }

  lemma MarkedIs(c: nat, k: nat)
    requires k <= 31 && c % 2 == 1 && c < 2 * Pow2(k)
    ensures Marked(c * Pow2(31 - k), k)
  {
  }

  lemma NoneMarked()
    ensures Marked(Pow2(31), 0)
  {
    hide Pow2;
    PowZero();
    MarkedIs(1, 0);
  }

  lemma LoadedMarked(tag: nat)
    ensures Marked(Low32(2 * tag + 1), 31)
  {
    hide Pow2;
    PowZero();
    Pow32();
    Pow2Add(31, 1);
    var c := Low32(2 * tag + 1);
    PowOne();
    assert c % 2 == 1 by { OddLow(tag); }
    MarkedIs(c, 31);
  }

  lemma OddLow(tag: nat)
    ensures Low32(2 * tag + 1) % 2 == 1
  {
    hide Pow2, Over, Left;
    Pow2Add(31, 1);
    PowOne();
    DivMod(2 * tag + 1, Pow2(32));
    OddRest(2 * tag + 1, Over(2 * tag + 1, Pow2(32)), Left(2 * tag + 1, Pow2(32)), Pow2(31));
  }

  /** The mask is empty exactly if it is the bare marker. */
  lemma MarkedEmpty(bmask: nat, k: nat)
    requires Marked(bmask, k)
    ensures bmask >= Pow2(31) && Shifted(bmask, 1) == 0 <==> k == 0
    ensures 0 < k ==> Marked(Shifted(bmask, 1), k - 1)
    ensures k == 0 ==> bmask == Pow2(31)
  {
    hide Pow2, Over, Left;
    var c: nat :| c % 2 == 1 && c < 2 * Pow2(k) && bmask == c * Pow2(31 - k);
    if k == 0 {
      PowZero();
      assert bmask == Pow2(31);
      ShiftedMarker();
    } else {
      ShiftedOdd(c, k);
    }
  }

  lemma ShiftedMarker()
    ensures Shifted(Pow2(31), 1) == 0
  {
    hide Pow2, Over, Left;
    Pow2Add(31, 1);
    PowZero();
    QuotientIs(Pow2(31) * Pow2(1), Pow2(32), 1, 0);
  }

  lemma ShiftedOdd(c: nat, k: nat)
    requires 0 < k <= 31 && c % 2 == 1
    ensures Shifted(c * Pow2(31 - k), 1) != 0 && Marked(Shifted(c * Pow2(31 - k), 1), k - 1)
  {
    hide Pow2, Over, Left;
    var p, h := Pow2(k), Pow2(k - 1);
    Pow2Add(k - 1, 1);
    Pow2Add(k, 32 - k);
    Pow2Add(31 - k, 1);
    PowOne();
    DivMod(c, p);
    var q, r := Over(c, p), Left(c, p);
    assert r % 2 == 1 by { OddRest(c, q, r, h); }
    Regroup(q, r, p, Pow2(32 - k));
    ScaleLess(r, p, Pow2(32 - k));
    Twice(c, Pow2(31 - k));
    QuotientIs(c * Pow2(31 - k) * Pow2(1), Pow2(32), q, r * Pow2(32 - k));
    ScaleLess(0, r, Pow2(32 - k));
    assert Shifted(c * Pow2(31 - k), 1) == r * Pow2(31 - (k - 1));
  }

  lemma PowOne()
    ensures Pow2(1) == 2
  {
  }

  lemma Twice(c: nat, p: nat)
    ensures c * p * 2 == c * (p * 2)
  {
  }

  lemma OddRest(c: nat, q: nat, r: nat, h: nat)
    requires c % 2 == 1 && c == q * (h * 2) + r
    ensures r % 2 == 1
  {
    assert q * (h * 2) == 2 * (q * h);
  }

  // ----- reading a match without checks -----

  function QuadUnchecked(src: seq<Byte>, pos: nat, quadPtr: nat): QuadRead
    requires pos < |src| && quadPtr < |src|
  {
    if quadPtr == 0 then QuadRead(src[pos] % 16, pos + 1, pos) else QuadRead(src[quadPtr] / 16, pos, 0)
  }

  function LengthUnchecked(src: seq<Byte>, pos: nat): Option<LongRead>
    requires pos + 3 <= |src|
  {
    if src[pos] < 255 then Some(LongRead(src[pos] as int + 15 + 7, pos + 1))
    else if Peek(src, pos + 1) < 255 + 15 + 7 then None
    else Some(LongRead(Peek(src, pos + 1), pos + 3))
  }

  /** The length of a match, once its first two bytes have been read. */
  function MatchUnchecked(src: seq<Byte>, pos: nat, quadPtr: nat): Option<MatchRead>
    requires pos + 6 <= |src| && quadPtr < |src|
  {
    var pair := Peek(src, pos);
    var offset := pair / 8 + 1;
    if pair % 8 < 7 then Some(MatchRead(offset, pair % 8 + 3, pos + 2, quadPtr))
    else
      var q := QuadUnchecked(src, pos + 2, quadPtr);
      if q.quad < 15 then Some(MatchRead(offset, q.quad + 7 + 3, q.pos, q.quadPtr))
      else
        var l := LengthUnchecked(src, q.pos);
        if l.None? then None else Some(MatchRead(offset, l.value.length + 3, l.value.pos, q.quadPtr))
  }

  /** With six bytes left the checks never fail. */
  lemma UncheckedReads(src: seq<Byte>, pos: nat, quadPtr: nat)
    requires pos + 6 <= |src| && quadPtr < |src|
    ensures MatchUnchecked(src, pos, quadPtr) == NextMatch(src, pos, quadPtr)
    ensures NextMatch(src, pos, quadPtr).Some? ==>
              var m := NextMatch(src, pos, quadPtr).value;
              pos + 2 <= m.pos <= pos + 6 && (m.quadPtr == quadPtr || m.quadPtr < m.pos) && 1 <= m.offset
                  && 3 <= m.length
  {
    hide Peek;
  }

  // ----- the careful half -----

  /** From a place between two tokens on, with all checks. */
  method CarefulHalf(src: seq<Byte>, dst: array<Byte>, stop: nat, pos0: nat, bmask0: nat, quadPtr0: nat, d0: nat)
    returns (ok: bool, eof: bool, n: nat, last: nat)
    requires d0 <= stop <= dst.Length && pos0 <= |src|
    modifies dst
    ensures Returns(Careful(src, dst.Length, stop, pos0, bmask0, quadPtr0, old(dst[..d0])), dst, ok, eof, n, last)
    ensures forall j :: stop <= j < dst.Length ==> dst[j] == old(dst[j])
  {
    hide NextFlag, NextMatch, Copied;
    ghost var goal := Careful(src, dst.Length, stop, pos0, bmask0, quadPtr0, dst[..d0]);
    var pos: nat, bmask: nat, quadPtr: nat, d: nat := pos0, bmask0, quadPtr0, d0;
    ok, eof, n, last := false, false, 0, 0;
    while true
      invariant d <= stop && pos <= |src| && Careful(src, dst.Length, stop, pos, bmask, quadPtr, dst[..d]) == goal
      invariant forall j :: stop <= j < dst.Length ==> dst[j] == old(dst[j])
      decreases stop - d
    {
      var next := NextFlag(src, pos, bmask);
      if next.None? {
        return;
      }
      FlagAdvances(src, pos, bmask);
      var r := next.value;
      if d >= stop {
        return true, r.flag && d == dst.Length, d, r.pos;
      }
      if !r.flag {
        if r.pos >= |src| {
          return;
        }
        Append(dst, d, src[r.pos]);
        d, pos, bmask := d + 1, r.pos + 1, r.bmask;
      } else {
        var found := NextMatch(src, r.pos, quadPtr);
        if found.None? {
          return;
        }
        MatchFacts(src, r.pos, quadPtr);
        MatchAdvances(src, r.pos, quadPtr);
        var m := found.value;
        assert CarefulMatch(src, dst.Length, stop, r.pos, r.bmask, quadPtr, dst[..d])
            == CarefulCopy(src, dst.Length, stop, m, r.bmask, dst[..d]);
        if m.offset > d {
          return;
        }
        if d + m.length > stop {
          CopyBlock(dst, d, m.offset, stop - d);
          return true, false, stop, m.pos;
        }
        CopyBlock(dst, d, m.offset, m.length);
        d, pos, bmask, quadPtr := d + m.length, m.pos, r.bmask, m.quadPtr;
      }
    }
  }

  /** From a match that has been read on: where the fast half leaves a match that may come too near the end. */
  method CarefulTail(src: seq<Byte>, dst: array<Byte>, stop: nat, m: MatchRead, bmask: nat, d: nat)
    returns (ok: bool, eof: bool, n: nat, last: nat)
    requires d < stop <= dst.Length && m.pos <= |src| && 1 <= m.offset && 3 <= m.length
    modifies dst
    ensures Returns(CarefulCopy(src, dst.Length, stop, m, bmask, old(dst[..d])), dst, ok, eof, n, last)
    ensures forall j :: stop <= j < dst.Length ==> dst[j] == old(dst[j])
  {
    hide NextFlag, NextMatch, Copied;
    ok, eof, n, last := false, false, 0, 0;
    if m.offset > d {
      return;
    }
    if d + m.length > stop {
      CopyBlock(dst, d, m.offset, stop - d);
      return true, false, stop, m.pos;
    }
    CopyBlock(dst, d, m.offset, m.length);
    ok, eof, n, last := CarefulHalf(src, dst, stop, m.pos, bmask, m.quadPtr, d + m.length);
  }

  // ----- the fast half -----

  /** With `k` flags left of the word: room for as many tokens, for eight more bytes in the output, and for four in the
      source. */
  predicate Roomy(src: seq<Byte>, stop: nat, pos: nat, quadPtr: nat, d: nat, k: nat) {
    && k <= 31 && (0 < k ==> d + 8 * k + 8 < stop && pos + 7 * k + 4 < |src|)
    && d <= stop && pos <= |src| && (quadPtr == 0 || quadPtr < pos)
  }

  /** The next flag, if the word has one left. */
  lemma FlagFromWordLeft(src: seq<Byte>, pos: nat, bmask: nat, k: nat)
    requires Marked(bmask, k) && 0 < k
    ensures NextFlag(src, pos, bmask) == Some(FlagRead(bmask >= Pow2(31), pos, Shifted(bmask, 1)))
    ensures Marked(Shifted(bmask, 1), k - 1)
  {
    hide Pow2, Shifted, Marked;
    MarkedEmpty(bmask, k);
  }

  lemma FlagFromNewWord(src: seq<Byte>, pos: nat, bmask: nat)
    requires Marked(bmask, 0) && pos + 4 <= |src|
    ensures NextFlag(src, pos, bmask)
         == Some(FlagRead(Word32(src, pos) >= Pow2(31), pos + 4, Low32(2 * Word32(src, pos) + 1)))
    ensures Marked(Low32(2 * Word32(src, pos) + 1), 31)
  {
    hide Pow2, Shifted, Marked, Low32, Word32;
    MarkedEmpty(bmask, 0);
    LoadedMarked(Word32(src, pos));
  }

  lemma CarefulLiteral(src: seq<Byte>, size: nat, stop: nat, pos: nat, bmask: nat, quadPtr: nat, dst: seq<Byte>,
                       pos': nat, bmask': nat)
    requires |dst| < stop && pos' < |src| && NextFlag(src, pos, bmask) == Some(FlagRead(false, pos', bmask'))
    ensures Careful(src, size, stop, pos, bmask, quadPtr, dst)
         == Careful(src, size, stop, pos' + 1, bmask', quadPtr, dst + [src[pos']])
  {
  }

  lemma CarefulFound(src: seq<Byte>, size: nat, stop: nat, pos: nat, bmask: nat, quadPtr: nat, dst: seq<Byte>,
                     pos': nat, bmask': nat)
    requires |dst| < stop && NextFlag(src, pos, bmask) == Some(FlagRead(true, pos', bmask'))
    ensures var d, found := Careful(src, size, stop, pos, bmask, quadPtr, dst), NextMatch(src, pos', quadPtr);
      && (found.None? ==> d.outcome.Failed?)
      && (found.Some? ==>
            && 1 <= found.value.offset && 3 <= found.value.length
            && d == CarefulCopy(src, size, stop, found.value, bmask', dst))
  {
    hide NextFlag, NextMatch;
    var found := NextMatch(src, pos', quadPtr);
    assert Careful(src, size, stop, pos, bmask, quadPtr, dst) ==
             CarefulMatch(src, size, stop, pos', bmask', quadPtr, dst);
    if found.Some? {
      MatchFacts(src, pos', quadPtr);
    }
  }

  lemma CarefulCopies(src: seq<Byte>, size: nat, stop: nat, m: MatchRead, bmask: nat, dst: seq<Byte>)
    requires |dst| < stop && 1 <= m.offset && 3 <= m.length
    ensures var d := CarefulCopy(src, size, stop, m, bmask, dst);
      && (m.offset > |dst| ==> d.outcome.Failed?)
      && (m.offset <= |dst| && |dst| + m.length <= stop ==>
            d == Careful(src, size, stop, m.pos, bmask, m.quadPtr, Copied(dst, m.offset, m.length)))
  {
  }

  /** Decodes up to `stop` bytes of a text into `dst`, whose length is that of the text; `n` bytes have been decoded,
      and `last` is where the source was left. Until a word of flags comes near one of the ends, nothing is checked
      but that matches refer to what is there. */
  method DecodeDirect2(src: seq<Byte>, dst: array<Byte>, stop: nat) returns (ok: bool, eof: bool, n: nat, last: nat)
    requires stop <= dst.Length
    modifies dst
    ensures Returns(Direct2Decoded(src, dst.Length, stop), dst, ok, eof, n, last)
    ensures forall j :: stop <= j < dst.Length ==> dst[j] == old(dst[j])
  {
    hide NextFlag, NextMatch, Copied, Marked, Pow2, Shifted, Low32, Peek, MatchUnchecked, Word32, Careful, CarefulCopy;
    ghost var goal := Direct2Decoded(src, dst.Length, stop);
    var dstCareful := if stop > RESERVE_DST then stop - RESERVE_DST else 0;
    var srcCareful := if |src| > RESERVE_SRC then |src| - RESERVE_SRC else 0;
    var pos: nat, bmask: nat, quadPtr: nat, d: nat := 0, Pow2(31), 0, 0;
    ghost var k: nat := 0;
    NoneMarked();
    assert dst[..0] == [];
    ok, eof, n, last := false, false, 0, 0;
    while true
      invariant Marked(bmask, k) && Roomy(src, stop, pos, quadPtr, d, k)
      invariant Careful(src, dst.Length, stop, pos, bmask, quadPtr, dst[..d]) == goal
      invariant forall j :: stop <= j < dst.Length ==> dst[j] == old(dst[j])
      decreases |src| - pos
    {
      MarkedEmpty(bmask, k);
      ghost var pos0, bmask0 := pos, bmask;
      var flag := true;
      if bmask < Pow2(31) {
        FlagFromWordLeft(src, pos, bmask, k);
        flag, bmask, k := false, Shifted(bmask, 1), k - 1;
      } else if Shifted(bmask, 1) != 0 {
        FlagFromWordLeft(src, pos, bmask, k);
        bmask, k := Shifted(bmask, 1), k - 1;
      } else if pos >= srcCareful || d >= dstCareful {
        ok, eof, n, last := CarefulHalf(src, dst, stop, pos, bmask, quadPtr, d);
        return;
      } else {
        FlagFromNewWord(src, pos, bmask);
        var tag := Word32(src, pos);
        flag, pos, bmask, k := tag >= Pow2(31), pos + 4, Low32(2 * tag + 1), 31;
      }
      if !flag {
        CarefulLiteral(src, dst.Length, stop, pos0, bmask0, quadPtr, dst[..d], pos, bmask);
        Append(dst, d, src[pos]);
        d, pos := d + 1, pos + 1;
      } else {
        UncheckedReads(src, pos, quadPtr);
        CarefulFound(src, dst.Length, stop, pos0, bmask0, quadPtr, dst[..d], pos, bmask);
        var found := MatchUnchecked(src, pos, quadPtr);
        if found.None? {
          return;
        }
        var m := found.value;
        CarefulCopies(src, dst.Length, stop, m, bmask, dst[..d]);
        if m.length <= 8 {
          if m.offset > d {
            return;
          }
          CopyShort(dst, d, m.offset, m.length);
        } else if d + m.length >= dstCareful {
          ok, eof, n, last := CarefulTail(src, dst, stop, m, bmask, d);
          return;
        } else {
          if m.offset > d {
            return;
          }
          CopyBlock(dst, d, m.offset, m.length);
        }
        d, pos, quadPtr := d + m.length, m.pos, m.quadPtr;
      }
    }
  }

  /** Every token sequence the coding can express comes back as the text it stands for, or any beginning of it. */
  method Direct2RoundTrip(tokens: seq<Token>, size: nat, stop: nat)
    returns (out: seq<Byte>, text: seq<Byte>, ok: bool, eof: bool)
    requires Valid(tokens, 0x2000) && stop <= size == |Expanded(tokens)|
    ensures ok && text == Expanded(tokens)[..stop] && eof == (stop == size)
  {
    hide IsPlain, Expanded, Careful;
    forall k | 0 <= k < |tokens| ensures Fits(tokens[k]) {
      assert Applies(Expanded(tokens[..k]), tokens[k], 0x2000);
    }
    out := EncodeDirect2(tokens);
    EncodingDecodes(out, tokens, size, stop);
    var dst := new Byte[size](_ => 0);
    var n, last;
    ok, eof, n, last := DecodeDirect2(out, dst, stop);
    text := dst[..n];
  }
}
