/** The decoder of the Huffman coding in full: a fast half without checks, and the careful half near the ends. */
module HuffFast {
  import opened PrefixCodes
  import opened CanonicalCodes
  import opened DecodeTables
  import opened Lookup
  import opened Registers
  import opened BitStreams
  import opened BitIO
  import opened Tokens
  import opened HuffDecode

  // ----- the careful half -----

  /** The registers are in order. */
  predicate Regular(src: seq<Byte>, r: Reader) {
    r.pos <= |src| && r.mask < Pow2(32)
  }

  lemma RefillRegular(src: seq<Byte>, r: Reader)
    requires Regular(src, r) && Refill(src, r).Some?
    ensures Regular(src, Refill(src, r).value)
  {
    hide Pow2, Refill;
    RefillWithin(src, r);
    MaskBelow(src, r, 0);
  }

  lemma MatchRegular(src: seq<Byte>, r: Reader, sym: nat)
    requires 256 <= sym < 512 && Regular(src, r) && MatchAt(src, r, sym).Some?
    ensures var m := MatchAt(src, r, sym).value;
      Regular(src, m.r) && 1 <= m.offset && 3 <= m.length && m.r.free == r.free - (sym - 256) / 16
  {
    hide Pow2, Top, Shifted, LengthAt, Refill;
    MatchFacts(src, r, sym);
    MatchWithin(src, r, sym);
  }

  /** One token whose symbol has been read; unless decoding is over, the registers and the place in the output after
      it. */
  method CarefulToken(src: seq<Byte>, dst: array<Byte>, stop: nat, sym: nat, r: Reader, d: nat, ghost length: seq<nat>)
    returns (done: bool, ok: bool, eof: bool, n: nat, last: nat, r': Reader, d': nat)
    requires |length| == 512 && sym < 512 && Regular(src, r) && d <= stop <= dst.Length
    modifies dst
    ensures var goal := CarefulSymbol(src, length, dst.Length, stop, sym, r, old(dst[..d]));
      if done then Returns(goal, dst, ok, eof, n, last)
      else !ok && d < d' <= stop && Regular(src, r') && goal == Careful(src, length, dst.Length, stop, r', dst[..d'])
    ensures forall j :: stop <= j < dst.Length ==> dst[j] == old(dst[j])
  {
    hide MatchAt, Refill, Copied, Careful;
    done, ok, eof, n, last, r', d' := true, false, false, 0, 0, r, d;
    if d >= stop {
      return true, true, d == dst.Length && sym == 256, d, r.pos, r, d;
    }
    if sym < 256 {
      Append(dst, d, sym);
      return false, false, false, 0, 0, r, d + 1;
    }
    var found := MatchAt(src, r, sym);
    if found.None? {
      return;
    }
    MatchRegular(src, r, sym);
    done, ok, eof, n, last, r', d' := CarefulTail(src, dst, stop, found.value, d, length);
  }

  /** The rest of a match that has been read. */
  method CarefulTail(src: seq<Byte>, dst: array<Byte>, stop: nat, m: MatchRead, d: nat, ghost length: seq<nat>)
    returns (done: bool, ok: bool, eof: bool, n: nat, last: nat, r': Reader, d': nat)
    requires |length| == 512 && Regular(src, m.r) && 1 <= m.offset && 3 <= m.length && d < stop <= dst.Length
    modifies dst
    ensures var goal := CarefulCopy(src, length, dst.Length, stop, m, old(dst[..d]));
      if done then Returns(goal, dst, ok, eof, n, last)
      else !ok && d < d' <= stop && Regular(src, r') && goal == Careful(src, length, dst.Length, stop, r', dst[..d'])
    ensures forall j :: stop <= j < dst.Length ==> dst[j] == old(dst[j])
  {
    hide Refill, Copied, Careful;
    done, ok, eof, n, last, r', d' := true, false, false, 0, 0, m.r, d;
    if m.offset > d {
      return;
    }
    if d + m.length > stop {
      CopyBlock(dst, d, m.offset, stop - d);
      return true, true, false, stop, m.r.pos, m.r, d;
    }
    CopyBlock(dst, d, m.offset, m.length);
    var next := Refill(src, m.r);
    if next.None? {
      return;
    }
    RefillRegular(src, m.r);
    return false, false, false, 0, 0, next.value, d + m.length;
  }

  lemma CarefulReads(src: seq<Byte>, length: seq<nat>, size: nat, stop: nat, r: Reader, dst: seq<Byte>, sym: nat)
    requires |length| == 512 && Begins(length, sym, r.mask)
    ensures sym < 512 && 1 <= length[sym] <= 15
    ensures var x := Drop(r, length[sym]);
      && x.free == r.free - length[sym] && x.pos == r.pos && x.mask < Pow2(32)
      && (Refill(src, x).None? ==> Careful(src, length, size, stop, r, dst).outcome.Failed?)
      && (Refill(src, x).Some? ==>
            Careful(src, length, size, stop, r, dst)
            == CarefulSymbol(src, length, size, stop, sym, Refill(src, x).value, dst))
  {
    hide Pow2, Refill, Canon, Top, Shifted, CarefulSymbol;
    SymbolIs(length, sym, r.mask);
    MaskBelow(src, r, length[sym]);
  }

  method CarefulHalf(src: seq<Byte>, table: array<nat>, dst: array<Byte>, stop: nat, r0: Reader, d0: nat,
                     ghost length: seq<nat>)
    returns (ok: bool, eof: bool, n: nat, last: nat)
    requires |length| == 512 && Regular(src, r0) && d0 <= stop <= dst.Length
    requires IsDecodeTable(table[..], length, 10) && Fills(length, 15)
    modifies dst
    ensures Returns(Careful(src, length, dst.Length, stop, r0, old(dst[..d0])), dst, ok, eof, n, last)
    ensures forall j :: stop <= j < dst.Length ==> dst[j] == old(dst[j])
  {
    hide IsDecodeTable, Fills, Begins, Pow2, Refill, Shifted, Careful, CarefulSymbol, Top, Canon;
    ghost var goal := Careful(src, length, dst.Length, stop, r0, dst[..d0]);
    var r, d := r0, d0;
    ok, eof, n, last := false, false, 0, 0;
    while true
      invariant !ok && d <= stop && Regular(src, r) && Careful(src, length, dst.Length, stop, r, dst[..d]) == goal
      invariant IsDecodeTable(table[..], length, 10)
      invariant forall j :: stop <= j < dst.Length ==> dst[j] == old(dst[j])
      decreases stop - d
    {
      var sym, bits, rest := BiordDecode(table, r.mask, 10, length);
      CarefulReads(src, length, dst.Length, stop, r, dst[..d], sym);
      var x := Reader(r.pos, rest, r.free - bits);
      var next := Refill(src, x);
      if next.None? {
        return;
      }
      RefillRegular(src, x);
      var done;
      done, ok, eof, n, last, r, d := CarefulToken(src, dst, stop, sym, next.value, d, length);
      if done {
        return;
      }
    }
  }

  // ----- the fast half -----

  /** Loads a word if fewer than 16 bits are left. */
  function RefillUnchecked(src: seq<Byte>, r: Reader): Reader
    requires r.free < 0 ==> r.pos + 2 <= |src|
  {
    if r.free >= 0 then r
    else Reader(r.pos + 2, Low32(Joined(Peek(src, r.pos), -r.free, r.mask)), r.free + 16)
  }

  function LengthUnchecked(src: seq<Byte>, pos: nat, low: nat): Option<(nat, nat)>
    requires pos + 3 <= |src|
  {
    if low < 15 then Some((low, pos))
    else if src[pos] < 255 then Some((src[pos] as int + 15, pos + 1))
    else if Peek(src, pos + 1) < 255 + 15 then None
    else Some((Peek(src, pos + 1), pos + 3))
  }

  function MatchUnchecked(src: seq<Byte>, r: Reader, sym: nat): Option<MatchRead>
    requires 256 <= sym < 512 && r.pos + 3 <= |src|
  {
    var k := (sym - 256) / 16;
    var len := LengthUnchecked(src, r.pos, (sym - 256) % 16);
    if len.None? then None
    else Some(MatchRead(Pow2(k) + Top(r.mask, k), len.value.0 + 3, Drop(r, k).(pos := len.value.1)))
  }

  lemma UncheckedRefills(src: seq<Byte>, r: Reader)
    requires Regular(src, r) && (r.free < 0 ==> r.pos + 2 <= |src|)
    ensures Refill(src, r) == Some(RefillUnchecked(src, r)) && Regular(src, RefillUnchecked(src, r))
    ensures RefillUnchecked(src, r).free == if r.free < 0 then r.free + 16 else r.free
    ensures RefillUnchecked(src, r).pos == if r.free < 0 then r.pos + 2 else r.pos
  {
    hide Pow2, Low32, Joined, Peek;
    RefillRegular(src, r);
  }

  lemma UncheckedReads(src: seq<Byte>, r: Reader, sym: nat)
    requires 256 <= sym < 512 && Regular(src, r) && r.pos + 3 <= |src|
    ensures MatchAt(src, r, sym) == MatchUnchecked(src, r, sym)
    ensures MatchAt(src, r, sym).Some? ==>
              var m := MatchAt(src, r, sym).value;
              && Regular(src, m.r) && 1 <= m.offset && 3 <= m.length && r.pos <= m.r.pos <= r.pos + 3
              && r.free - 15 <= m.r.free <= r.free
  {
    hide Pow2, Top, Peek;
    if MatchAt(src, r, sym).Some? {
      MatchRegular(src, r, sym);
    }
  }

  /** Room for as many tokens as there are bits left, and for one more. */
  predicate Roomy(src: seq<Byte>, stop: nat, r: Reader, d: nat) {
    0 <= r.free <= 16 && d + 8 * r.free + 136 < stop && r.pos + 3 * r.free + 180 < |src|
  }

  lemma CarefulFinds(src: seq<Byte>, length: seq<nat>, size: nat, stop: nat, sym: nat, r: Reader, dst: seq<Byte>)
    requires |length| == 512 && sym < 512 && |dst| < stop
    ensures var d := CarefulSymbol(src, length, size, stop, sym, r, dst);
      if sym < 256 then d == Careful(src, length, size, stop, r, dst + [sym])
      else
        var found := MatchAt(src, r, sym);
        if found.None? then d.outcome.Failed?
        else 1 <= found.value.offset && 3 <= found.value.length
             && d == CarefulCopy(src, length, size, stop, found.value, dst)
  {
    hide MatchAt, Careful, CarefulCopy;
    if 256 <= sym && MatchAt(src, r, sym).Some? {
      MatchFacts(src, r, sym);
    }
  }

  lemma CarefulCopies(src: seq<Byte>, length: seq<nat>, size: nat, stop: nat, m: MatchRead, dst: seq<Byte>)
    requires |length| == 512 && |dst| < stop && 1 <= m.offset && 3 <= m.length
    ensures var d := CarefulCopy(src, length, size, stop, m, dst);
      && (m.offset > |dst| ==> d.outcome.Failed?)
      && (m.offset <= |dst| && |dst| + m.length <= stop ==>
            if Refill(src, m.r).None? then d.outcome.Failed?
            else d == Careful(src, length, size, stop, Refill(src, m.r).value, Copied(dst, m.offset, m.length)))
  {
    hide Refill, Copied;
  }

  /** Decodes up to `stop` bytes of a text into `dst`, whose length is that of the text; `n` bytes have been decoded,
      and `last` is where the source was left. Until a word is to be loaded near one of the ends, nothing is checked
      but that matches refer to what is there. */
  method DecodeHuffAll(src: seq<Byte>, table: array<nat>, dst: array<Byte>, stop: nat, ghost length: seq<nat>)
    returns (ok: bool, eof: bool, n: nat, last: nat)
    requires 4 <= |src| && |length| == 512 && stop <= dst.Length
    requires IsDecodeTable(table[..], length, 10) && Fills(length, 15)
    modifies dst
    ensures Returns(HuffDecoded(src, length, dst.Length, stop), dst, ok, eof, n, last)
    ensures forall j :: stop <= j < dst.Length ==> dst[j] == old(dst[j])
  {
    hide IsDecodeTable, Fills, Begins, Pow2, Refill, Shifted, Careful, CarefulSymbol, CarefulCopy, Top, Canon, Peek,
         Copied, MatchAt, MatchUnchecked, RefillUnchecked;
    ghost var goal := HuffDecoded(src, length, dst.Length, stop);
    var dstCareful := if stop > RESERVE_DST then stop - RESERVE_DST else 0;
    var srcCareful := if |src| > RESERVE_SRC then |src| - RESERVE_SRC else 0;
    var r, d: nat := Open(src), 0;
    MaskBelow(src, r, 0);
    assert dst[..0] == [];
    ok, eof, n, last := false, false, 0, 0;
    if r.pos >= srcCareful || d >= dstCareful {
      ok, eof, n, last := CarefulHalf(src, table, dst, stop, r, d, length);
      return;
    }
    while true
      invariant !ok && Regular(src, r) && Roomy(src, stop, r, d) && IsDecodeTable(table[..], length, 10)
      invariant Careful(src, length, dst.Length, stop, r, dst[..d]) == goal
      invariant forall j :: stop <= j < dst.Length ==> dst[j] == old(dst[j])
      decreases stop - d
    {
      var sym, bits, rest := BiordDecode(table, r.mask, 10, length);
      CarefulReads(src, length, dst.Length, stop, r, dst[..d], sym);
      var x := Reader(r.pos, rest, r.free - bits);
      if x.free < 0 && (x.pos >= srcCareful || d >= dstCareful) {
        var next := Refill(src, x);
        if next.None? {
          return;
        }
        RefillRegular(src, x);
        var done;
        done, ok, eof, n, last, r, d := CarefulToken(src, dst, stop, sym, next.value, d, length);
        if !done {
          ok, eof, n, last := CarefulHalf(src, table, dst, stop, r, d, length);
        }
        return;
      }
      UncheckedRefills(src, x);
      x := RefillUnchecked(src, x);
      CarefulFinds(src, length, dst.Length, stop, sym, x, dst[..d]);
      if sym < 256 {
        Append(dst, d, sym);
        r, d := x, d + 1;
      } else {
        UncheckedReads(src, x, sym);
        var found := MatchUnchecked(src, x, sym);
        if found.None? {
          return;
        }
        var m := found.value;
        CarefulCopies(src, length, dst.Length, stop, m, dst[..d]);
        if m.offset > d {
          return;
        }
        if m.length <= 8 {
          CopyShort(dst, d, m.offset, m.length);
        } else if d + m.length >= dstCareful {
          var done;
          done, ok, eof, n, last, r, d := CarefulTail(src, dst, stop, m, d, length);
          if !done {
            ok, eof, n, last := CarefulHalf(src, table, dst, stop, r, d, length);
          }
          return;
        } else {
          CopyBlock(dst, d, m.offset, m.length);
        }
        d := d + m.length;
        var more;
        more, ok, eof, n, last, r := FastRefill(src, table, dst, stop, srcCareful, dstCareful, m.r, d, length);
        if !more {
          return;
        }
      }
    }
  }

  /** After a match: a word is loaded if fewer than 16 bits are left, by the careful half if that is near one of the
      ends. `more` says that the fast half goes on. */
  method FastRefill(src: seq<Byte>, table: array<nat>, dst: array<Byte>, stop: nat, srcCareful: nat, dstCareful: nat,
                    y: Reader, d: nat, ghost length: seq<nat>)
    returns (more: bool, ok: bool, eof: bool, n: nat, last: nat, r: Reader)
    requires |length| == 512 && Regular(src, y) && d < stop <= dst.Length && y.free <= 16
    requires -16 <= y.free && (0 <= y.free ==> Roomy(src, stop, y, d))
    requires IsDecodeTable(table[..], length, 10) && Fills(length, 15)
    requires dstCareful == if stop > RESERVE_DST then stop - RESERVE_DST else 0
    requires srcCareful == if |src| > RESERVE_SRC then |src| - RESERVE_SRC else 0
    modifies dst
    ensures more ==> !ok && Regular(src, r) && Roomy(src, stop, r, d) && Refill(src, y) == Some(r)
    ensures more ==> dst[..d] == old(dst[..d])
    ensures !more ==> if Refill(src, y).None? then !ok
                      else Returns(Careful(src, length, dst.Length, stop, Refill(src, y).value, old(dst[..d])),
                                   dst, ok, eof, n, last)
    ensures forall j :: stop <= j < dst.Length ==> dst[j] == old(dst[j])
  {
    hide IsDecodeTable, Fills, Pow2, Refill, Careful, RefillUnchecked;
    more, ok, eof, n, last, r := false, false, false, 0, 0, y;
    if y.free < 0 && (y.pos >= srcCareful || d >= dstCareful) {
      var next := Refill(src, y);
      if next.Some? {
        RefillRegular(src, y);
        ok, eof, n, last := CarefulHalf(src, table, dst, stop, next.value, d, length);
      }
      return;
    }
    UncheckedRefills(src, y);
    more, r := true, RefillUnchecked(src, y);
  }
}
