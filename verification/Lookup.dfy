/** Decoding one symbol with the table: whatever the next bits are, the symbol whose codeword they begin with. */
module Lookup {
  import opened Totals
  import opened PrefixCodes
  import opened CanonicalCodes
  import opened CodeLists
  import opened DecodeTables
  import opened Registers

  /** The codeword of `s` is a prefix of the 32 bits of `mask`. */
  ghost predicate Begins(length: seq<nat>, s: int, mask: nat) {
    && 0 <= s < |length| && 1 <= length[s] <= 15
    && Canon(length, s) == Top(mask, length[s])
  }

  /** At most one codeword begins given bits. */
  lemma OneBegins(length: seq<nat>, s: int, t: int, mask: nat)
    requires Begins(length, s, mask) && Begins(length, t, mask)
    ensures s == t
  {
    hide Canon, Top;
    if s != t {
      if Earlier(length, s, t) {
        EarlierOverlaps(length, s, t, mask);
      } else {
        EarlierOverlaps(length, t, s, mask);
      }
    }
  }

  lemma EarlierOverlaps(length: seq<nat>, s: int, t: int, mask: nat)
    requires Begins(length, s, mask) && Begins(length, t, mask)
    ensures !Earlier(length, s, t)
  {
    hide Canon, Pow2, Top;
    if Earlier(length, s, t) {
      EarlierCodeword(length, s, t);
      TopOfTop(mask, length[s], length[t], Top(mask, length[s]));
    }
  }

  /** A node of level `n`: the symbol whose codeword the first `n` bits are, or a link one level down. */
  lemma NodeDecodes(length: seq<nat>, size: nat, n: nat, v: nat, e: int)
    requires 0 < n <= 15 && Fills(length, 15) && FirstCode(length, n) <= v < Pow2(n)
    requires e == NodeAt(size, length, n, Base(size, length, n) + v - FirstCode(length, n))
    requires 0 <= Base(size, length, n + 1) && |length| <= 0x800
    ensures v < FirstCode(length, n) + Count(length, n) ==>
      0 <= e < 0x8000 && e / 16 < |length| && e % 16 == length[e / 16] == n && Canon(length, e / 16) == v
    ensures v >= FirstCode(length, n) + Count(length, n) ==>
      n < 15 && e == 0x8000 + Base(size, length, n + 1) + 2 * v - FirstCode(length, n + 1) >= 0x8000
  {
    hide Pow2, Canon, CodeList, Base, Total, Count;
    var m := v - FirstCode(length, n);
    if m < Count(length, n) {
      CanonOfPlace(length, n, m, 15);
    } else {
      FirstCodeStep(length, n);
      NotBelowLast(length, n, v);
    }
  }

  lemma FirstCodeStep(length: seq<nat>, n: nat)
    requires 0 < n
    ensures FirstCode(length, n + 1) == 2 * (FirstCode(length, n) + Count(length, n))
  {
  }

  lemma NotBelowLast(length: seq<nat>, n: nat, v: nat)
    requires 0 < n <= 15 && Fills(length, 15) && FirstCode(length, n) + Count(length, n) <= v < Pow2(n)
    ensures n < 15
  {
    hide Pow2, Count, Fills, FirstCode;
    if n == 15 {
      FillsWithin(length, 15);
      FillsIffClosed(length, 15);
      NodesStep(length, 15);
    }
  }

  /** `result` links to the pair of nodes that continue the first `n` bits of `mask`. */
  ghost predicate Linked(length: seq<nat>, size: nat, n: nat, mask: nat, result: int) {
    && 0 < n < 15
    && FirstCode(length, n) + Count(length, n) <= Top(mask, n)
    && result == 0x8000 + Base(size, length, n + 1) + 2 * (Top(mask, n)) - FirstCode(length, n + 1)
  }

  /** The next node is in the table, and is what level n+1 has for one bit more. */
  lemma Descends(t: seq<nat>, length: seq<nat>, rootBits: nat, n: nat, mask: nat, result: int, q: int)
    requires IsDecodeTable(t, length, rootBits) && Fills(length, 15) && |length| <= 0x800
    requires 0 < rootBits <= n && Linked(length, |t|, n, mask, result) && mask < Pow2(32)
    requires q == result - 0x8000 + if Shifted(mask, n) >= Pow2(31) then 1 else 0
    ensures 0 <= q < |t|
    ensures t[q] >= 0x8000 ==> Linked(length, |t|, n + 1, mask, t[q])
    ensures t[q] < 0x8000 ==> Begins(length, t[q] / 16, mask) && t[q] % 16 == length[t[q] / 16] == n + 1
  {
    hide Pow2, Canon, CodeList, Count, Base, Total, NodeAt, FirstCode, Fills, Root, Top, Shifted;
    var v := Top(mask, n + 1);
    NextBit(mask, n);
    TopBelow(mask, n + 1);
    FillsWithin(length, 15);
    FillsIffClosed(length, 15);
    FirstCodeStep(length, n);
    LevelBounds(Pow2(rootBits), |t|, length, n + 1);
    LevelBounds(Pow2(rootBits), |t|, length, n + 2);
    BaseStep(|t|, length, n + 1);
    assert t[q] == NodeAt(|t|, length, n + 1, q);
    NodeDecodes(length, |t|, n + 1, v, t[q]);
  }

  /** What a root entry says. */
  ghost predicate Resolves(length: seq<nat>, size: nat, rootBits: nat, mask: nat, e: nat) {
    && (e >= 0x8000 ==> Linked(length, size, rootBits, mask, e))
    && (e < 0x8000 ==> Begins(length, e / 16, mask) && e % 16 == length[e / 16])
  }

  /** The root's entry for the first bits. */
  lemma RootDecodes(t: seq<nat>, length: seq<nat>, rootBits: nat, mask: nat)
    requires IsDecodeTable(t, length, rootBits) && Fills(length, 15) && |length| <= 0x800 && 0 < rootBits <= 15
             && mask < Pow2(32)
    ensures Top(mask, rootBits) < |t| && Resolves(length, |t|, rootBits, mask, t[Top(mask, rootBits)])
  {
    hide Pow2, Canon, CodeList, Count, Base, Total, NodeAt, FirstCode, Fills, Levels, Top;
    var v := Top(mask, rootBits);
    TopBelow(mask, rootBits);
    assert RootAt(|t|, length, rootBits, v, t[v]);
    if v < FirstCode(length, rootBits) + Count(length, rootBits) {
      ShortBegins(length, rootBits, mask, t[v]);
    } else {
      FillsWithin(length, 15);
      FillsIffClosed(length, 15);
      LevelBounds(Pow2(rootBits), |t|, length, rootBits + 1);
      NotBelowLast(length, rootBits, v);
      FirstCodeStep(length, rootBits);
    }
  }

  lemma ShortBegins(length: seq<nat>, rootBits: nat, mask: nat, e: nat)
    requires 0 < rootBits <= 15 && Short(length, rootBits, Top(mask, rootBits), e) && |length| <= 0x800
             && Fills(length, 15)
    ensures e < 0x8000 && Begins(length, e / 16, mask)
  {
    hide Pow2, Canon, Top;
    CodewordFits(length, 15, e / 16);
    TopOfTop(mask, e % 16, rootBits, Canon(length, e / 16));
  }

  /** The symbol whose codeword begins the mask, its length, and the mask without it. */
  method BiordDecode(table: array<nat>, mask: nat, rootBits: nat, ghost length: seq<nat>)
    returns (sym: nat, bits: nat, rest: nat)
    requires IsDecodeTable(table[..], length, rootBits) && Fills(length, 15) && |length| <= 0x800 && 0 < rootBits <= 15
    requires mask < Pow2(32)
    ensures Begins(length, sym, mask) && bits == length[sym] && rest == Shifted(mask, bits)
    ensures forall s :: Begins(length, s, mask) ==> s == sym
  {
    hide Pow2, Canon, IsDecodeTable, Fills, Linked, Shifted, Begins, Top, Resolves;
    RootDecodes(table[..], length, rootBits, mask);
    ResolvedLevel(length, table.Length, rootBits, mask, table[Top(mask, rootBits)]);
    var result := table[Top(mask, rootBits)];
    if result >= 0x8000 {
      rest := Shifted(mask, rootBits);
      ghost var n := rootBits;
      while true
        invariant rootBits <= n < 15 && result >= 0x8000 && Linked(length, table.Length, n, mask, result)
        invariant rest == Shifted(mask, n)
        decreases 15 - n
      {
        var q := result - 0x8000;
        if rest >= Pow2(31) {
          q := q + 1;
        }
        Descends(table[..], length, rootBits, n, mask, result, q);
        ShiftOnce(mask, n);
        result := table[q];
        rest := Shifted(rest, 1);
        n := n + 1;
        if result < 0x8000 {
          break;
        }
        LinkedLevel(length, table.Length, n, mask, result);
      }
      bits := result % 16;
    } else {
      bits := result % 16;
      rest := Shifted(mask, bits);
    }
    sym := result / 16;
    BeginsLength(length, sym, mask);
    forall s | Begins(length, s, mask) ensures s == sym {
      OneBegins(length, s, sym, mask);
    }
  }

  lemma ResolvedLevel(length: seq<nat>, size: nat, rootBits: nat, mask: nat, e: nat)
    requires Resolves(length, size, rootBits, mask, e)
    ensures e >= 0x8000 ==> rootBits < 15 && Linked(length, size, rootBits, mask, e)
    ensures e < 0x8000 ==> Begins(length, e / 16, mask) && e % 16 == length[e / 16]
  {
  }

  lemma LinkedLevel(length: seq<nat>, size: nat, n: nat, mask: nat, result: int)
    requires Linked(length, size, n, mask, result)
    ensures n < 15
  {
  }

  lemma BeginsLength(length: seq<nat>, s: int, mask: nat)
    requires Begins(length, s, mask)
    ensures 0 <= s < |length|
  {
  }
}
