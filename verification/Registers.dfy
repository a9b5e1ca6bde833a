/** A 32-bit register as a number: its top bits and shifts to the left. */
module Registers {
  import opened PrefixCodes

  function Over(m: nat, p: nat): nat
    requires 0 < p
  {
    m / p
  }

  function Left(m: nat, p: nat): nat
    requires 0 < p
  {
    m % p
  }

  /** The first `n` of the 32 bits of `mask`. */
  function Top(mask: nat, n: nat): nat
    requires n <= 32
  {
    Over(mask, Pow2(32 - n))
  }

  /** A shift to the left that drops what leaves the register. */
  function Shifted(mask: nat, bits: nat): nat { Left(mask * Pow2(bits), Pow2(32)) }

  lemma DivMod(m: nat, p: nat)
    requires 0 < p
    ensures m == Over(m, p) * p + Left(m, p) && Left(m, p) < p
  {
  }

  lemma QuotientIs(m: nat, p: nat, v: nat, r: nat)
    requires r < p && m == v * p + r
    ensures Over(m, p) == v && Left(m, p) == r
  {
    hide Over, Left;
    DivMod(m, p);
    NotAbove(Over(m, p), Left(m, p), v, r, p);
    NotAbove(v, r, Over(m, p), Left(m, p), p);
  }

  lemma NotAbove(v: nat, r: nat, q: nat, s: nat, p: nat)
    requires r < p && s < p && v * p + r == q * p + s
    ensures v <= q
  {
    if v > q {
      ScaleLe(p, q + 1, v);
    }
  }

  lemma Regroup(v: nat, r: nat, p: nat, u: nat)
    ensures (v * p + r) * u == v * (p * u) + r * u
  {
    assert (v * p) * u == v * (p * u);
  }

  lemma ScaleLess(r: nat, p: nat, u: nat)
    requires r < p && 0 < u
    ensures r * u < p * u
  {
  }

  lemma ScaleBack(r: nat, p: nat, u: nat)
    requires 0 < u
    ensures r * u >= p * u <==> r >= p
  {
    if r < p {
      ScaleLess(r, p, u);
    } else {
      ScaleLe(u, p, r);
    }
  }

  /** Shifting leaves what the top bits leave. */
  lemma ShiftedIsRest(mask: nat, n: nat)
    requires n <= 32
    ensures Shifted(mask, n) == Left(mask, Pow2(32 - n)) * Pow2(n)
  {
    hide Pow2, Over, Left;
    Pow2Add(32 - n, n);
    Shifts(mask, Pow2(32 - n), Pow2(n));
  }

  lemma Shifts(mask: nat, p: nat, u: nat)
    requires 0 < p && 0 < u
    ensures 0 < p * u && Left(mask * u, p * u) == Left(mask, p) * u
  {
    hide Over, Left;
    DivMod(mask, p);
    var v, r := Over(mask, p), Left(mask, p);
    Regroup(v, r, p, u);
    ScaleLess(0, p, u);
    ScaleLess(r, p, u);
    QuotientIs(mask * u, p * u, v, r * u);
  }

  lemma HalfUnit(mask: nat, h: nat)
    requires 0 < h
    ensures Over(mask, h) == 2 * Over(mask, 2 * h) + (if Left(mask, 2 * h) >= h then 1 else 0)
  {
    hide Over, Left;
    DivMod(mask, 2 * h);
    var v, r := Over(mask, 2 * h), Left(mask, 2 * h);
    TwoAnd(v, 0, h);
    TwiceUnit(v, h);
    if r >= h {
      OneMore(2 * v, h);
      QuotientIs(mask, h, 2 * v + 1, r - h);
    } else {
      QuotientIs(mask, h, 2 * v, r);
    }
  }

  lemma TwiceUnit(v: nat, h: nat)
    ensures v * (2 * h) == 2 * (v * h)
  {
  }

  lemma TwoAnd(a: nat, b: nat, w: nat)
    ensures (2 * a + b) * w == 2 * (a * w) + b * w
  {
  }

  /** The next bit is the top one of what is left; it extends the bits read. */
  lemma NextBit(mask: nat, n: nat)
    requires n < 32
    ensures Top(mask, n + 1) == 2 * Top(mask, n) + (if Shifted(mask, n) >= Pow2(31) then 1 else 0)
  {
    hide Pow2, Shifted, Over, Left;
    PowNext(31 - n);
    ShiftedIsRest(mask, n);
    HalfUnit(mask, Pow2(31 - n));
    Pow2Add(31 - n, n);
    ScaleBack(Left(mask, Pow2(32 - n)), Pow2(31 - n), Pow2(n));
  }

  lemma ShiftOnce(mask: nat, n: nat)
    ensures Shifted(mask, n + 1) == Shifted(Shifted(mask, n), 1)
  {
    ShiftAgain(mask, n, 1);
  }

  lemma ShiftAgain(mask: nat, m: nat, n: nat)
    ensures Shifted(mask, m + n) == Shifted(Shifted(mask, m), n)
  {
    hide Pow2, Over, Left;
    Pow2Add(m, n);
    Regroup(mask, 0, Pow2(m), Pow2(n));
    ScaledMod(mask * Pow2(m), Pow2(n), Pow2(32));
  }

  lemma ScaledMod(m: nat, u: nat, w: nat)
    requires 0 < w
    ensures Left(m * u, w) == Left(Left(m, w) * u, w)
  {
    hide Over, Left;
    DivMod(m, w);
    var a, r := Over(m, w), Left(m, w);
    DivMod(r * u, w);
    Regroup(a, r, w, u);
    Exchange(a, w, u);
    SumUnits(a * u, Over(r * u, w), w);
    QuotientIs(m * u, w, a * u + Over(r * u, w), Left(r * u, w));
  }

  lemma Exchange(a: nat, w: nat, u: nat)
    ensures a * (w * u) == a * u * w
  {
  }

  lemma SumUnits(a: nat, b: nat, w: nat)
    ensures (a + b) * w == a * w + b * w
  {
  }

  lemma TopBelow(mask: nat, n: nat)
    requires mask < Pow2(32) && n <= 32
    ensures Top(mask, n) < Pow2(n)
  {
    hide Pow2, Over, Left;
    Pow2Add(n, 32 - n);
    DivMod(mask, Pow2(32 - n));
    ScaleBack(Over(mask, Pow2(32 - n)), Pow2(n), Pow2(32 - n));
  }

  /** Fewer top bits from more. */
  lemma TopOfTop(mask: nat, l: nat, n: nat, c: nat)
    requires l <= n <= 32
    ensures Top(mask, l) == c <==> c * Pow2(n - l) <= Top(mask, n) < (c + 1) * Pow2(n - l)
  {
    hide Pow2, Over;
    Pow2Add(n - l, 32 - n);
    CoarserUnit(mask, Pow2(n - l), Pow2(32 - n), c);
  }

  lemma CoarserUnit(mask: nat, d: nat, p: nat, c: nat)
    requires 0 < d && 0 < p
    ensures 0 < d * p && (Over(mask, d * p) == c <==> c * d <= Over(mask, p) < (c + 1) * d)
  {
    hide Over, Left;
    var v := Over(mask, p);
    DivMod(mask, p);
    DivMod(v, d);
    var q, s := Over(v, d), Left(v, d);
    ScaleLess(0, d, p);
    Regroup(q, s, d, p);
    OneMore(s, p);
    ScaleLe(p, s + 1, d);
    QuotientIs(mask, d * p, q, s * p + Left(mask, p));
    OneMore(c, d);
    if c * d <= v < (c + 1) * d {
      QuotientIs(v, d, c, v - c * d);
    }
  }
}
