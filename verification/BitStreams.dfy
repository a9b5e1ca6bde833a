/** Bit fields and whole bytes in one stream. */
module BitStreams {
  // Fields are collected into 16-bit words, whose places are reserved two words ahead of the bytes that follow.

  import opened PrefixCodes
  import opened CanonicalCodes
  import opened Registers

  type Byte = b: nat | b < 256

  datatype Option<T> = None | Some(value: T)

  /** The 16-bit value at `p`, low byte first. */
  function Peek(src: seq<Byte>, p: nat): (v: nat)
    requires p + 2 <= |src|
    ensures v < 0x10000
  {
    src[p] as int + 256 * (src[p + 1] as int)
  }

  /** The number a string of bits denotes, most significant bit first. */
  ghost function Value(w: seq<bool>): nat {
    if w == [] then 0 else 2 * Value(w[..|w| - 1]) + if w[|w| - 1] then 1 else 0
  }

  ghost function Zeros(n: nat): (z: seq<bool>)
    ensures |z| == n
  {
    seq(n, _ => false)
  }

  lemma {:induction false} ValueConcat(a: seq<bool>, b: seq<bool>)
    ensures Value(a + b) == Value(a) * Pow2(|b|) + Value(b)
  {
    if b == [] {
      assert a + b == a;
      PowZero();
    } else {
      var last := |b| - 1;
      ValueConcat(a, b[..last]);
      assert (a + b)[..|a + b| - 1] == a + b[..last];
      PowNext(last);
      TwiceUnit(Value(a), Pow2(last));
    }
  }

  lemma {:induction false} ValueBelow(w: seq<bool>)
    ensures Value(w) < Pow2(|w|)
  {
    if w != [] {
      ValueBelow(w[..|w| - 1]);
    }
  }

  lemma {:induction false} ValueOfZeros(n: nat)
    ensures Value(Zeros(n)) == 0
  {
    if n != 0 {
      ValueOfZeros(n - 1);
      assert Zeros(n)[..n - 1] == Zeros(n - 1);
    }
  }

  lemma {:induction false} ValueOfWord(v: nat, n: nat)
    requires v < Pow2(n)
    ensures Value(Word(v, n)) == v
  {
    if n != 0 {
      PowNext(n - 1);
      ValueOfWord(v / 2, n - 1);
      assert Word(v, n)[..n - 1] == Word(v / 2, n - 1);
    }
  }

  // ----- arithmetic of joined fields -----

  /** A field appended to a register of which only the low part counts. */
  lemma JoinLow(m: nat, p: nat, x: nat, n: nat, v: nat)
    requires 0 < p && 0 < n && Left(m, p) == x && v < n
    ensures 0 < p * n && Left(m * n + v, p * n) == x * n + v
  {
    hide Over, Left;
    DivMod(m, p);
    var q := Over(m, p);
    ScaleLess(0, p, n);
    Regroup(q, x, p, n);
    OneMore(x, n);
    ScaleLe(n, x + 1, p);
    QuotientIs(m * n + v, p * n, q, x * n + v);
  }

  lemma JoinBelow(m: nat, p: nat, n: nat, v: nat)
    requires m < p && v < n
    ensures m * n + v < p * n
  {
    OneMore(m, n);
    ScaleLe(n, m + 1, p);
  }

  /** The register's low part is the value of `cur`; after appending `w` it is that of `cur + w`. */
  lemma AppendValue(mask: nat, cur: seq<bool>, w: seq<bool>)
    requires Left(mask, Pow2(|cur|)) == Value(cur)
    ensures Left(mask * Pow2(|w|) + Value(w), Pow2(|cur| + |w|)) == Value(cur + w)
  {
    hide Pow2, Left, Over, Value;
    ValueBelow(w);
    JoinLow(mask, Pow2(|cur|), Value(cur), Pow2(|w|), Value(w));
    Pow2Add(|cur|, |w|);
    ValueConcat(cur, w);
  }

  /** The parts of a field that spans two words. */
  lemma SplitValue(w: seq<bool>, k: nat)
    requires k <= |w|
    ensures Over(Value(w), Pow2(|w| - k)) == Value(w[..k]) && Left(Value(w), Pow2(|w| - k)) == Value(w[k..])
  {
    hide Pow2, Left, Over, Value;
    assert w == w[..k] + w[k..];
    ValueConcat(w[..k], w[k..]);
    ValueBelow(w[k..]);
    QuotientIs(Value(w), Pow2(|w| - k), Value(w[..k]), Value(w[k..]));
  }

  // ----- collecting a word -----

  /** A field of `n` bits shifted in from the right. */
  function Joined(mask: nat, n: nat, v: nat): nat { mask * Pow2(n) + v }

  /** The bits of `v` but the last `n`. */
  function Upper(v: nat, n: nat): nat { Over(v, Pow2(n)) }

  function Low16(v: nat): nat { Left(v, Pow2(16)) }

  /** The low bits of `mask` are `cur`, the bits of the word that is being collected; what is above them never reaches
      the top bit of the register. */
  ghost predicate Collecting(mask: nat, cur: seq<bool>) {
    |cur| <= 16 && mask < Pow2(15 + |cur|) && Left(mask, Pow2(|cur|)) == Value(cur)
  }

  lemma CollectNothing()
    ensures Collecting(0, [])
  {
    hide Over, Left, Pow2;
    QuotientIs(0, Pow2(0), 0, 0);
  }

  lemma CollectMore(mask: nat, cur: seq<bool>, w: seq<bool>)
    requires Collecting(mask, cur) && |cur| + |w| <= 16
    ensures Collecting(Joined(mask, |w|, Value(w)), cur + w)
  {
    hide Over, Left, Pow2, Value;
    AppendValue(mask, cur, w);
    ValueBelow(w);
    JoinBelow(mask, Pow2(15 + |cur|), Pow2(|w|), Value(w));
    Pow2Add(15 + |cur|, |w|);
  }

  /** A field that does not fit completes the word and begins the next one. */
  lemma CollectSpill(mask: nat, cur: seq<bool>, w: seq<bool>, free: nat)
    requires Collecting(mask, cur) && free == 16 - |cur| < |w| <= 15
    ensures Low16(Joined(mask, free, Upper(Value(w), |w| - free))) == Value(cur + w[..free]) < 0x10000
    ensures Collecting(Value(w), w[free..])
  {
    hide Over, Left, Pow2, Value;
    SplitValue(w, free);
    AppendValue(mask, cur, w[..free]);
    ValueBelow(cur + w[..free]);
    Pow16();
    ValueBelow(w);
    Pow2Monotone(|w|, 15 + |w| - free);
  }

  /** The last word is filled up with zeros. */
  lemma CollectEnd(mask: nat, cur: seq<bool>, free: nat)
    requires Collecting(mask, cur) && free == 16 - |cur|
    ensures Low16(Joined(mask, free, 0)) == Value(cur + Zeros(free)) < 0x10000
  {
    hide Over, Left, Pow2, Value;
    ValueOfZeros(free);
    AppendValue(mask, cur, Zeros(free));
    ValueBelow(cur + Zeros(free));
    Pow16();
  }

  // ----- bits at the top of a register -----

  /** The bits `t` at the top of a register. */
  ghost function Aligned(t: seq<bool>): nat
    requires |t| <= 32
  {
    Value(t) * Pow2(32 - |t|)
  }

  lemma AlignedBelow(t: seq<bool>)
    requires |t| <= 32
    ensures Aligned(t) < Pow2(32)
  {
    hide Pow2, Value;
    ValueBelow(t);
    Pow2Add(|t|, 32 - |t|);
    ScaleLess(Value(t), Pow2(|t|), Pow2(32 - |t|));
  }

  lemma ShiftAligned(t: seq<bool>, n: nat)
    requires n <= |t| <= 32
    ensures Shifted(Aligned(t), n) == Aligned(t[n..])
  {
    hide Pow2, Left, Over, Value;
    var a, b := t[..n], t[n..];
    assert t == a + b;
    ValueConcat(a, b);
    AlignedBelow(b);
    var p := Pow2(32 - |t|);
    Pow2Add(32 - |t|, n);
    Pow2Add(|b|, 32 - |t| + n);
    ShiftParts(Value(a), Value(b), Pow2(|b|), p, Pow2(n));
    QuotientIs(Aligned(t) * Pow2(n), Pow2(32), Value(a), Aligned(b));
  }

  lemma ShiftParts(a: nat, b: nat, s: nat, p: nat, u: nat)
    ensures (a * s + b) * p * u == a * (s * (p * u)) + b * (p * u)
  {
    Regroup(a, b, s, p);
    Regroup(a, b * p, s * p, u);
    assert s * p * u == s * (p * u) && b * p * u == b * (p * u);
  }

  lemma TopAligned(t: seq<bool>, n: nat)
    requires n <= |t| <= 32
    ensures Top(Aligned(t), n) == Value(t[..n])
  {
    hide Pow2, Left, Over, Value;
    var a, b := t[..n], t[n..];
    assert t == a + b;
    ValueConcat(a, b);
    ValueBelow(b);
    var p := Pow2(32 - |t|);
    Pow2Add(|b|, 32 - |t|);
    Regroup(Value(a), Value(b), Pow2(|b|), p);
    ScaleLess(Value(b), Pow2(|b|), p);
    QuotientIs(Aligned(t), Pow2(32 - n), Value(a), Value(b) * p);
  }

  /** The 32-bit register keeps what fits. */
  function Low32(v: nat): nat { Left(v, Pow2(32)) }

  lemma RefillAligned(t: seq<bool>, w: seq<bool>)
    requires |w| == 16 && |t| <= 16
    ensures Low32(Joined(Value(w), 16 - |t|, Aligned(t))) == Aligned(t + w)
  {
    hide Pow2, Value, Over, Left;
    AlignedBelow(t + w);
    QuotientIs(Aligned(t + w), Pow2(32), 0, Aligned(t + w));
    ValueConcat(t, w);
    Pow2Add(16, 16 - |t|);
    Regroup(Value(t), Value(w), Pow2(16), Pow2(16 - |t|));
  }
}
