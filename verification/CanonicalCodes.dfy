/** Canonical codes: the codewords that lengths alone determine. */
module CanonicalCodes {
  // Shorter codewords come first and, among equals, those of smaller symbols. Encoder and decoder are both held
  // against `Canon`.

  import opened Totals
  import opened PrefixCodes
  import opened HuffmanTrees

  /** What symbol `s` takes of the code space before the codeword of `sym`, in units of that codeword's length.
      Length 0 means that a symbol is not used. */
  ghost function Taking(length: seq<nat>, sym: int): int -> int {
    s => if At(length, s) == 0 then 0
         else if At(length, s) < At(length, sym) then ShareOf(At(length, sym), At(length, s))
         else if At(length, s) == At(length, sym) && s < sym then 1
         else 0
  }

  /** The codeword of `sym`, as a number of At(length, sym) bits. */
  ghost function Canon(length: seq<nat>, sym: int): int {
    Total(Numbers(0, |length|), Taking(length, sym))
  }

  /** The space a symbol takes among codewords of `top` bits. */
  ghost function Space(length: seq<nat>, top: nat): int -> int {
    s => if At(length, s) == 0 then 0 else ShareOf(top, At(length, s))
  }

  /** The lengths fill the code space of `top` bits exactly. */
  ghost predicate Fills(length: seq<nat>, top: nat) {
    && (forall s :: 0 <= s < |length| ==> length[s] <= top)
    && Total(Numbers(0, |length|), Space(length, top)) == Pow2(top)
  }

  lemma FillsWithin(length: seq<nat>, top: nat)
    requires Fills(length, top)
    ensures forall s :: 0 <= s < |length| ==> length[s] <= top
  {
  }

  // ----- the order of the codewords -----

  /** Whether the codeword of `s` comes before that of `t`. */
  ghost predicate Earlier(length: seq<nat>, s: int, t: int) {
    At(length, s) < At(length, t) || (At(length, s) == At(length, t) && s < t)
  }

  ghost predicate InCodeOrder(list: seq<int>, length: seq<nat>) {
    && (forall i :: 0 <= i < |list| ==> 0 <= list[i] < |length| && 0 < length[list[i]])
    && (forall i, j :: 0 <= i < j < |list| ==> Earlier(length, list[i], list[j]))
  }

  /** The used symbols in increasing order. */
  ghost function Used(length: seq<nat>): seq<int> {
    if length == [] then []
    else
      var last := |length| - 1;
      Used(length[..last]) + if length[last] == 0 then [] else [last]
  }

  lemma {:induction false} UsedFacts(length: seq<nat>)
    ensures forall i :: 0 <= i < |Used(length)| ==> 0 <= Used(length)[i] < |length| && 0 < length[Used(length)[i]]
    ensures forall i, j :: 0 <= i < j < |Used(length)| ==> Used(length)[i] < Used(length)[j]
    ensures forall s :: 0 <= s < |length| && 0 < length[s] ==> s in Used(length)
  {
    hide Used;
    if length == [] {
      UsedNone();
    } else {
      var last := |length| - 1;
      assert length == length[..last + 1] && length[..last + 1][..last] == length[..last];
      UsedFacts(length[..last]);
      UsedStep(length, last);
      UsedFactsStep(length, Used(length[..last]), Used(length));
    }
  }

  lemma UsedFactsStep(length: seq<nat>, u: seq<int>, v: seq<int>)
    requires length != []
    requires v == u + if length[|length| - 1] == 0 then [] else [|length| - 1]
    requires forall i :: 0 <= i < |u| ==> 0 <= u[i] < |length| - 1 && 0 < length[u[i]]
    requires forall i, j :: 0 <= i < j < |u| ==> u[i] < u[j]
    requires forall s :: 0 <= s < |length| - 1 && 0 < length[s] ==> s in u
    ensures forall i :: 0 <= i < |v| ==> 0 <= v[i] < |length| && 0 < length[v[i]]
    ensures forall i, j :: 0 <= i < j < |v| ==> v[i] < v[j]
    ensures forall s :: 0 <= s < |length| && 0 < length[s] ==> s in v
  {
  }

  lemma UsedStep(length: seq<nat>, n: nat)
    requires n < |length|
    ensures Used(length[..n + 1]) == Used(length[..n]) + if length[n] == 0 then [] else [n]
  {
    assert length[..n + 1][..n] == length[..n];
  }

  lemma {:induction false} UsedTotal(length: seq<nat>, n: nat, f: int -> int)
    requires n <= |length| && forall s :: 0 <= s < |length| && length[s] == 0 ==> f(s) == 0
    ensures Total(Numbers(0, n), f) == Total(Used(length[..n]), f)
  {
    hide Used;
    if n == 0 {
      assert length[..0] == [] && Numbers(0, 0) == [];
      UsedNone();
    } else {
      UsedTotal(length, n - 1, f);
      UsedStep(length, n - 1);
      assert Used(length[..n - 1]) + [] == Used(length[..n - 1]);
      assert Numbers(0, n)[..n - 1] == Numbers(0, n - 1);
      TotalOneMore(Used(length[..n - 1]), n - 1, f);
    }
  }

  lemma UsedNone()
    ensures Used([]) == []
  {
  }

  ghost function SpaceAt(length: seq<nat>, top: nat): int -> int {
    s => ShareOf(top, At(length, s))
  }

  /** In a list of all used symbols in code order, the codeword of entry `k` is the space its predecessors take. */
  lemma CanonInList(list: seq<int>, length: seq<nat>, k: nat)
    requires InCodeOrder(list, length) && multiset(list) == multiset(Used(length)) && k < |list|
    ensures 0 <= list[k] < |length|
    ensures Canon(length, list[k]) == Total(list[..k], SpaceAt(length, length[list[k]]))
  {
    hide Total, Used, InCodeOrder, Taking;
    TakingInList(list, length, k);
    var sym := list[k];
    var f := Taking(length, sym);
    assert length[..|length|] == length;
    TakingNothing(length, sym);
    UsedTotal(length, |length|, f);
    TotalPermutes(list, Used(length), f);
    assert list == list[..k] + list[k..];
    TotalAppend(list[..k], list[k..], f);
    TotalSame(list[..k], f, SpaceAt(length, length[sym]));
    TotalConstant(list[k..], f, 0);
  }

  lemma TakingNothing(length: seq<nat>, sym: int)
    ensures forall s :: 0 <= s < |length| && length[s] == 0 ==> Taking(length, sym)(s) == 0
  {
  }

  lemma TakingInList(list: seq<int>, length: seq<nat>, k: nat)
    requires InCodeOrder(list, length) && k < |list|
    ensures 0 <= list[k] < |length|
    ensures forall i :: 0 <= i < |list[..k]| ==>
              Taking(length, list[k])(list[..k][i]) == SpaceAt(length, length[list[k]])(list[..k][i])
    ensures forall i :: 0 <= i < |list[k..]| ==> Taking(length, list[k])(list[k..][i]) == 0
  {
    forall i | 0 <= i < k ensures Taking(length, list[k])(list[i]) == SpaceAt(length, length[list[k]])(list[i]) {
      assert Earlier(length, list[i], list[k]);
    }
    forall i | k <= i < |list| ensures Taking(length, list[k])(list[i]) == 0 {
      assert i == k || Earlier(length, list[k], list[i]);
    }
  }

  /** Space measured in longer codewords. */
  lemma SpaceScales(list: seq<int>, length: seq<nat>, low: nat, high: nat)
    requires low <= high && forall i :: 0 <= i < |list| ==> At(length, list[i]) <= low
    ensures Total(list, SpaceAt(length, high)) == Total(list, SpaceAt(length, low)) * Pow2(high - low)
  {
    forall i | 0 <= i < |list|
      ensures SpaceAt(length, high)(list[i]) == SpaceAt(length, low)(list[i]) * Pow2(high - low) {
      Pow2Add(low - At(length, list[i]), high - low);
    }
    TotalScales(list, SpaceAt(length, low), SpaceAt(length, high), Pow2(high - low));
  }

  // ----- codewords as bits -----

  /** The `len` lowest bits of `value`, most significant first. */
  function Word(value: nat, len: nat): (w: seq<bool>)
    ensures |w| == len
  {
    if len == 0 then [] else Word(value / 2, len - 1) + [value % 2 == 1]
  }

  /** The codeword of a symbol. */
  ghost function CodeWord(length: seq<nat>, sym: int): seq<bool> {
    if Canon(length, sym) >= 0 then Word(Canon(length, sym), At(length, sym)) else []
  }

  lemma {:induction false} WordInjective(a: nat, b: nat, len: nat)
    requires a < Pow2(len) && b < Pow2(len) && Word(a, len) == Word(b, len)
    ensures a == b
  {
    if len != 0 {
      var x, y := Word(a, len), Word(b, len);
      assert x[..len - 1] == Word(a / 2, len - 1) && y[..len - 1] == Word(b / 2, len - 1);
      assert x[len - 1] == (a % 2 == 1) && y[len - 1] == (b % 2 == 1);
      WordInjective(a / 2, b / 2, len - 1);
    }
  }

  lemma {:induction false} WordPrefix(a: nat, la: nat, b: nat, lb: nat)
    requires a < Pow2(la) && b < Pow2(lb) && Word(a, la) <= Word(b, lb)
    ensures la <= lb && a * Pow2(lb - la) <= b < (a + 1) * Pow2(lb - la)
    decreases lb
  {
    hide Word;
    WordSize(a, la);
    WordSize(b, lb);
    if la == lb {
      assert Word(a, la) == Word(b, lb);
      WordInjective(a, b, la);
    } else {
      WordShorter(b, lb);
      WordPrefix(a, la, b / 2, lb - 1);
      Doubled(a, b, Pow2(lb - 1 - la));
    }
  }

  lemma WordSize(a: nat, la: nat)
    ensures |Word(a, la)| == la
  {
  }

  lemma WordShorter(b: nat, lb: nat)
    requires 0 < lb
    ensures |Word(b, lb)| == lb && Word(b, lb)[..lb - 1] == Word(b / 2, lb - 1)
  {
  }

  lemma Doubled(a: nat, b: nat, p: nat)
    requires a * p <= b / 2 < (a + 1) * p
    ensures a * (2 * p) <= b < (a + 1) * (2 * p)
  {
    var q, r := a * p, (a + 1) * p;
    assert a * (2 * p) == 2 * q && (a + 1) * (2 * p) == 2 * r;
  }

  ghost function Scaled(f: int -> int, p: int): int -> int { x => f(x) * p }

  ghost function Single(s: int, p: int): int -> int { x => if x == s then p else 0 }

  ghost function Both(f: int -> int, g: int -> int): int -> int { x => f(x) + g(x) }

  /** If what `f` counts, in units of `p`, and one more unit for `s` fit into `g`, so do the totals. */
  lemma UnitsFit(n: nat, f: int -> int, g: int -> int, s: nat, p: int)
    requires s < n && forall x :: 0 <= x < n ==> f(x) * p + (if x == s then p else 0) <= g(x)
    ensures Total(Numbers(0, n), f) * p + p <= Total(Numbers(0, n), g)
  {
    hide Total;
    var all := Numbers(0, n);
    TotalAtMost(all, Both(Scaled(f, p), Single(s, p)), g);
    TotalSplit(all, Both(Scaled(f, p), Single(s, p)), Scaled(f, p), Single(s, p), 1);
    TotalScales(all, f, Scaled(f, p), p);
    TotalSingle(n, s, Single(s, p), p);
  }

  /** Taken in units of a later codeword, an earlier codeword's predecessors and itself come first. */
  lemma EarlierCodeword(length: seq<nat>, s: int, t: int)
    requires 0 <= s < |length| && 0 <= t < |length| && 0 < length[s] && Earlier(length, s, t)
    ensures (Canon(length, s) + 1) * Pow2(length[t] - length[s]) <= Canon(length, t)
  {
    hide Total, Pow2, Taking;
    var p, f, g := Pow2(length[t] - length[s]), Taking(length, s), Taking(length, t);
    forall x | 0 <= x < |length| ensures f(x) * p + (if x == s then p else 0) <= g(x) {
      TakingScales(length, s, t, x);
    }
    UnitsFit(|length|, f, g, s, p);
    OneMore(Canon(length, s), p);
  }

  lemma TakingScales(length: seq<nat>, s: int, t: int, x: int)
    requires 0 <= s < |length| && 0 <= t < |length| && 0 < length[s] && Earlier(length, s, t)
    ensures Taking(length, s)(x) * Pow2(length[t] - length[s]) +
              (if x == s then Pow2(length[t] - length[s]) else 0) <= Taking(length, t)(x)
  {
    if 0 < At(length, x) < length[s] {
      Pow2Add(length[s] - At(length, x), length[t] - length[s]);
    }
  }

  lemma {:induction false} TotalSingle(n: nat, s: int, f: int -> int, m: int)
    requires 0 <= s && forall x :: f(x) == if x == s then m else 0
    ensures Total(Numbers(0, n), f) == if s < n then m else 0
  {
    if n != 0 {
      TotalSingle(n - 1, s, f, m);
      assert Numbers(0, n)[..n - 1] == Numbers(0, n - 1);
    }
  }

  lemma CodewordFits(length: seq<nat>, top: nat, t: int)
    requires Fills(length, top) && 0 <= t < |length| && 0 < length[t]
    ensures 0 <= Canon(length, t) < Pow2(length[t])
  {
    hide Total, Pow2, Taking, Space;
    var p, f, g := Pow2(top - length[t]), Taking(length, t), Space(length, top);
    forall x | 0 <= x < |length| ensures 0 <= f(x) && f(x) * p + (if x == t then p else 0) <= g(x) {
      TakingWithinSpace(length, top, t, x);
    }
    UnitsFit(|length|, f, g, t, p);
    TotalNonNegative(Numbers(0, |length|), f);
    Pow2Add(length[t], top - length[t]);
    RoomForOne(Canon(length, t), Pow2(length[t]), p);
  }

  lemma RoomForOne(c: int, room: nat, p: nat)
    requires 0 < p && c * p + p <= room * p
    ensures c < room
  {
    if room <= c {
      ScaleLe(p, room, c);
    }
  }

  lemma TakingWithinSpace(length: seq<nat>, top: nat, t: int, x: int)
    requires 0 <= t < |length| && 0 < length[t] <= top && (0 <= x < |length| ==> length[x] <= top)
    ensures 0 <= Taking(length, t)(x)
    ensures Taking(length, t)(x) * Pow2(top - length[t]) +
              (if x == t then Pow2(top - length[t]) else 0) <= Space(length, top)(x)
  {
    if 0 < At(length, x) < length[t] {
      Pow2Add(length[t] - At(length, x), top - length[t]);
    }
  }

  /** Canonical codewords of lengths that fill the code space are prefix free. */
  lemma CanonPrefixFree(length: seq<nat>, top: nat, s: int, t: int)
    requires Fills(length, top) && 0 <= s < |length| && 0 <= t < |length| && s != t && 0 < length[s] && 0 < length[t]
    ensures 0 <= Canon(length, s) && 0 <= Canon(length, t)
    ensures !(Word(Canon(length, s), length[s]) <= Word(Canon(length, t), length[t]))
  {
    hide Word, Pow2, Fills, Canon;
    CodewordFits(length, top, s);
    CodewordFits(length, top, t);
    if Word(Canon(length, s), length[s]) <= Word(Canon(length, t), length[t]) {
      WordPrefix(Canon(length, s), length[s], Canon(length, t), length[t]);
      if Earlier(length, s, t) {
        EarlierCodeword(length, s, t);
      } else {
        EarlierCodeword(length, t, s);
        PowZero();
      }
    }
  }
}
