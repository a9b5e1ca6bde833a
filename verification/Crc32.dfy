/** CRC-32: the table-driven computation, the bit-at-a-time definition of section 8 of RFC 1952, and what it detects. */
module Crc32 {

  function Xor(a: bv32, b: bv32): bv32 { a ^ b }

  function Wide(b: bv8): bv32 { b as bv32 }

  function Polynomial(): bv32 { 0xedb88320 }

  function Odd(k: bv32): bool { k & 1 == 1 }

  function Half(k: bv32): bv32 { k >> 1 }

  /** Division by the polynomial, one bit. */
  function Step(k: bv32): bv32 {
    if Odd(k) then Xor(Half(k), Polynomial()) else Half(k)
  }

  function Steps(k: bv32, n: nat): bv32
    decreases n
  {
    if n == 0 then k else Steps(Step(k), n - 1)
  }

  /** One byte, bit by bit. */
  function ByteStep(k: bv32, b: bv8): bv32 { Steps(Xor(k, Wide(b)), 8) }

  function Fold(k: bv32, m: seq<bv8>): bv32 {
    if m == [] then k else ByteStep(Fold(k, m[..|m| - 1]), m[|m| - 1])
  }

  function Complement(k: bv32): bv32 { k ^ 0xffffffff }

  /** The checksum of a message, continued from the checksum `k` of what came before. */
  function Crc(m: seq<bv8>, k: bv32): bv32 { Complement(Fold(Complement(k), m)) }

  // ----- exclusive or -----

  lemma XorGroups(a: bv32, b: bv32, c: bv32)
    ensures Xor(Xor(a, b), c) == Xor(a, Xor(b, c))
  {
  }

  lemma XorSwaps(a: bv32, b: bv32)
    ensures Xor(a, b) == Xor(b, a)
  {
  }

  lemma XorSelf(a: bv32)
    ensures Xor(a, a) == 0 && Xor(a, 0) == a && Xor(0, a) == a
  {
  }

  lemma XorCancels(a: bv32, b: bv32, c: bv32)
    ensures Xor(Xor(a, c), Xor(b, c)) == Xor(a, b) && Xor(Xor(c, a), Xor(c, b)) == Xor(a, b)
  {
    hide Xor;
    XorSwaps(a, c);
    XorSwaps(b, c);
    XorGroups(a, c, Xor(c, b));
    XorGroups(c, c, b);
    XorSelf(c);
    XorSelf(b);
  }

  lemma XorZero(a: bv32, b: bv32)
    ensures Xor(a, b) == 0 <==> a == b
  {
    hide Xor;
    XorSelf(a);
    XorSelf(b);
    XorGroups(a, b, b);
  }

  lemma ComplementTwice(k: bv32, l: bv32)
    ensures Complement(Complement(k)) == k && (Complement(k) == Complement(l) <==> k == l)
  {
  }

  // ----- the division is linear and loses nothing -----

  lemma HalfXor(a: bv32, b: bv32)
    ensures Half(Xor(a, b)) == Xor(Half(a), Half(b)) && Odd(Xor(a, b)) == (Odd(a) != Odd(b))
  {
  }

  lemma XorMoves(a: bv32, b: bv32, p: bv32)
    ensures Xor(Xor(a, b), p) == Xor(Xor(a, p), b) == Xor(a, Xor(b, p)) && Xor(Xor(a, p), Xor(b, p)) == Xor(a, b)
  {
    hide Xor;
    XorGroups(a, b, p);
    XorGroups(a, p, b);
    XorSwaps(b, p);
    XorCancels(a, b, p);
  }

  lemma StepXor(a: bv32, b: bv32)
    ensures Step(Xor(a, b)) == Xor(Step(a), Step(b))
  {
    hide Xor, Odd, Half, Polynomial;
    HalfXor(a, b);
    XorMoves(Half(a), Half(b), Polynomial());
  }

  lemma StepZero(a: bv32)
    ensures Step(a) == 0 <==> a == 0
  {
  }

  lemma {:induction false} StepsXor(a: bv32, b: bv32, n: nat)
    ensures Steps(Xor(a, b), n) == Xor(Steps(a, n), Steps(b, n))
    decreases n
  {
    hide Step, Xor;
    if n != 0 {
      StepXor(a, b);
      StepsXor(Step(a), Step(b), n - 1);
    }
  }

  lemma {:induction false} StepsZero(a: bv32, n: nat)
    ensures Steps(a, n) == 0 <==> a == 0
    decreases n
  {
    hide Step;
    if n != 0 {
      StepZero(a);
      StepsZero(Step(a), n - 1);
    }
  }

  lemma {:induction false} StepsAdd(a: bv32, m: nat, n: nat)
    ensures Steps(a, m + n) == Steps(Steps(a, m), n)
    decreases m
  {
    hide Step;
    if m != 0 {
      StepsAdd(Step(a), m - 1, n);
    }
  }

  /** Different states stay different. */
  lemma StepsInjective(a: bv32, b: bv32, n: nat)
    requires a != b
    ensures Steps(a, n) != Steps(b, n)
  {
    hide Steps, Xor;
    StepsXor(a, b, n);
    StepsZero(Xor(a, b), n);
    XorZero(a, b);
    XorZero(Steps(a, n), Steps(b, n));
  }

  lemma FourEven(z: bv32)
    requires z & 0xf == 0
    ensures !Odd(z) && !Odd(Half(z)) && !Odd(Half(Half(z))) && !Odd(Half(Half(Half(z))))
    ensures Half(Half(Half(Half(z)))) == z >> 4
  {
  }

  lemma FourEvenSteps(z: bv32)
    requires z & 0xf == 0
    ensures Steps(z, 4) == z >> 4
  {
    hide Xor, Odd, Half, Polynomial;
    FourEven(z);
    assert Steps(z, 4) == Steps(Half(z), 3) == Steps(Half(Half(z)), 2) == Steps(Half(Half(Half(z))), 1);
  }

  lemma LowNibbles(z: bv32)
    requires z & 0xff == 0
    ensures z & 0xf == 0 && (z >> 4) & 0xf == 0 && (z >> 4) >> 4 == z >> 8
  {
  }

  /** Eight steps shift out a low byte of zeros. */
  lemma EightEvenSteps(z: bv32)
    requires z & 0xff == 0
    ensures Steps(z, 8) == z >> 8
  {
    hide Steps, Step;
    LowNibbles(z);
    FourEvenSteps(z);
    FourEvenSteps(z >> 4);
    StepsAdd(z, 4, 4);
  }

  // ----- the table -----

  ghost predicate IsTable(table: seq<bv32>) {
    |table| == 256 && forall i :: 0 <= i < 256 ==> table[i] == Steps(Wide(i as bv8), 8)
  }

  /** Entry `i` is what becomes of the byte `i` in eight steps. */
  method Crc32Init() returns (table: seq<bv32>)
    ensures IsTable(table)
  {
    hide Steps, Step, Odd, Half, Xor, Polynomial, Wide;
    table := [];
    for i := 0 to 256
      invariant |table| == i && forall h :: 0 <= h < i ==> table[h] == Steps(Wide(h as bv8), 8)
    {
      var k := Wide(i as bv8);
      ghost var first := k;
      var j := 8;
      while j != 0
        invariant 0 <= j <= 8 && Steps(k, j) == Steps(first, 8)
      {
        StepsFirst(k, j);
        if !Odd(k) {
          k := Half(k);
        } else {
          k := Half(k);
          k := Xor(k, Polynomial());
        }
        j := j - 1;
      }
      StepsNone(k);
      table := table + [k];
    }
  }

  lemma StepsFirst(k: bv32, n: nat)
    requires 0 < n
    ensures Steps(k, n) == Steps(if Odd(k) then Xor(Half(k), Polynomial()) else Half(k), n - 1)
  {
    hide Odd, Half, Xor, Polynomial;
  }

  lemma StepsNone(k: bv32)
    ensures Steps(k, 0) == k
  {
    hide Step;
  }

  /** Where the table is read for the byte `b`. */
  function Index(k: bv32, b: bv8): bv8 { ((k & 0xff) as bv8) ^ b }

  /** The state without its low byte. */
  function Upper(k: bv32): bv32 { k & 0xffffff00 }

  lemma IndexIsLow(k: bv32, b: bv8)
    ensures Wide(Index(k, b)) == Xor(k, Wide(b)) & 0xff
  {
  }

  lemma UpperStays(k: bv32, b: bv8)
    ensures Upper(Xor(k, Wide(b))) >> 8 == k >> 8
  {
  }

  lemma UpperAndLow(y: bv32)
    ensures y == Xor(y & 0xff, Upper(y)) && Upper(y) & 0xff == 0
  {
  }

  lemma SameByte(x: bv8)
    ensures 0 <= x as int < 256 && (x as int) as bv8 == x
  {
  }

  /** One look into the table does what eight steps do. */
  lemma TableStep(table: seq<bv32>, k: bv32, b: bv8, i: nat)
    requires IsTable(table) && i == Index(k, b) as int
    ensures i < 256 && Xor(table[i], k >> 8) == ByteStep(k, b)
  {
    hide Steps, Index, Wide, Upper, Xor;
    var x, y := Index(k, b), Xor(k, Wide(b));
    IndexIsLow(k, b);
    UpperStays(k, b);
    UpperAndLow(y);
    StepsXor(Wide(x), Upper(y), 8);
    EightEvenSteps(Upper(y));
    SameByte(x);
  }

  lemma FoldNext(k: bv32, m: seq<bv8>, i: nat)
    requires i < |m|
    ensures Fold(k, m[..i + 1]) == ByteStep(Fold(k, m[..i]), m[i])
  {
    hide ByteStep;
    assert m[..i + 1][..i] == m[..i];
  }

  /** One byte through the table. */
  method Advance(table: seq<bv32>, k: bv32, b: bv8) returns (r: bv32)
    requires IsTable(table)
    ensures r == ByteStep(k, b)
  {
    hide ByteStep, Steps, Index, Xor;
    SameByte(Index(k, b));
    var i := Index(k, b) as int;
    TableStep(table, k, b, i);
    r := Xor(table[i], k >> 8);
  }

  /** The checksum, 32 bytes at a time and then byte by byte. */
  method Crc32(table: seq<bv32>, p: seq<bv8>, crc: bv32) returns (r: bv32)
    requires IsTable(table)
    ensures r == Crc(p, crc)
  {
    hide IsTable, ByteStep, Fold, Complement;
    FoldNothing(Complement(crc));
    ComplementTwice(crc, crc);
    if |p| == 0 {
      return crc;
    }
    var k := Complement(crc);
    var at := 0;
    assert p[..0] == [];
    while at + 32 <= |p|
      invariant 0 <= at <= |p| && k == Fold(Complement(crc), p[..at])
    {
      for j := 0 to 32
        invariant k == Fold(Complement(crc), p[..at + j])
      {
        FoldNext(Complement(crc), p, at + j);
        k := Advance(table, k, p[at + j]);
      }
      at := at + 32;
    }
    while at < |p|
      invariant 0 <= at <= |p| && k == Fold(Complement(crc), p[..at])
    {
      FoldNext(Complement(crc), p, at);
      k := Advance(table, k, p[at]);
      at := at + 1;
    }
    assert p[..at] == p;
    r := Complement(k);
  }

  lemma FoldNothing(k: bv32)
    ensures Fold(k, []) == k
  {
  }

  // ----- what the checksum promises -----

  lemma {:induction false} FoldAppends(k: bv32, a: seq<bv8>, b: seq<bv8>)
    ensures Fold(k, a + b) == Fold(Fold(k, a), b)
  {
    hide ByteStep;
    if b == [] {
      assert a + b == a;
    } else {
      assert (a + b)[..|a + b| - 1] == a + b[..|b| - 1];
      FoldAppends(k, a, b[..|b| - 1]);
    }
  }

  /** A message can be checked in pieces. */
  lemma CrcAppends(a: seq<bv8>, b: seq<bv8>, k: bv32)
    ensures Crc(a + b, k) == Crc(b, Crc(a, k))
  {
    hide Fold, Complement;
    FoldAppends(Complement(k), a, b);
    ComplementTwice(Fold(Complement(k), a), k);
  }

  /** Two states that differ stay different over the same bytes. */
  lemma {:induction false} FoldKeepsApart(k: bv32, l: bv32, m: seq<bv8>)
    requires k != l
    ensures Fold(k, m) != Fold(l, m)
  {
    hide Steps, Xor, Wide;
    if m != [] {
      var last := |m| - 1;
      FoldKeepsApart(k, l, m[..last]);
      var a, b, c := Fold(k, m[..last]), Fold(l, m[..last]), Wide(m[last]);
      XorCancels(a, b, c);
      XorZero(a, b);
      XorZero(Xor(a, c), Xor(b, c));
      StepsInjective(Xor(a, c), Xor(b, c), 8);
    }
  }

  /** A byte in place `n` of four. */
  function Placed(b: bv8, n: nat): bv32 {
    if n == 0 then Wide(b) else if n == 1 then Wide(b) << 8 else if n == 2 then Wide(b) << 16 else Wide(b) << 24
  }

  function Nth(w: seq<bv8>, i: nat): bv8 { if i < |w| then w[i] else 0 }

  function Joined4(a: bv8, b: bv8, c: bv8, d: bv8): bv32 {
    Xor(Xor(Xor(Placed(a, 0), Placed(b, 1)), Placed(c, 2)), Placed(d, 3))
  }

  /** Up to four bytes as one number. */
  function Packed(w: seq<bv8>): bv32 { Joined4(Nth(w, 0), Nth(w, 1), Nth(w, 2), Nth(w, 3)) }

  lemma NothingAbove()
    ensures Placed(0, 0) == 0 && Placed(0, 1) == 0 && Placed(0, 2) == 0 && Placed(0, 3) == 0
  {
  }

  lemma JoinedNext(a: bv8, b: bv8, c: bv8, d: bv8)
    ensures Joined4(0, 0, 0, 0) == 0 && Joined4(a, 0, 0, 0) == Xor(Joined4(0, 0, 0, 0), Placed(a, 0))
    ensures Joined4(a, b, 0, 0) == Xor(Joined4(a, 0, 0, 0), Placed(b, 1))
    ensures Joined4(a, b, c, 0) == Xor(Joined4(a, b, 0, 0), Placed(c, 2))
    ensures Joined4(a, b, c, d) == Xor(Joined4(a, b, c, 0), Placed(d, 3))
  {
    hide Xor, Placed;
    NothingAbove();
    XorSelf(0);
    XorSelf(Placed(a, 0));
    XorSelf(Xor(Placed(a, 0), Placed(b, 1)));
    XorSelf(Xor(Xor(Placed(a, 0), Placed(b, 1)), Placed(c, 2)));
  }

  lemma PackedNext(w: seq<bv8>)
    requires 0 < |w| <= 4
    ensures Packed(w) == Xor(Packed(w[..|w| - 1]), Placed(w[|w| - 1], |w| - 1))
  {
    hide Xor, Placed, Joined4;
    JoinedNext(Nth(w, 0), Nth(w, 1), Nth(w, 2), Nth(w, 3));
  }

  lemma PackedNone()
    ensures Packed([]) == 0
  {
    hide Xor, Placed, Joined4;
    JoinedNext(0, 0, 0, 0);
  }

  lemma PlacedLower(b: bv8, n: nat)
    requires 1 <= n <= 3
    ensures Placed(b, n) & 0xff == 0 && Placed(b, n) >> 8 == Placed(b, n - 1)
  {
  }

  /** A byte that enters later is as good as entered in a higher place at once. */
  lemma {:induction false} EntersHigher(b: bv8, n: nat)
    requires n <= 3
    ensures Steps(Placed(b, n), 8 * n) == Wide(b)
  {
    hide Steps, Placed, Wide;
    if n == 0 {
      PlacedFirst(b);
      StepsNone(Placed(b, 0));
    } else {
      PlacedLower(b, n);
      EightEvenSteps(Placed(b, n));
      StepsAdd(Placed(b, n), 8, 8 * n - 8);
      EntersHigher(b, n - 1);
    }
  }

  lemma PlacedFirst(b: bv8)
    ensures Placed(b, 0) == Wide(b)
  {
  }

  /** Up to four bytes enter like one number. */
  lemma {:induction false} FoldPacked(k: bv32, w: seq<bv8>)
    requires |w| <= 4
    ensures Fold(k, w) == Steps(Xor(k, Packed(w)), 8 * |w|)
  {
    hide Steps, Placed, Wide, Xor, Packed;
    if w == [] {
      StepsNone(k);
      PackedNone();
      XorSelf(k);
    } else {
      var last := |w| - 1;
      var b, y := w[last], Xor(k, Packed(w[..last]));
      FoldPacked(k, w[..last]);
      EntersHigher(b, last);
      StepsXor(y, Placed(b, last), 8 * last);
      StepsAdd(Xor(y, Placed(b, last)), 8 * last, 8);
      XorGroups(k, Packed(w[..last]), Placed(b, last));
      PackedNext(w);
    }
  }

  /** Byte `n` of four. */
  function ByteAt(p: bv32, n: nat): bv8 {
    if n == 0 then (p & 0xff) as bv8 else if n == 1 then ((p >> 8) & 0xff) as bv8
    else if n == 2 then ((p >> 16) & 0xff) as bv8 else ((p >> 24) & 0xff) as bv8
  }

  lemma JoinedParts(a: bv8, b: bv8, c: bv8, d: bv8)
    ensures ByteAt(Joined4(a, b, c, d), 0) == a && ByteAt(Joined4(a, b, c, d), 1) == b
    ensures ByteAt(Joined4(a, b, c, d), 2) == c && ByteAt(Joined4(a, b, c, d), 3) == d
  {
  }

  lemma PackedParts(w: seq<bv8>, i: nat)
    requires i < |w| <= 4
    ensures ByteAt(Packed(w), i) == w[i]
  {
    hide Joined4, ByteAt;
    JoinedParts(Nth(w, 0), Nth(w, 1), Nth(w, 2), Nth(w, 3));
  }

  /** Different bytes make different numbers. */
  lemma PackedInjective(v: seq<bv8>, w: seq<bv8>)
    requires |v| == |w| <= 4 && v != w
    ensures Packed(v) != Packed(w)
  {
    hide Packed, ByteAt;
    var i :| 0 <= i < |v| && v[i] != w[i];
    PackedParts(v, i);
    PackedParts(w, i);
  }

  /** A change within four consecutive bytes is always detected. */
  lemma CrcDetects(a: seq<bv8>, v: seq<bv8>, w: seq<bv8>, c: seq<bv8>, k: bv32)
    requires |v| == |w| <= 4 && v != w
    ensures Crc(a + v + c, k) != Crc(a + w + c, k)
  {
    hide Fold, Steps, Packed, Xor, Complement;
    var s := Fold(Complement(k), a);
    FoldPacked(s, v);
    FoldPacked(s, w);
    PackedInjective(v, w);
    XorCancels(Packed(v), Packed(w), s);
    XorZero(Packed(v), Packed(w));
    XorZero(Xor(s, Packed(v)), Xor(s, Packed(w)));
    StepsInjective(Xor(s, Packed(v)), Xor(s, Packed(w)), 8 * |v|);
    FoldKeepsApart(Fold(s, v), Fold(s, w), c);
    FoldAppends(Complement(k), a, v);
    FoldAppends(Complement(k), a + v, c);
    FoldAppends(Complement(k), a, w);
    FoldAppends(Complement(k), a + w, c);
    ComplementTwice(Fold(Complement(k), a + v + c), Fold(Complement(k), a + w + c));
  }

  // ----- the check value -----

  /** Eight division steps, written out. */
  lemma EightSteps(k: bv32)
    ensures Steps(k, 8) == Step(Step(Step(Step(Step(Step(Step(Step(k))))))))
  {
    hide Step;
    assert Steps(k, 8) == Steps(Step(Step(Step(Step(k)))), 4);
  }

  /** The first bytes of "123456789". */
  lemma CheckBytes()
    ensures ByteStep(0xffffffff, 0x31) == 0x7c231048
    ensures ByteStep(0x7c231048, 0x32) == 0xb0acbb32
    ensures ByteStep(0xb0acbb32, 0x33) == 0x77b79c2d
    ensures ByteStep(0x77b79c2d, 0x34) == 0x641c1f5c
    ensures ByteStep(0x641c1f5c, 0x35) == 0x340ac5e3
    ensures ByteStep(0x340ac5e3, 0x36) == 0xf68d2c9e
    ensures ByteStep(0xf68d2c9e, 0x37) == 0xaffc9660
    ensures ByteStep(0xaffc9660, 0x38) == 0x651f2550
    ensures ByteStep(0x651f2550, 0x39) == 0x340bc6d9
  {
    EightSteps(0xffffffce);
    EightSteps(0x7c23107a);
    EightSteps(0xb0acbb01);
    EightSteps(0x77b79c19);
    EightSteps(0x641c1f69);
    EightSteps(0x340ac5d5);
    EightSteps(0xf68d2ca9);
    EightSteps(0xaffc9658);
    EightSteps(0x651f2569);
  }

  /** The value that every CRC-32 of this kind gives for "123456789". */
  lemma CheckValue()
    ensures Crc([0x31, 0x32, 0x33, 0x34, 0x35, 0x36, 0x37, 0x38, 0x39], 0) == 0xcbf43926
  {
    hide ByteStep, Fold;
    CheckBytes();
    FoldNothing(0xffffffff);
    var m: seq<bv8> := [0x31, 0x32, 0x33, 0x34, 0x35, 0x36, 0x37, 0x38, 0x39];
    FoldNext(0xffffffff, m, 0);
    FoldNext(0xffffffff, m, 1);
    FoldNext(0xffffffff, m, 2);
    FoldNext(0xffffffff, m, 3);
    FoldNext(0xffffffff, m, 4);
    FoldNext(0xffffffff, m, 5);
    FoldNext(0xffffffff, m, 6);
    FoldNext(0xffffffff, m, 7);
    FoldNext(0xffffffff, m, 8);
    assert m[..0] == [] && m[..9] == m;
  }
}
