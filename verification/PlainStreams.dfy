/** The plain coding's output as cells. */
module PlainStreams {
  // A cell is a byte as such, a byte of a 32-bit word of flags that is filled in later, or a byte that two long
  // lengths share.

  import opened BitStreams
  import opened Tokens

  datatype Cell = RawCell(b: Byte) | TagCell(word: nat, index: nat) | QuadCell(pair: nat)

  /** The flags and the four-bit lengths written so far, and what each byte of the output is for. */
  datatype Plain = Plain(flags: seq<bool>, quads: seq<nat>, cells: seq<Cell>)

  ghost function TagCells(i: nat): seq<Cell> { [TagCell(i, 0), TagCell(i, 1), TagCell(i, 2), TagCell(i, 3)] }

  ghost function StartPlain(): Plain { Plain([], [], TagCells(0)) }

  /** After every 32 flags a new word is reserved. */
  ghost function AddFlag(s: Plain, b: bool): Plain {
    var flags := s.flags + [b];
    Plain(flags, s.quads, if |flags| % 32 == 0 then s.cells + TagCells(|flags| / 32) else s.cells)
  }

  ghost function AddRaw(s: Plain, bytes: seq<Byte>): Plain {
    s.(cells := s.cells + RawCells(bytes))
  }

  ghost function RawCells(bytes: seq<Byte>): (c: seq<Cell>)
    ensures |c| == |bytes| && forall i :: 0 <= i < |c| ==> c[i] == RawCell(bytes[i])
  {
    seq(|bytes|, i requires 0 <= i < |bytes| => RawCell(bytes[i]))
  }

  /** Every other four-bit length takes a new byte. */
  ghost function AddQuad(s: Plain, q: nat): Plain {
    Plain(s.flags, s.quads + [q], if |s.quads| % 2 == 0 then s.cells + [QuadCell(|s.quads| / 2)] else s.cells)
  }

  ghost predicate Follows(s: Plain, f: Plain) {
    s.flags <= f.flags && s.quads <= f.quads && s.cells <= f.cells
  }

  // ----- tokens -----

  /** Offset and length as far as it fits, in 16 bits. */
  function PairOf(offset: nat, length: nat): nat
    requires 1 <= offset && 3 <= length
  {
    8 * (offset - 1) + if length - 3 < 7 then length - 3 else 7
  }

  function TwoBytes(v: nat): seq<Byte>
    requires v < 0x10000
  {
    [v % 256, v / 256]
  }

  /** What follows the four-bit length 15; `l` is the length less 3. */
  function MoreLength(l: nat): seq<Byte>
    requires l < 0x10000
  {
    if l < 22 then [] else if l - 22 < 255 then [l - 22] else [255] + TwoBytes(l)
  }

  function QuadOf(l: nat): nat
    requires 7 <= l
  {
    if l - 7 < 15 then l - 7 else 15
  }

  ghost predicate Fits(t: Token) {
    t.Match? ==> 1 <= t.offset <= 0x2000 && 3 <= t.length < 0x10003
  }

  /** The bytes of a token, without its flag. */
  ghost function AddBody(s: Plain, t: Token): Plain
    requires Fits(t)
  {
    match t
    case Literal(b) => AddRaw(s, [b])
    case Match(offset, length) =>
      var a := AddRaw(s, TwoBytes(PairOf(offset, length)));
      if length - 3 < 7 then a else AddRaw(AddQuad(a, QuadOf(length - 3)), MoreLength(length - 3))
  }

  ghost function AddToken(s: Plain, t: Token): Plain
    requires Fits(t)
  {
    AddFlag(AddBody(s, t), t.Match?)
  }

  ghost function PlainOf(tokens: seq<Token>): Plain
    requires forall i :: 0 <= i < |tokens| ==> Fits(tokens[i])
  {
    if tokens == [] then StartPlain() else AddToken(PlainOf(tokens[..|tokens| - 1]), tokens[|tokens| - 1])
  }

  // ----- the finished output -----

  ghost function Ones(n: nat): (z: seq<bool>)
    ensures |z| == n
  {
    seq(n, _ => true)
  }

  /** The flags with the padding that fills the last word. */
  ghost function AllFlags(s: Plain): (p: seq<bool>)
    ensures |p| == 32 * (|s.flags| / 32 + 1) && s.flags <= p
  {
    s.flags + Ones(32 - |s.flags| % 32)
  }

  /** Byte `j` of a 32-bit value, low byte first. */
  function ByteOf(v: nat, j: nat): Byte {
    if j == 0 then v % 256 else if j == 1 then v / 256 % 256
    else if j == 2 then v / 0x10000 % 256 else v / 0x1000000 % 256
  }

  ghost function TagByte(flags: seq<bool>, i: nat, j: nat): nat {
    if 32 * i + 32 <= |flags| then ByteOf(Value(flags[32 * i..32 * i + 32]), j) else 0
  }

  ghost function Quad(quads: seq<nat>, k: nat): nat { if k < |quads| then quads[k] else 0 }

  ghost function QuadByte(quads: seq<nat>, k: nat): nat { Quad(quads, 2 * k) + 16 * Quad(quads, 2 * k + 1) }

  ghost function CellByte(c: Cell, flags: seq<bool>, quads: seq<nat>): nat {
    match c
    case RawCell(b) => b
    case TagCell(i, j) => TagByte(flags, i, j)
    case QuadCell(k) => QuadByte(quads, k)
  }

  ghost predicate IsPlain(out: seq<Byte>, s: Plain) {
    && |out| == |s.cells| && (forall k :: 0 <= k < |s.quads| ==> s.quads[k] < 16)
    && forall o :: 0 <= o < |out| ==> out[o] == CellByte(s.cells[o], AllFlags(s), s.quads)
  }

  lemma PlainSize(src: seq<Byte>, f: Plain)
    requires IsPlain(src, f)
    ensures |src| == |f.cells|
  {
  }

  // ----- every state on the way is a prefix of the final one -----

  lemma FollowsTransitive(s: Plain, t: Plain, f: Plain)
    requires Follows(s, t) && Follows(t, f)
    ensures Follows(s, f)
  {
  }

  lemma FollowsBody(s: Plain, t: Token)
    requires Fits(t)
    ensures Follows(s, AddBody(s, t))
    ensures t.Match? ==> Follows(AddRaw(s, TwoBytes(PairOf(t.offset, t.length))), AddBody(s, t))
    ensures t.Match? && 10 <= t.length ==>
      Follows(AddQuad(AddRaw(s, TwoBytes(PairOf(t.offset, t.length))), QuadOf(t.length - 3)), AddBody(s, t))
  {
    hide RawCells, MoreLength, TwoBytes, QuadOf, PairOf;
  }

  lemma FollowsFlag(s: Plain, b: bool)
    ensures Follows(s, AddFlag(s, b))
  {
  }

  /** Words of flags take an eighth of what as many tokens or more take in bytes. */
  lemma WordsWithin(j: nat, n: nat)
    requires j <= n
    ensures 4 * (j / 32) <= n / 8
  {
  }

  lemma PlainNext(tokens: seq<Token>, i: nat)
    requires i < |tokens| && forall k :: 0 <= k < |tokens| ==> Fits(tokens[k])
    ensures PlainOf(tokens[..i + 1]) == AddToken(PlainOf(tokens[..i]), tokens[i])
  {
    assert tokens[..i + 1][..i] == tokens[..i];
  }

  lemma {:induction false} PlainFollows(tokens: seq<Token>, i: nat)
    requires i <= |tokens| && forall k :: 0 <= k < |tokens| ==> Fits(tokens[k])
    ensures Follows(PlainOf(tokens[..i]), PlainOf(tokens))
    decreases |tokens| - i
  {
    hide AddBody, Fits, AddFlag;
    if i == |tokens| {
      assert tokens[..i] == tokens;
    } else {
      var s := PlainOf(tokens[..i]);
      PlainNext(tokens, i);
      PlainFollows(tokens, i + 1);
      FollowsBody(s, tokens[i]);
      FollowsFlag(AddBody(s, tokens[i]), tokens[i].Match?);
    }
  }

  lemma BodyFlags(s: Plain, t: Token)
    requires Fits(t)
    ensures AddBody(s, t).flags == s.flags
  {
  }

  /** One flag a token. */
  lemma {:induction false} FlagsOfTokens(tokens: seq<Token>, i: nat)
    requires i <= |tokens| && forall k :: 0 <= k < |tokens| ==> Fits(tokens[k])
    ensures |PlainOf(tokens[..i]).flags| == i
  {
    hide AddBody, Fits;
    if i != 0 {
      FlagsOfTokens(tokens, i - 1);
      PlainNext(tokens, i - 1);
      BodyFlags(PlainOf(tokens[..i - 1]), tokens[i - 1]);
    }
  }
}
