/** Literals and matches, and the bytes they stand for. */
module Tokens {
  import opened BitStreams

  datatype Token = Literal(b: Byte) | Match(offset: nat, length: nat)

  /** What a decoder returns: the decoded bytes, and whether it has seen the end mark where the text ends. */
  datatype Outcome = Failed | Done(dst: seq<Byte>, eof: bool)

  /** The outcome, and where the source is left. */
  datatype Decoded = Decoded(outcome: Outcome, last: nat)

  /** How far from the end of the output the fast half of a decoder stops: 32 tokens of eight bytes, and eight more. */
  const RESERVE_DST := 264

  /** The same for the source: 32 tokens of seven bytes, and eight more. */
  const RESERVE_SRC := 232

  /** What a decoder that writes into `dst` returns: whether it succeeded and, then, how much it has written, whether
      it has seen the end mark where the text ends, and where the source is left. */
  ghost predicate Returns(d: Decoded, dst: array<Byte>, ok: bool, eof: bool, n: nat, last: nat)
    reads dst
  {
    if ok then n <= dst.Length && d == Decoded(Done(dst[..n], eof), last) else d.outcome.Failed?
  }

  /** `n` more bytes, each a copy of the one `offset` before it; source and target may overlap. */
  function Copied(out: seq<Byte>, offset: nat, n: nat): (r: seq<Byte>)
    requires 1 <= offset <= |out|
    ensures |r| == |out| + n && out <= r
    decreases n
  {
    if n == 0 then out else Copied(out + [out[|out| - offset]], offset, n - 1)
  }

  ghost function Repeated(b: Byte, n: nat): (r: seq<Byte>)
    ensures |r| == n && forall i :: 0 <= i < n ==> r[i] == b
  {
    seq(n, _ => b)
  }

  /** Copies of one byte. */
  lemma {:induction false} CopiedOne(out: seq<Byte>, b: Byte, n: nat)
    requires out != [] && forall i :: 0 <= i < |out| ==> out[i] == b
    ensures Copied(out, 1, n) == Repeated(b, |out| + n)
    decreases n
  {
    if n != 0 {
      CopiedOne(out + [b], b, n - 1);
    }
  }

  /** The distance is kept throughout: the copy repeats the last `offset` bytes. */
  lemma {:induction false} CopiedRepeats(out: seq<Byte>, offset: nat, n: nat, i: nat)
    requires 1 <= offset <= |out| && i < n
    ensures Copied(out, offset, n)[|out| + i] == Copied(out, offset, n)[|out| + i - offset]
    decreases n
  {
    var next := out + [out[|out| - offset]];
    if i == 0 {
      assert next <= Copied(next, offset, n - 1);
    } else {
      CopiedRepeats(next, offset, n - 1, i - 1);
    }
  }

  ghost predicate Applies(out: seq<Byte>, t: Token, reach: nat) {
    t.Match? ==> 1 <= t.offset <= |out| && t.offset <= reach && 3 <= t.length < 0x10003
  }

  ghost function Apply(out: seq<Byte>, t: Token): (r: seq<Byte>)
    ensures out <= r
  {
    match t
    case Literal(b) => out + [b]
    case Match(offset, length) => if 1 <= offset <= |out| then Copied(out, offset, length) else out
  }

  /** The text. */
  ghost function Expanded(tokens: seq<Token>): seq<Byte> {
    if tokens == [] then [] else Apply(Expanded(tokens[..|tokens| - 1]), tokens[|tokens| - 1])
  }

  /** Every match copies from what is there, from at most `reach` bytes back. */
  ghost predicate Valid(tokens: seq<Token>, reach: nat) {
    forall i :: 0 <= i < |tokens| ==> Applies(Expanded(tokens[..i]), tokens[i], reach)
  }

  lemma ExpandedNext(tokens: seq<Token>, i: nat)
    requires i < |tokens|
    ensures Expanded(tokens[..i + 1]) == Apply(Expanded(tokens[..i]), tokens[i])
  {
    assert tokens[..i + 1][..i] == tokens[..i];
  }

  lemma {:induction false} ExpandedPrefix(tokens: seq<Token>, i: nat)
    requires i <= |tokens|
    ensures Expanded(tokens[..i]) <= Expanded(tokens)
    decreases |tokens| - i
  {
    if i == |tokens| {
      assert tokens[..i] == tokens;
    } else {
      ExpandedNext(tokens, i);
      ExpandedPrefix(tokens, i + 1);
    }
  }

  /** Each token adds at least a byte. */
  lemma {:induction false} ExpandedGrows(tokens: seq<Token>, reach: nat, i: nat)
    requires Valid(tokens, reach) && i < |tokens|
    ensures |Expanded(tokens[..i])| < |Expanded(tokens)|
  {
    ExpandedNext(tokens, i);
    ExpandedPrefix(tokens, i + 1);
    assert Applies(Expanded(tokens[..i]), tokens[i], reach);
  }

  /** A shorter copy is a prefix of a longer one. */
  lemma {:induction false} CopiedPrefix(out: seq<Byte>, offset: nat, m: nat, n: nat)
    requires 1 <= offset <= |out| && m <= n
    ensures Copied(out, offset, n)[..|out| + m] == Copied(out, offset, m)
    decreases m
  {
    if m == 0 {
      assert out <= Copied(out, offset, n);
    } else {
      CopiedPrefix(out + [out[|out| - offset]], offset, m - 1, n - 1);
    }
  }

  /** What the first tokens give is the beginning of the text, and all of it only if no token is left. */
  lemma ExpandedProgress(tokens: seq<Token>, reach: nat, i: nat)
    requires Valid(tokens, reach) && i <= |tokens|
    ensures Expanded(tokens[..i]) <= Expanded(tokens)
            && (|Expanded(tokens[..i])| == |Expanded(tokens)| <==> i == |tokens|)
  {
    hide Valid;
    ExpandedPrefix(tokens, i);
    if i < |tokens| {
      ExpandedGrows(tokens, reach, i);
    } else {
      assert tokens[..i] == tokens;
    }
  }

  /** A copy that is cut off still gives the beginning of the text. */
  lemma ExpandedCut(tokens: seq<Token>, i: nat, dst: seq<Byte>, offset: nat, n: nat, stop: nat)
    requires i <= |tokens| && 1 <= offset <= |dst| <= stop < |dst| + n
             && Expanded(tokens[..i]) == Copied(dst, offset, n)
    ensures stop < |Expanded(tokens)| && Copied(dst, offset, stop - |dst|) == Expanded(tokens)[..stop]
  {
    hide Copied;
    var longer := Copied(dst, offset, n);
    ExpandedPrefix(tokens, i);
    CopiedPrefix(dst, offset, stop - |dst|, n);
    assert Expanded(tokens)[..stop] == longer[..stop];
  }

  // ----- copying in the output -----

  method Append(dst: array<Byte>, d: nat, b: Byte)
    requires d < dst.Length
    modifies dst
    ensures dst[..d + 1] == old(dst[..d]) + [b]
    ensures forall j :: d + 1 <= j < dst.Length ==> dst[j] == old(dst[j])
  {
    dst[d] := b;
  }

  lemma CopiedOneMore(out: seq<Byte>, offset: nat, n: nat)
    requires 1 <= offset <= |out|
    ensures Copied(out, offset, n + 1) == Copied(out, offset, n) + [Copied(out, offset, n)[|out| + n - offset]]
  {
    hide Copied;
    CopiedPrefix(out, offset, n, n + 1);
    CopiedRepeats(out, offset, n + 1, n);
    var more := Copied(out, offset, n + 1);
    assert more == more[..|out| + n] + [more[|out| + n]];
  }

  /** Copies `n` bytes one by one: source and target may overlap. */
  method CopyBytes(dst: array<Byte>, d: nat, offset: nat, n: nat)
    requires 1 <= offset <= d && d + n <= dst.Length
    modifies dst
    ensures dst[..d + n] == Copied(old(dst[..d]), offset, n)
    ensures forall j :: d + n <= j < dst.Length ==> dst[j] == old(dst[j])
  {
    hide Copied;
    ghost var out := dst[..d];
    CopiedNothing(out, offset);
    for i := 0 to n
      invariant dst[..d + i] == Copied(out, offset, i)
      invariant forall j :: d + i <= j < dst.Length ==> dst[j] == old(dst[j])
    {
      CopiedOneMore(out, offset, i);
      dst[d + i] := dst[d + i - offset];
      assert dst[..d + i + 1] == dst[..d + i] + [dst[d + i]];
    }
  }

  lemma CopiedTwice(out: seq<Byte>, offset: nat, m: nat, n: nat)
    requires 1 <= offset <= |out|
    ensures Copied(Copied(out, offset, m), offset, n) == Copied(out, offset, m + n)
    decreases m
  {
    if m != 0 {
      CopiedTwice(out + [out[|out| - offset]], offset, m - 1, n);
    }
  }

  /** Copies eight bytes at a time as long as more than eight are left, and then one by one. */
  method CopyBlock(dst: array<Byte>, start: nat, offset: nat, len: nat)
    requires 1 <= offset <= start && 1 <= len && start + len <= dst.Length
    modifies dst
    ensures dst[..start + len] == Copied(old(dst[..start]), offset, len)
    ensures forall j :: start + len <= j < dst.Length ==> dst[j] == old(dst[j])
  {
    hide Copied;
    ghost var out := dst[..start];
    var d, left := start, len;
    CopiedNothing(out, offset);
    while left > 8
      invariant 1 <= left <= len && d + left == start + len && start <= d
      invariant dst[..d] == Copied(out, offset, d - start)
      invariant forall j :: d <= j < dst.Length ==> dst[j] == old(dst[j])
    {
      CopiedTwice(out, offset, d - start, 8);
      CopyBytes(dst, d, offset, 8);
      d, left := d + 8, left - 8;
    }
    CopiedTwice(out, offset, d - start, left);
    CopyBytes(dst, d, offset, left);
  }

  lemma CopiedNothing(out: seq<Byte>, offset: nat)
    requires 1 <= offset <= |out|
    ensures Copied(out, offset, 0) == out
  {
  }

  /** Copies eight bytes of which only the first `len` matter: those beyond are written again later. */
  method CopyShort(dst: array<Byte>, d: nat, offset: nat, len: nat)
    requires 1 <= offset <= d && len <= 8 && d + 8 <= dst.Length
    modifies dst
    ensures dst[..d + len] == Copied(old(dst[..d]), offset, len)
    ensures forall j :: d + 8 <= j < dst.Length ==> dst[j] == old(dst[j])
  {
    hide Copied;
    ghost var out := dst[..d];
    CopyBytes(dst, d, offset, 8);
    CopiedPrefix(out, offset, len, 8);
    assert dst[..d + len] == dst[..d + 8][..d + len];
  }
}
