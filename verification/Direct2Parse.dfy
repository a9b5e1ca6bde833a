/** The plain coding determines its tokens: whatever the matches refer to, an output can be read in one way only. */
module Direct2Parse {
  import opened PrefixCodes
  import opened BitStreams
  import opened Tokens
  import opened PlainStreams
  import opened Direct2Encode
  import opened Direct2Decode

  /** The tokens from `pos` on, read as the decoder reads them, up to a match flag at the end of the source. */
  function ParseFrom(src: seq<Byte>, pos: nat, bmask: nat, quadPtr: nat): Option<seq<Token>>
    requires pos <= |src|
    decreases |src| - pos
  {
    var next := NextFlag(src, pos, bmask);
    if next.None? then None
    else
      var r := next.value;
      if !r.flag then
        if r.pos >= |src| then None
        else Prepended(Literal(src[r.pos]), ParseFrom(src, r.pos + 1, r.bmask, quadPtr))
      else if r.pos == |src| then Some([])
      else
        var found := NextMatch(src, r.pos, quadPtr);
        if found.None? then None
        else
          MatchAdvances(src, r.pos, quadPtr);
          var m := found.value;
          Prepended(Match(m.offset, m.length), ParseFrom(src, m.pos, r.bmask, m.quadPtr))
  }

  function Prepended(t: Token, rest: Option<seq<Token>>): Option<seq<Token>> {
    if rest.None? then None else Some([t] + rest.value)
  }

  function Parse(src: seq<Byte>): Option<seq<Token>> {
    ParseFrom(src, 0, Pow2(31), 0)
  }

  /** The decoder is before token `i` of the list. */
  ghost predicate AtToken(src: seq<Byte>, pos: nat, bmask: nat, quadPtr: nat, tokens: seq<Token>, i: nat) {
    && i <= |tokens| && (forall k :: 0 <= k < |tokens| ==> Fits(tokens[k])) && pos <= |src|
    && Between(src, pos, bmask, quadPtr, PlainOf(tokens[..i]), PlainOf(tokens))
  }

  lemma TokenFlag(src: seq<Byte>, pos: nat, bmask: nat, quadPtr: nat, tokens: seq<Token>, i: nat)
    requires AtToken(src, pos, bmask, quadPtr, tokens, i)
    ensures i <= |tokens| && NextFlag(src, pos, bmask).Some?
    ensures var r := NextFlag(src, pos, bmask).value;
      && r.flag == (if i < |tokens| then tokens[i].Match? else true)
      && Announced(src, r, quadPtr, tokens, i) && (i == |tokens| ==> r.pos == |src|)
  {
    hide Fits, NextFlag, MaskAfter, IsPlain, QuadWaits, Follows, PlainOf, AllFlags;
    var s, f := PlainOf(tokens[..i]), PlainOf(tokens);
    NextFlagRead(src, pos, bmask, quadPtr, s, f);
    FlagsOfTokens(tokens, i);
    FlagOfToken(tokens, i);
    if i == |tokens| {
      assert tokens[..i] == tokens;
      PlainSize(src, f);
    }
  }

  lemma LiteralIsRead(src: seq<Byte>, r: FlagRead, quadPtr: nat, tokens: seq<Token>, i: nat)
    requires Announced(src, r, quadPtr, tokens, i) && i < |tokens| && tokens[i].Literal?
    ensures r.pos < |src| && Literal(src[r.pos]) == tokens[i]
    ensures AtToken(src, r.pos + 1, r.bmask, quadPtr, tokens, i + 1)
  {
    hide IsPlain, MaskAfter, Between;
    BodyFollows(tokens, i);
    var s := PlainOf(tokens[..i]);
    RawInSource(src, s, PlainOf(tokens), [tokens[i].b]);
    assert src[|s.cells|] == src[|s.cells|..|s.cells| + 1][0];
    BetweenAgain(src, r, quadPtr, tokens, i, r.pos + 1, quadPtr);
  }

  lemma MatchIsRead(src: seq<Byte>, r: FlagRead, quadPtr: nat, tokens: seq<Token>, i: nat)
    requires Announced(src, r, quadPtr, tokens, i) && i < |tokens| && tokens[i].Match?
    ensures NextMatch(src, r.pos, quadPtr).Some? && r.pos < |src|
    ensures var m := NextMatch(src, r.pos, quadPtr).value;
      Match(m.offset, m.length) == tokens[i] && AtToken(src, m.pos, r.bmask, m.quadPtr, tokens, i + 1)
  {
    hide IsPlain, MaskAfter, Between, NextMatch, AddBody, QuadWaits;
    BodyFollows(tokens, i);
    MatchInSource(src, PlainOf(tokens[..i]), PlainOf(tokens), tokens[i], quadPtr);
    MatchAdvances(src, r.pos, quadPtr);
    var m := NextMatch(src, r.pos, quadPtr).value;
    BetweenAgain(src, r, quadPtr, tokens, i, m.pos, m.quadPtr);
  }

  lemma {:induction false} ParsesFrom(src: seq<Byte>, pos: nat, bmask: nat, quadPtr: nat, tokens: seq<Token>, i: nat)
    requires AtToken(src, pos, bmask, quadPtr, tokens, i)
    ensures pos <= |src| && i <= |tokens| && ParseFrom(src, pos, bmask, quadPtr) == Some(tokens[i..])
    decreases |tokens| - i
  {
    hide AtToken, Announced, NextFlag, NextMatch;
    assert pos <= |src| by { TokenPlace(src, pos, bmask, quadPtr, tokens, i); }
    TokenFlag(src, pos, bmask, quadPtr, tokens, i);
    var r := NextFlag(src, pos, bmask).value;
    if i == |tokens| {
    } else if tokens[i].Literal? {
      LiteralIsRead(src, r, quadPtr, tokens, i);
      ParsesFrom(src, r.pos + 1, r.bmask, quadPtr, tokens, i + 1);
      assert tokens[i..] == [tokens[i]] + tokens[i + 1..];
    } else {
      MatchIsRead(src, r, quadPtr, tokens, i);
      var m := NextMatch(src, r.pos, quadPtr).value;
      ParsesFrom(src, m.pos, r.bmask, m.quadPtr, tokens, i + 1);
      assert tokens[i..] == [tokens[i]] + tokens[i + 1..];
    }
  }

  lemma TokenPlace(src: seq<Byte>, pos: nat, bmask: nat, quadPtr: nat, tokens: seq<Token>, i: nat)
    requires AtToken(src, pos, bmask, quadPtr, tokens, i)
    ensures pos <= |src|
  {
  }

  /** Every list of tokens that the coding can express is read back from its output, also where its matches refer to
      nothing. */
  lemma ParsesBack(src: seq<Byte>, tokens: seq<Token>)
    requires (forall k :: 0 <= k < |tokens| ==> Fits(tokens[k])) && IsPlain(src, PlainOf(tokens))
    ensures Parse(src) == Some(tokens)
  {
    hide IsPlain, Fits, Between, Pow2, AddToken, ParseFrom, Follows;
    assert tokens[..0] == [] && tokens[0..] == tokens;
    assert PlainOf([]) == StartPlain();
    PlainFollows(tokens, 0);
    BetweenStarts(src, PlainOf(tokens));
    ParsesFrom(src, 0, Pow2(31), 0, tokens, 0);
  }

  /** So two lists with the same output are the same. */
  lemma PlainIsInjective(src: seq<Byte>, a: seq<Token>, b: seq<Token>)
    requires (forall k :: 0 <= k < |a| ==> Fits(a[k])) && (forall k :: 0 <= k < |b| ==> Fits(b[k]))
    requires IsPlain(src, PlainOf(a)) && IsPlain(src, PlainOf(b))
    ensures a == b
  {
    ParsesBack(src, a);
    ParsesBack(src, b);
  }
}
