/** The statistics of the encoder's first pass, and the size of the output they predict. */
module HuffSize {
  import opened Totals
  import opened PrefixCodes
  import opened HuffmanTrees
  import opened CanonicalCodes
  import opened HuffmanCodes
  import opened BitStreams
  import opened BitIO
  import opened Tokens
  import opened HuffEncode
  import opened HuffBuffer
  import opened PlainStreams
  import D = Direct2Encode

  // ----- sums over tokens -----

  ghost function TokenSum(tokens: seq<Token>, f: Token -> nat): nat {
    if tokens == [] then 0 else TokenSum(tokens[..|tokens| - 1], f) + f(tokens[|tokens| - 1])
  }

  lemma TokenSumNext(tokens: seq<Token>, f: Token -> nat, i: nat)
    requires i < |tokens|
    ensures TokenSum(tokens[..i + 1], f) == TokenSum(tokens[..i], f) + f(tokens[i])
  {
    assert tokens[..i + 1][..i] == tokens[..i];
  }

  lemma {:induction false} TokenSumSplits(tokens: seq<Token>, f: Token -> nat, g: Token -> nat, h: Token -> nat)
    requires forall i :: 0 <= i < |tokens| ==> f(tokens[i]) == g(tokens[i]) + h(tokens[i])
    ensures TokenSum(tokens, f) == TokenSum(tokens, g) + TokenSum(tokens, h)
  {
    if tokens != [] {
      TokenSumSplits(tokens[..|tokens| - 1], f, g, h);
    }
  }

  function ExtraBits(t: Token): nat { if t.Match? && 0 < t.offset then BitNo(t.offset) else 0 }

  function MoreBytes(t: Token): nat { if t.Match? && 3 <= t.length < 0x10003 then |LengthBytes(t.length - 3)| else 0 }

  /** What a match takes in the intermediate buffer besides its long length: the symbol and the offset. */
  function PointerBytes(t: Token): nat {
    if t.Match? && 0 < t.offset then if BitNo(t.offset) >= 9 then 3 else 2 else 0
  }

  function LiteralBytes(t: Token): nat { if t.Literal? then 1 else 0 }

  function BufferBytes(t: Token): nat { LiteralBytes(t) + PointerBytes(t) + MoreBytes(t) }

  ghost function Is(s: int): Token -> nat { t => if SymbolOf(t) == s then 1 else 0 }

  // ----- the first pass -----

  /** What `tag_write` does to the mask of flags; `full` if it stores a word and reserves the next one. */
  function TagStep(tagMask: nat, flag: bool): (nat, bool) {
    if tagMask >= Pow2(31) then (1, true) else (2 * tagMask + (if flag then 1 else 0), false)
  }

  lemma TagSteps(c: seq<bool>, flag: bool)
    requires |c| <= 31
    ensures TagStep(Value([true] + c), flag) ==
              if |c| == 31 then (Value([true]), true) else (Value([true] + (c + [flag])), false)
  {
    hide Pow2, Value;
    D.LeadingOne(c);
    D.ValueOne();
    D.ValueNext([true] + c, flag);
    assert [true] + c + [flag] == [true] + (c + [flag]);
  }

  datatype Statistics = Statistics(freq: seq<nat>, pointers: nat, extra: nat, masks: nat)

  /** The counters after the first `i` tokens. */
  ghost predicate Counted(x: Statistics, tokens: seq<Token>, i: nat) {
    && i <= |tokens| && |x.freq| == 512 && (forall s :: 0 <= s < 512 ==> x.freq[s] == TokenSum(tokens[..i], Is(s)))
    && x.pointers == TokenSum(tokens[..i], PointerBytes) && x.extra == TokenSum(tokens[..i], ExtraBits)
    && x.masks == i / 32
  }

  /** One token: its symbol, its bytes and its bits are counted, and a word of flags after every 32. */
  function CountToken(x: Statistics, t: Token, full: bool): Statistics
    requires |x.freq| == 512 && SymbolOf(t) < 512
  {
    Statistics(x.freq[SymbolOf(t) := x.freq[SymbolOf(t)] + 1],
               x.pointers + PointerBytes(t), x.extra + ExtraBits(t), x.masks + if full then 1 else 0)
  }

  lemma CountedNext(x: Statistics, tokens: seq<Token>, i: nat, full: bool)
    requires Counted(x, tokens, i) && i < |tokens| && SymbolOf(tokens[i]) < 512 && full == ((i + 1) % 32 == 0)
    ensures Counted(CountToken(x, tokens[i], full), tokens, i + 1)
  {
    hide TokenSum, SymbolOf, PointerBytes, ExtraBits;
    TokenSumNext(tokens, PointerBytes, i);
    TokenSumNext(tokens, ExtraBits, i);
    forall s | 0 <= s < 512 ensures CountToken(x, tokens[i], full).freq[s] == TokenSum(tokens[..i + 1], Is(s)) {
      TokenSumNext(tokens, Is(s), i);
    }
    if full {
      assert (i + 1) / 32 == i / 32 + 1;
    } else {
      assert (i + 1) / 32 == i / 32;
    }
  }

  method GatherStatistics(tokens: seq<Token>) returns (x: Statistics)
    requires forall i :: 0 <= i < |tokens| ==> Normal(tokens[i])
    ensures x.masks > 0 && |x.freq| == 512 && x.freq[256] > 0
    ensures Counted(x.(masks := x.masks - 1, freq := x.freq[256 := x.freq[256] - 1]), tokens, |tokens|)
  {
    hide Value, TagStep, TokenSum, SymbolOf, CountToken, Counted, Pow2;
    x := Statistics(seq(512, _ => 0), 0, 0, 0);
    CountedStart(x, tokens);
    var tagMask := 1;
    ghost var c: seq<bool> := [];
    D.ValueOne();
    assert [true] + c == [true];
    for i := 0 to |tokens|
      invariant |x.freq| == 512 && |c| == i % 32 && tagMask == Value([true] + c)
      invariant Counted(x, tokens, i)
    {
      var t := tokens[i];
      assert Normal(t);
      SymbolBelow(t);
      TagSteps(c, t.Match?);
      var (mask, full) := TagStep(tagMask, t.Match?);
      c := if full then [] else c + [t.Match?];
      assert full ==> [true] + c == [true];
      tagMask := mask;
      CountedNext(x, tokens, i, full);
      x := CountToken(x, t, full);
      CountedSize(x, tokens, i + 1);
    }
    x := x.(masks := x.masks + 1);
    ghost var before := x.freq;
    x := x.(freq := x.freq[256 := x.freq[256] + 1]);
    assert x.freq[256 := x.freq[256] - 1] == before;
  }

  lemma CountedStart(x: Statistics, tokens: seq<Token>)
    requires x == Statistics(x.freq, 0, 0, 0) && |x.freq| == 512 && forall s :: 0 <= s < 512 ==> x.freq[s] == 0
    ensures Counted(x, tokens, 0)
  {
    assert tokens[..0] == [];
  }

  lemma CountedSize(x: Statistics, tokens: seq<Token>, i: nat)
    requires Counted(x, tokens, i)
    ensures |x.freq| == 512
  {
  }

  // ----- the size of the buffer -----

  lemma TokenSize(t: Token)
    requires Normal(t)
    ensures |BufferOf(t)| == BufferBytes(t)
  {
    hide BitNo, OffsetRest, SymbolOf;
  }

  /** The buffer: the bytes of the tokens and a word of flags for every 32, one of them begun. */
  lemma {:induction false} BufferSize(tokens: seq<Token>, i: nat)
    requires i <= |tokens| && forall k :: 0 <= k < |tokens| ==> Normal(tokens[k])
    ensures |Buffered(tokens[..i]).cells| == 4 * (i / 32 + 1) + TokenSum(tokens[..i], BufferBytes)
  {
    hide TokenSum, BufferBytes, Normal, AddBuffered, Buffered;
    if i == 0 {
      NoneBuffered(tokens);
    } else {
      BufferSize(tokens, i - 1);
      BufferedNext(tokens, i - 1);
      FlagsBuffered(tokens, i - 1);
      SizeAdded(Buffered(tokens[..i - 1]), tokens[i - 1]);
      TokenSumNext(tokens, BufferBytes, i - 1);
    }
  }

  lemma SizeAdded(s: Plain, t: Token)
    requires Normal(t)
    ensures |AddBuffered(s, t).cells| == |s.cells| + BufferBytes(t) + 4 * ((|s.flags| + 1) / 32 - |s.flags| / 32)
  {
    hide BufferOf, BufferBytes;
    TokenSize(t);
    if (|s.flags| + 1) % 32 == 0 {
      assert (|s.flags| + 1) / 32 == |s.flags| / 32 + 1;
    } else {
      assert (|s.flags| + 1) / 32 == |s.flags| / 32;
    }
  }

  lemma NoneBuffered(tokens: seq<Token>)
    ensures Buffered(tokens[..0]) == StartPlain() && TokenSum(tokens[..0], BufferBytes) == 0
  {
  }

  // ----- the size of the stream -----

  /** Two bytes for every word, one for each byte, and no word more than needed ahead of the current one. */
  ghost predicate Tight(s: Stream) {
    && Layout(s) && s.size == 2 * |s.places| + |s.raw|
    && |s.places| == 2 + if |s.bits| == 0 then 0 else (|s.bits| - 1) / 16
  }

  lemma TightStart()
    ensures Tight(Start())
  {
  }

  lemma TightField(s: Stream, w: seq<bool>)
    requires Tight(s) && |w| <= 15
    ensures Tight(AddField(s, w)) && |AddField(s, w).bits| == |s.bits| + |w| && AddField(s, w).raw == s.raw
  {
    hide Layout;
    LayoutField(s, w);
    LayoutFacts(s);
    LayoutFacts(AddField(s, w));
  }

  lemma TightByte(s: Stream, b: Byte)
    requires Tight(s)
    ensures Tight(AddByte(s, b)) && AddByte(s, b).bits == s.bits && |AddByte(s, b).raw| == |s.raw| + 1
  {
    FollowsByte(s, b);
    assert s.size !in s.raw;
  }

  lemma {:induction false} TightBytes(s: Stream, bytes: seq<Byte>)
    requires Tight(s)
    ensures Tight(AddBytes(s, bytes)) && AddBytes(s, bytes).bits == s.bits
            && |AddBytes(s, bytes).raw| == |s.raw| + |bytes|
  {
    hide Tight, AddByte;
    if bytes != [] {
      TightBytes(s, bytes[..|bytes| - 1]);
      TightByte(AddBytes(s, bytes[..|bytes| - 1]), bytes[|bytes| - 1]);
    }
  }

  lemma TightEmit(s: Stream, length: seq<nat>, t: Token)
    requires Tight(s) && |length| == 512 && Fills(length, 15) && Encodable(length, t)
    ensures Tight(Emit(s, length, t))
    ensures |Emit(s, length, t).bits| == |s.bits| + At(length, SymbolOf(t)) + ExtraBits(t)
    ensures |Emit(s, length, t).raw| == |s.raw| + MoreBytes(t)
  {
    hide Tight, AddField, AddBytes, CodeWord, OffsetField, LengthBytes, BitNo, Fills, Emit;
    SymbolBelow(t);
    CodeWordFacts(length, SymbolOf(t));
    EmitIs(s, length, t);
    var a := AddField(s, CodeWord(length, SymbolOf(t)));
    TightField(s, CodeWord(length, SymbolOf(t)));
    if t.Match? {
      OffsetFieldFacts(t);
      TightBytes(a, LengthBytes(t.length - 3));
      TightField(AddBytes(a, LengthBytes(t.length - 3)), OffsetField(t));
    }
  }

  ghost function CodeBits(length: seq<nat>): Token -> nat { t => At(length, SymbolOf(t)) }

  lemma {:induction false} TightEmitted(length: seq<nat>, tokens: seq<Token>, i: nat)
    requires Codes(length, tokens) && i <= |tokens|
    ensures Tight(Emitted(length, tokens[..i]))
    ensures |Emitted(length, tokens[..i]).bits| ==
              TokenSum(tokens[..i], CodeBits(length)) + TokenSum(tokens[..i], ExtraBits)
    ensures |Emitted(length, tokens[..i]).raw| == TokenSum(tokens[..i], MoreBytes)
  {
    hide Tight, Emit, Fills, Encodable, TokenSum, ExtraBits, MoreBytes, SymbolOf;
    if i == 0 {
      TightStart();
      NoTokens(length, tokens);
    } else {
      TightEmitted(length, tokens, i - 1);
      EmittedNext(length, tokens, i - 1);
      TightEmit(Emitted(length, tokens[..i - 1]), length, tokens[i - 1]);
      TokenSumNext(tokens, CodeBits(length), i - 1);
      TokenSumNext(tokens, ExtraBits, i - 1);
      TokenSumNext(tokens, MoreBytes, i - 1);
    }
  }

  lemma NoTokens(length: seq<nat>, tokens: seq<Token>)
    ensures TokenSum(tokens[..0], CodeBits(length)) == TokenSum(tokens[..0], ExtraBits) ==
              TokenSum(tokens[..0], MoreBytes) == 0
    ensures Emitted(length, tokens[..0]) == Start()
  {
  }

  // ----- the cost of the symbols -----

  ghost function Occurrences(tokens: seq<Token>): (freq: seq<nat>)
    ensures |freq| == 512 && forall s :: 0 <= s < 512 ==> freq[s] == TokenSum(tokens, Is(s))
  {
    seq(512, s => TokenSum(tokens, Is(s)))
  }

  lemma CostBump(freq: seq<nat>, length: seq<nat>, k: nat)
    requires k < |freq|
    ensures Cost(freq[k := freq[k] + 1], length) == Cost(freq, length) + At(length, k)
  {
    hide Total;
    var more, all := freq[k := freq[k] + 1], Numbers(0, |freq|);
    var one := Single(k, At(length, k));
    forall i | 0 <= i < |all| ensures Measuring(more, length)(all[i]) == Measuring(freq, length)(all[i]) + one(all[i]) {
      OneMore(freq[i], At(length, i));
    }
    TotalSplit(all, Measuring(more, length), Measuring(freq, length), one, 1);
    TotalSingle(|freq|, k, one, At(length, k));
  }

  lemma CostOfNothing(length: seq<nat>)
    ensures Cost(Occurrences([]), length) == 0
  {
    hide Total;
    forall s | 0 <= s < 512 ensures Measuring(Occurrences([]), length)(s) == 0 {
      assert TokenSum([], Is(s)) == 0;
    }
    TotalConstant(Numbers(0, 512), Measuring(Occurrences([]), length), 0);
  }

  /** The cost by symbols is the cost by tokens. */
  lemma {:induction false} CostOfTokens(tokens: seq<Token>, length: seq<nat>)
    requires forall i :: 0 <= i < |tokens| ==> SymbolOf(tokens[i]) < 512
    ensures Cost(Occurrences(tokens), length) == TokenSum(tokens, CodeBits(length))
  {
    hide Cost, SymbolOf, Occurrences;
    if tokens == [] {
      CostOfNothing(length);
    } else {
      var last := |tokens| - 1;
      var k := SymbolOf(tokens[last]);
      var before := Occurrences(tokens[..last]);
      CostOfTokens(tokens[..last], length);
      CostBump(before, length, k);
      assert Occurrences(tokens) == before[k := before[k] + 1];
    }
  }

  /** The bits of the whole stream. */
  lemma StreamSize(length: seq<nat>, tokens: seq<Token>, freq: seq<nat>)
    requires Codes(length, tokens) && freq == Occurrences(tokens)[256 := Occurrences(tokens)[256] + 1]
    ensures var bits := Cost(freq, length) + TokenSum(tokens, ExtraBits);
      bits > 0 && Finished(length, tokens).size == 4 + 2 * ((bits - 1) / 16) + TokenSum(tokens, MoreBytes)
  {
    hide Cost, Occurrences, Fills, CodeWord, AddField, Emitted, TokenSum, ExtraBits, MoreBytes, Layout, Canon;
    forall i | 0 <= i < |tokens| ensures SymbolOf(tokens[i]) < 512 {
      assert Encodable(length, tokens[i]);
      SymbolBelow(tokens[i]);
    }
    assert tokens[..|tokens|] == tokens;
    TightEmitted(length, tokens, |tokens|);
    CodeWordFacts(length, 256);
    TightField(Emitted(length, tokens), CodeWord(length, 256));
    CostOfTokens(tokens, length);
    CostBump(Occurrences(tokens), length, 256);
  }
}
