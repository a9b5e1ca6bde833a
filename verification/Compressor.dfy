/** From text to tokens: the encoder's first pass at every compression level. */
module Compressor {
  import opened BitStreams
  import opened Tokens
  import opened HashChains
  import opened MatchFinder

  // ----- tokens that stand for a text -----

  /** The tokens stand for the first `pos` bytes. */
  ghost predicate Spells(orig: seq<Byte>, tokens: seq<Token>, pos: nat, reach: nat) {
    pos <= |orig| && Valid(tokens, reach) && Expanded(tokens) == orig[..pos]
  }

  /** A copy of bytes that agree gives the bytes that follow. */
  lemma {:induction false} CopyAgrees(orig: seq<Byte>, k: nat, n: nat, l: nat)
    requires Agrees(orig, k, n, l)
    ensures Copied(orig[..n], n - k, l) == orig[..n + l]
    decreases l
  {
    if l != 0 {
      AgreesAt(orig, k, n, l, 0);
      assert orig[k + 1..k + l] == orig[k..k + l][1..] && orig[n + 1..n + l] == orig[n..n + l][1..];
      assert orig[..n] + [orig[n]] == orig[..n + 1];
      CopyAgrees(orig, k + 1, n + 1, l - 1);
    }
  }

  lemma ExpandedMore(tokens: seq<Token>, t: Token, reach: nat)
    requires Valid(tokens, reach) && Applies(Expanded(tokens), t, reach)
    ensures Valid(tokens + [t], reach) && Expanded(tokens + [t]) == Apply(Expanded(tokens), t)
  {
    hide Applies;
    var all := tokens + [t];
    assert all[..|tokens|] == tokens;
    forall i | 0 <= i < |all| ensures Applies(Expanded(all[..i]), all[i], reach) {
      assert i < |tokens| ==> all[..i] == tokens[..i];
    }
  }

  lemma SpellsLiteral(orig: seq<Byte>, tokens: seq<Token>, pos: nat, reach: nat)
    requires Spells(orig, tokens, pos, reach) && pos < |orig|
    ensures Spells(orig, tokens + [Literal(orig[pos])], pos + 1, reach)
  {
    ExpandedMore(tokens, Literal(orig[pos]), reach);
    assert orig[..pos + 1] == orig[..pos] + [orig[pos]];
  }

  lemma SpellsMatch(orig: seq<Byte>, tokens: seq<Token>, pos: nat, reach: nat, k: nat, l: nat)
    requires Spells(orig, tokens, pos, reach) && Agrees(orig, k, pos, l) && 3 <= l && pos <= k + reach
             && |orig| <= 0x10000
    ensures Spells(orig, tokens + [Match(pos - k, l)], pos + l, reach)
  {
    hide Copied, Expanded;
    AgreesMeans(orig, k, pos, l);
    CopyAgrees(orig, k, pos, l);
    ExpandedMore(tokens, Match(pos - k, l), reach);
  }

  // ----- how a token is chosen -----

  /** Levels 0 and 1: the latest position with the same hash, if it is near enough and agrees in three bytes. */
  ghost predicate ChosenLatest(orig: seq<Byte>, hash: Hash, reach: nat, n: nat, t: Token)
    requires n < |orig|
  {
    if n == 0 then t == Literal(orig[0])
    else n + 2 < |orig| && exists last ::
        Latest(orig, hash, HashAt(orig, hash, n), n, last) && ChosenAt(orig, last, reach, n, t)
  }

  ghost predicate ChosenAt(orig: seq<Byte>, k: nat, reach: nat, n: nat, t: Token)
    requires n < |orig|
  {
    if n <= k + reach && Agrees(orig, k, n, 3) then t.Match? && k + t.offset == n && AgreesExactly(orig, k, n, t.length)
    else t == Literal(orig[n])
  }

  /** Level 2: the first candidate that passes the probe, if it is near enough and agrees in three bytes. */
  ghost predicate ChosenFirst(orig: seq<Byte>, c: seq<nat>, reach: nat, n: nat, t: Token)
    requires n < |orig|
  {
    exists seen: nat ::
      && FirstEnds(orig, c, seen, n)
      && if seen < |c| && seen < 9 then ChosenAt(orig, c[seen], reach, n, t) else t == Literal(orig[n])
  }

  /** Level 3 and above: the longest match of as many candidates as the level has tries, at least. */
  ghost predicate ChosenBest(orig: seq<Byte>, c: seq<nat>, level: nat, reach: nat, n: nat, t: Token)
    requires n < |orig|
  {
    exists seen: nat, len: nat, pos: nat ::
      && Best(orig, c, seen, n, reach, len, pos) && Over(orig, c, seen, n, reach, level, len)
      && if 3 <= len then t.Match? && pos + t.offset == n && t.length == len else t == Literal(orig[n])
  }

  /** Without a link there is no search. */
  ghost predicate Chosen(orig: seq<Byte>, hash: Hash, next: seq<nat>, level: nat, reach: nat, n: nat, t: Token) {
    n < |orig| &&
    if level <= 1 then ChosenLatest(orig, hash, reach, n, t)
    else
      && Linked(orig, hash, next, |orig|)
      && if next[n] == 0 then t == Literal(orig[n])
         else if level == 2 then ChosenFirst(orig, Candidates(orig, hash, next, n), reach, n, t)
         else ChosenBest(orig, Candidates(orig, hash, next, n), level, reach, n, t)
  }

  ghost predicate AllChosen(orig: seq<Byte>, hash: Hash, next: seq<nat>, level: nat, reach: nat, tokens: seq<Token>) {
    forall i :: 0 <= i < |tokens| ==> Chosen(orig, hash, next, level, reach, |Expanded(tokens[..i])|, tokens[i])
  }

  lemma ChosenMore(orig: seq<Byte>, hash: Hash, next: seq<nat>, level: nat, reach: nat, tokens: seq<Token>, pos: nat,
                   t: Token)
    requires AllChosen(orig, hash, next, level, reach, tokens) && Spells(orig, tokens, pos, reach)
    requires Chosen(orig, hash, next, level, reach, pos, t)
    ensures AllChosen(orig, hash, next, level, reach, tokens + [t])
  {
    hide Chosen, Expanded, Valid;
    var all := tokens + [t];
    forall i | 0 <= i < |all| ensures Chosen(orig, hash, next, level, reach, |Expanded(all[..i])|, all[i]) {
      assert all[..i] == if i < |tokens| then tokens[..i] else tokens;
    }
  }

  // ----- levels 0 and 1 -----

  /** For every hash the table has the latest position so far. */
  ghost predicate Tabled(orig: seq<Byte>, hash: Hash, table: seq<nat>, n: nat) {
    && (forall a: Byte, b: Byte, c: Byte :: hash(a, b, c) < |table|)
    && forall h :: 0 <= h < |table| ==> Latest(orig, hash, h, n, table[h])
  }

  lemma TabledNext(orig: seq<Byte>, hash: Hash, table: seq<nat>, n: nat)
    requires Tabled(orig, hash, table, n) && n + 2 < |orig|
    ensures HashAt(orig, hash, n) < |table| && Tabled(orig, hash, table[HashAt(orig, hash, n) := n], n + 1)
    ensures Latest(orig, hash, HashAt(orig, hash, n), n, table[HashAt(orig, hash, n)])
            && table[HashAt(orig, hash, n)] <= n
  {
    hide Latest;
    HashBelow(orig, hash, n, |table|);
    var g := HashAt(orig, hash, n);
    forall h | 0 <= h < |table| ensures Latest(orig, hash, h, n + 1, if g == h then n else table[h]) {
      LatestMoves(orig, hash, h, n, table[h]);
    }
    LatestBelow(orig, hash, g, n, table[g]);
  }

  lemma LatestBelow(orig: seq<Byte>, hash: Hash, h: nat, n: nat, last: nat)
    requires Latest(orig, hash, h, n, last)
    ensures last <= n && (0 < n ==> last < n)
  {
  }

  // ----- the passes -----

  /** The tokens so far stand for the first `pos` bytes, each chosen as the level says. */
  ghost predicate Passed(orig: seq<Byte>, hash: Hash, next: seq<nat>, level: nat, reach: nat, tokens: seq<Token>,
                         pos: nat) {
    Spells(orig, tokens, pos, reach) && AllChosen(orig, hash, next, level, reach, tokens)
  }

  /** A pass from `start` to `stop` has added tokens, all but the last of which end before `stop`. */
  ghost predicate Added(prior: seq<Token>, tokens: seq<Token>, stop: nat) {
    prior < tokens && |Expanded(tokens[..|tokens| - 1])| < stop
  }

  lemma PassedStarts(orig: seq<Byte>, hash: Hash, next: seq<nat>, level: nat, reach: nat)
    ensures Passed(orig, hash, next, level, reach, [], 0)
  {
  }

  lemma PassedLiteral(orig: seq<Byte>, hash: Hash, next: seq<nat>, level: nat, reach: nat, tokens: seq<Token>, pos: nat,
                      prior: seq<Token>, stop: nat)
    requires Passed(orig, hash, next, level, reach, tokens, pos) && pos < |orig| && prior <= tokens && pos < stop
    requires Chosen(orig, hash, next, level, reach, pos, Literal(orig[pos]))
    ensures Passed(orig, hash, next, level, reach, tokens + [Literal(orig[pos])], pos + 1)
    ensures Added(prior, tokens + [Literal(orig[pos])], stop)
  {
    hide Chosen, Expanded;
    SpellsLiteral(orig, tokens, pos, reach);
    ChosenMore(orig, hash, next, level, reach, tokens, pos, Literal(orig[pos]));
    assert (tokens + [Literal(orig[pos])])[..|tokens|] == tokens;
  }

  lemma PassedMatch(orig: seq<Byte>, hash: Hash, next: seq<nat>, level: nat, reach: nat, tokens: seq<Token>, pos: nat,
                    prior: seq<Token>, stop: nat, k: nat, l: nat)
    requires Passed(orig, hash, next, level, reach, tokens, pos) && prior <= tokens && pos < stop && |orig| <= 0x10000
    requires Agrees(orig, k, pos, l) && 3 <= l && k < pos <= k + reach
    requires Chosen(orig, hash, next, level, reach, pos, Match(pos - k, l))
    ensures Passed(orig, hash, next, level, reach, tokens + [Match(pos - k, l)], pos + l)
    ensures Added(prior, tokens + [Match(pos - k, l)], stop)
  {
    hide Chosen, Expanded, Agrees;
    SpellsMatch(orig, tokens, pos, reach, k, l);
    ChosenMore(orig, hash, next, level, reach, tokens, pos, Match(pos - k, l));
    assert (tokens + [Match(pos - k, l)])[..|tokens|] == tokens;
  }

  lemma LatestGivesLiteral(orig: seq<Byte>, hash: Hash, next: seq<nat>, level: nat, reach: nat, n: nat, last: nat)
    requires level <= 1 && n + 2 < |orig|
    requires n == 0 || (Latest(orig, hash, HashAt(orig, hash, n), n, last)
                        && !(n <= last + reach && Agrees(orig, last, n, 3)))
    ensures Chosen(orig, hash, next, level, reach, n, Literal(orig[n]))
  {
  }

  lemma LatestGivesMatch(orig: seq<Byte>, hash: Hash, next: seq<nat>, level: nat, reach: nat, n: nat, last: nat, l: nat)
    requires level <= 1 && last < n && n + 2 < |orig| && Latest(orig, hash, HashAt(orig, hash, n), n, last)
    requires n <= last + reach && Agrees(orig, last, n, 3) && AgreesExactly(orig, last, n, l)
    ensures Chosen(orig, hash, next, level, reach, n, Match(n - last, l))
  {
    assert ChosenAt(orig, last, reach, n, Match(n - last, l));
  }

  /** The pass of levels 0 and 1. The table holds the latest position of every hash, also of positions inside matches,
      except that the last three positions are not entered. */
  method QuickPass(orig: seq<Byte>, hash: Hash, table: array<nat>, reach: nat, start: nat, stop: nat, prior: seq<Token>,
                   ghost level: nat, ghost next: seq<nat>)
    returns (pos: nat, tokens: seq<Token>)
    requires level <= 1 && start < stop && stop + 7 <= |orig| <= 0x10000
    requires Tabled(orig, hash, table[..], start) && Passed(orig, hash, next, level, reach, prior, start)
    modifies table
    ensures stop <= pos && Passed(orig, hash, next, level, reach, tokens, pos) && Added(prior, tokens, stop)
    ensures pos + 3 <= |orig| ==> Tabled(orig, hash, table[..], pos)
  {
    hide *;
    pos, tokens := start, prior;
    if pos == 0 {
      LatestGivesLiteral(orig, hash, next, level, reach, 0, 0);
      PassedLiteral(orig, hash, next, level, reach, tokens, 0, prior, stop);
      tokens, pos := tokens + [Literal(orig[0])], 1;
      TabledAfterFirst(orig, hash, table[..]);
    }
    while pos < stop
      invariant 0 < pos && Passed(orig, hash, next, level, reach, tokens, pos)
      invariant pos + 3 <= |orig| ==> Tabled(orig, hash, table[..], pos)
      invariant if pos == start then tokens == prior else Added(prior, tokens, stop)
      decreases |orig| - pos
    {
      AddedKeeps(prior, tokens, stop);
      ghost var entered := table[..];
      TabledNext(orig, hash, entered, pos);
      var h := HashAt(orig, hash, pos);
      var last := table[h];
      LatestBelow(orig, hash, h, pos, last);
      table[h] := pos;
      assert table[..] == entered[h := pos];
      FirstThree(orig, last, pos);
      if pos - last > reach || orig[last] != orig[pos] || orig[last + 1] != orig[pos + 1]
          || orig[last + 2] != orig[pos + 2] {
        LatestGivesLiteral(orig, hash, next, level, reach, pos, last);
        PassedLiteral(orig, hash, next, level, reach, tokens, pos, prior, stop);
        tokens, pos := tokens + [Literal(orig[pos])], pos + 1;
      } else {
        var l := MatchLength(orig, last, pos, 3);
        ExactlyMeans(orig, last, pos, l);
        LatestGivesMatch(orig, hash, next, level, reach, pos, last, l);
        PassedMatch(orig, hash, next, level, reach, tokens, pos, prior, stop, last, l);
        PassedWithin(orig, hash, next, level, reach, tokens + [Match(pos - last, l)], pos + l);
        tokens := tokens + [Match(pos - last, l)];
        var b: nat := pos + 1;
        var end := if pos + l > |orig| - 3 then |orig| - 3 else pos + l;
        while b < end
          invariant b <= end && Tabled(orig, hash, table[..], b)
        {
          ghost var before := table[..];
          TabledNext(orig, hash, before, b);
          table[HashAt(orig, hash, b)] := b;
          assert table[..] == before[HashAt(orig, hash, b) := b];
          b := b + 1;
        }
        pos := pos + l;
      }
    }
  }

  lemma AddedKeeps(prior: seq<Token>, tokens: seq<Token>, stop: nat)
    ensures Added(prior, tokens, stop) ==> prior <= tokens
  {
  }

  lemma PassedWithin(orig: seq<Byte>, hash: Hash, next: seq<nat>, level: nat, reach: nat, tokens: seq<Token>, pos: nat)
    requires Passed(orig, hash, next, level, reach, tokens, pos)
    ensures pos <= |orig|
  {
  }

  /** Position 0 is what an empty place in the table stands for. */
  lemma TabledAfterFirst(orig: seq<Byte>, hash: Hash, table: seq<nat>)
    requires Tabled(orig, hash, table, 0)
    ensures Tabled(orig, hash, table, 1)
  {
    hide HashAt;
    forall h | 0 <= h < |table| ensures Latest(orig, hash, h, 1, table[h]) {
      assert Latest(orig, hash, h, 0, table[h]);
    }
  }

  lemma NoLinkGivesLiteral(orig: seq<Byte>, hash: Hash, next: seq<nat>, level: nat, reach: nat, n: nat)
    requires 2 <= level && Linked(orig, hash, next, |orig|) && n < |orig| && next[n] == 0
    ensures Chosen(orig, hash, next, level, reach, n, Literal(orig[n]))
  {
  }

  lemma BestGives(orig: seq<Byte>, hash: Hash, next: seq<nat>, level: nat, reach: nat, n: nat, seen: nat, len: nat,
                  pos: nat)
    requires 3 <= level && Linked(orig, hash, next, |orig|) && n < |orig| && next[n] != 0
    requires Best(orig, Candidates(orig, hash, next, n), seen, n, reach, len, pos)
    requires Over(orig, Candidates(orig, hash, next, n), seen, n, reach, level, len)
    ensures 3 <= len ==> pos < n <= pos + reach && Agrees(orig, pos, n, len)
    ensures 3 <= len ==> Chosen(orig, hash, next, level, reach, n, Match(n - pos, len))
    ensures len < 3 ==> Chosen(orig, hash, next, level, reach, n, Literal(orig[n]))
  {
    hide Linked, Candidates, Over;
    var c := Candidates(orig, hash, next, n);
    if 3 <= len {
      AgreesMeans(orig, pos, n, len);
    }
    var t := if 3 <= len then Match(n - pos, len) else Literal(orig[n]);
    assert ChosenBest(orig, c, level, reach, n, t);
  }

  lemma FirstGives(orig: seq<Byte>, hash: Hash, next: seq<nat>, reach: nat, n: nat, seen: nat, found: bool, len: nat,
                   pos: nat)
    requires Linked(orig, hash, next, |orig|) && n < |orig| && next[n] != 0
    requires FirstEnds(orig, Candidates(orig, hash, next, n), seen, n)
    requires var c := Candidates(orig, hash, next, n);
      && (found <==> seen < |c| && seen < 9 && n <= c[seen] + reach && Agrees(orig, c[seen], n, 3))
      && (found ==> 3 <= len && pos == c[seen] && AgreesExactly(orig, pos, n, len))
    ensures found ==> pos < n <= pos + reach && Agrees(orig, pos, n, len)
    ensures found ==> Chosen(orig, hash, next, 2, reach, n, Match(n - pos, len))
    ensures !found ==> Chosen(orig, hash, next, 2, reach, n, Literal(orig[n]))
  {
    hide Linked, Candidates, Agrees, FirstEnds;
    var c := Candidates(orig, hash, next, n);
    if found {
      AgreesMeans(orig, pos, n, len);
    }
    var t := if found then Match(n - pos, len) else Literal(orig[n]);
    assert ChosenFirst(orig, c, reach, n, t);
  }

  lemma NoLinkFirst(orig: seq<Byte>, hash: Hash, next: seq<nat>)
    requires Linked(orig, hash, next, |orig|) && 0 < |orig|
    ensures |orig| <= |next| && next[0] == 0
  {
  }

  /** The pass of level 2 and above. */
  method ChainPass(orig: seq<Byte>, zNext: array<nat>, level: nat, reach: nat, start: nat, stop: nat, prior: seq<Token>,
                   ghost hash: Hash, ghost next: seq<nat>)
    returns (pos: nat, tokens: seq<Token>)
    requires 2 <= level && start < stop && stop + 7 <= |orig| <= 0x10000 && Linked(orig, hash, next, |orig|)
    requires zNext.Length == |next| && zNext[..] == next[0 := zNext[0]] && (start == 0 ==> zNext[0] == 0)
    requires Passed(orig, hash, next, level, reach, prior, start)
    modifies zNext
    ensures stop <= pos && Passed(orig, hash, next, level, reach, tokens, pos) && Added(prior, tokens, stop)
    ensures zNext[..] == next[0 := zNext[0]]
  {
    hide *;
    NoLinkFirst(orig, hash, next);
    pos, tokens := start, prior;
    while true
      invariant pos < stop && Passed(orig, hash, next, level, reach, tokens, pos) && prior <= tokens
      invariant zNext[..] == next[0 := zNext[0]] && (pos == 0 ==> zNext[0] == 0)
      decreases |orig| - pos
    {
      assert zNext[pos] == next[pos];
      ghost var before := tokens;
      if zNext[pos] == 0 {
        NoLinkGivesLiteral(orig, hash, next, level, reach, pos);
        PassedLiteral(orig, hash, next, level, reach, tokens, pos, prior, stop);
        tokens, pos := tokens + [Literal(orig[pos])], pos + 1;
      } else {
        var found, len, at;
        ghost var seen;
        if level == 2 {
          found, len, at, seen := FindFirst(orig, zNext, pos, reach, hash, next);
          FirstGives(orig, hash, next, reach, pos, seen, found, len, at);
        } else {
          found, len, at, seen := FindMatch(orig, zNext, pos, reach, level, hash, next);
          BestGives(orig, hash, next, level, reach, pos, seen, len, at);
        }
        if found {
          PassedMatch(orig, hash, next, level, reach, tokens, pos, prior, stop, at, len);
          PassedWithin(orig, hash, next, level, reach, tokens + [Match(pos - at, len)], pos + len);
          tokens, pos := tokens + [Match(pos - at, len)], pos + len;
        } else {
          PassedLiteral(orig, hash, next, level, reach, tokens, pos, prior, stop);
          tokens, pos := tokens + [Literal(orig[pos])], pos + 1;
        }
      }
      AddedKeeps(prior, tokens, stop);
      if pos >= stop {
        return;
      }
    }
  }

  // ----- what the best level gives -----

  /** Where the level has as many tries as there are candidates, a match is the longest there is, and the nearest of the
      longest. A literal means that no match was to be had, except one with the beginning of the text if no later
      position has the same hash. */
  lemma ChosenIsLongest(orig: seq<Byte>, hash: Hash, next: seq<nat>, level: nat, reach: nat, n: nat, t: Token)
    requires Linked(orig, hash, next, |orig|) && 0 < n && n + 2 < |orig|
    requires 3 <= level && |Candidates(orig, hash, next, n)| <= level && Chosen(orig, hash, next, level, reach, n, t)
    ensures t.Match? ==> t.offset <= n && IsLongest(orig, n, reach, t.length, n - t.offset)
    ensures t.Literal? ==> t.b == orig[n] && forall j: nat :: 0 < j && n <= j + reach ==> !Agrees(orig, j, n, 3)
    ensures t.Literal? && n <= reach && Agrees(orig, 0, n, 3) ==> next[n] == 0
  {
    hide Linked, Candidates, Best, Over, Agrees;
    NoLinkFirst(orig, hash, next);
    if next[n] == 0 {
      forall j: nat | 0 < j && n <= j + reach ensures !Agrees(orig, j, n, 3) {
        if Agrees(orig, j, n, 3) {
          AgreeingIsCandidate(orig, hash, next, n, j);
        }
      }
    } else {
      var c := Candidates(orig, hash, next, n);
      var seen: nat, len: nat, pos: nat :|
        && Best(orig, c, seen, n, reach, len, pos) && Over(orig, c, seen, n, reach, level, len)
        && if 3 <= len then t.Match? && pos + t.offset == n && t.length == len else t == Literal(orig[n]);
      SearchIsComplete(orig, hash, next, n, reach, level, seen, len, pos);
    }
  }

  // ----- texts that do not compress -----

  /** From position `m` on no byte has a value that occurs before it. */
  ghost predicate NewBytes(orig: seq<Byte>, m: nat) {
    forall j, n :: 0 <= j < n < |orig| && m <= n ==> orig[j] != orig[n]
  }

  /** No match reaches beyond that position, so every byte from there on takes a token of its own. */
  lemma {:induction false} NewBytesTakeTokens(orig: seq<Byte>, tokens: seq<Token>, reach: nat, m: nat, i: nat)
    requires Spells(orig, tokens, |orig|, reach) && NewBytes(orig, m) && i <= |tokens|
    ensures |Expanded(tokens[..i])| <= m + i
  {
    hide Expanded, NewBytes;
    if i == 0 {
      assert tokens[..0] == [];
      NothingExpanded();
    } else {
      NewBytesTakeTokens(orig, tokens, reach, m, i - 1);
      var t, before := tokens[i - 1], Expanded(tokens[..i - 1]);
      ExpandedNext(tokens, i - 1);
      ExpandedPrefix(tokens, i);
      assert Applies(before, t, reach);
      if t.Match? {
        CopiedRepeats(before, t.offset, t.length, t.length - 1);
        LastIsOld(orig, Expanded(tokens[..i]), m, t.offset);
      }
    }
  }

  lemma NothingExpanded()
    ensures Expanded([]) == []
  {
  }

  lemma LastIsOld(orig: seq<Byte>, part: seq<Byte>, m: nat, offset: nat)
    requires NewBytes(orig, m) && part <= orig && 1 <= offset < |part|
    requires part[|part| - 1] == part[|part| - 1 - offset]
    ensures |part| <= m
  {
    var n := |part| - 1;
    assert orig[n] == part[n] && orig[n - offset] == part[n - offset];
  }

  lemma AsManyTokens(orig: seq<Byte>, tokens: seq<Token>, reach: nat, m: nat)
    requires Spells(orig, tokens, |orig|, reach) && NewBytes(orig, m)
    ensures |orig| <= m + |tokens|
  {
    hide Expanded, NewBytes, Valid;
    NewBytesTakeTokens(orig, tokens, reach, m, |tokens|);
    assert tokens[..|tokens|] == tokens && orig[..|orig|] == orig;
  }

  /** Levels 0 and 1 begin with a literal. */
  lemma FirstChosen(orig: seq<Byte>, hash: Hash, next: seq<nat>, level: nat, reach: nat, early: seq<Token>)
    requires level <= 1 && AllChosen(orig, hash, next, level, reach, early) && 2 <= |Expanded(early)|
    ensures 2 <= |orig| && 2 <= |early| && early[0] == Literal(orig[0])
    ensures Chosen(orig, hash, next, level, reach, 1, early[1])
  {
    assert early != [];
    assert early[..0] == [];
    assert early[..1] == [early[0]];
    assert Expanded(early[..1]) == Apply(Expanded([]), early[0]) by { ExpandedNext(early, 0); }
    assert Chosen(orig, hash, next, level, reach, |Expanded(early[..0])|, early[0]);
    assert Chosen(orig, hash, next, level, reach, |Expanded(early[..1])|, early[1]);
  }

  /** Four equal bytes at the beginning: the second token is a match. */
  lemma SecondMatches(orig: seq<Byte>, hash: Hash, next: seq<nat>, level: nat, reach: nat, t: Token)
    requires level <= 1 && 1 <= reach && Chosen(orig, hash, next, level, reach, 1, t)
    requires 4 <= |orig| && orig[0] == orig[1] == orig[2] == orig[3]
    ensures t.Match? && t.offset == 1 && AgreesExactly(orig, 0, 1, t.length)
  {
    hide HashAt, AgreesExactly;
    var last :| Latest(orig, hash, HashAt(orig, hash, 1), 1, last) && ChosenAt(orig, last, reach, 1, t);
    assert last == 0;
    assert orig[0..3] == orig[1..4];
    assert Agrees(orig, 0, 1, 3);
  }

  // ----- the workspace -----

  /** The level in force. */
  function Effective(level: int, maxLevel: nat): nat {
    if level < 0 then 0 else if level > maxLevel then maxLevel else level
  }

  /** The workspace is ready to go on at `pos`. */
  ghost predicate Ready(orig: seq<Byte>, hash: Hash, level: nat, table: seq<nat>, zNext: seq<nat>, next: seq<nat>,
                        pos: nat) {
    if level <= 1 then pos + 3 <= |orig| ==> Tabled(orig, hash, table, pos)
    else
      && Linked(orig, hash, next, |orig|) && 0 < |orig| <= |zNext|
      && |zNext| == |next| && zNext == next[0 := zNext[0]] && (pos == 0 ==> zNext[0] == 0)
  }

  /** An empty table, or all the chains. */
  method Prepare(orig: seq<Byte>, hash: Hash, size: nat, level: nat)
    returns (table: array<nat>, zNext: array<nat>, ghost next: seq<nat>)
    requires 0 < |orig| <= 0x10000 && forall a: Byte, b: Byte, c: Byte :: hash(a, b, c) < size
    ensures fresh(table) && fresh(zNext) && table != zNext
    ensures Ready(orig, hash, level, table[..], zNext[..], next, 0)
  {
    hide Latest, Linked;
    table := new nat[size](_ => 0);
    zNext := new nat[|orig|];
    next := [];
    if level <= 1 {
      forall h | 0 <= h < size ensures Latest(orig, hash, h, 0, 0) {
        LatestStarts(orig, hash, h);
      }
    } else {
      ZHashInsert(orig, hash, table, zNext);
      next := zNext[..];
      NoLinkFirst(orig, hash, next);
    }
  }

  method Pass(orig: seq<Byte>, hash: Hash, table: array<nat>, zNext: array<nat>, level: nat, reach: nat, start: nat,
              stop: nat, prior: seq<Token>, ghost next: seq<nat>)
    returns (pos: nat, tokens: seq<Token>)
    requires start < stop && stop + 7 <= |orig| <= 0x10000 && table != zNext
    requires Ready(orig, hash, level, table[..], zNext[..], next, start)
    requires Passed(orig, hash, next, level, reach, prior, start)
    modifies table, zNext
    ensures stop <= pos && Passed(orig, hash, next, level, reach, tokens, pos) && Added(prior, tokens, stop)
    ensures Ready(orig, hash, level, table[..], zNext[..], next, pos)
  {
    hide Latest, Linked, Passed, Added, Tabled;
    if level <= 1 {
      pos, tokens := QuickPass(orig, hash, table, reach, start, stop, prior, level, next);
    } else {
      pos, tokens := ChainPass(orig, zNext, level, reach, start, stop, prior, hash, next);
    }
  }

  /** Passes that stop whenever `size` more bytes are done, to report progress; a `size` of 0 stands for no report.
      `done` is where the last report was made. */
  method PassProgress(orig: seq<Byte>, hash: Hash, table: array<nat>, zNext: array<nat>, level: nat, reach: nat,
                      start: nat, stop: nat, prior: seq<Token>, size: nat, done: nat, ghost next: seq<nat>)
    returns (pos: nat, tokens: seq<Token>, done': nat)
    requires start < stop && stop + 7 <= |orig| <= 0x10000 && table != zNext && done <= start
    requires Ready(orig, hash, level, table[..], zNext[..], next, start)
    requires Passed(orig, hash, next, level, reach, prior, start)
    modifies table, zNext
    ensures stop <= pos && Passed(orig, hash, next, level, reach, tokens, pos) && Added(prior, tokens, stop)
            && done' <= pos
    ensures Ready(orig, hash, level, table[..], zNext[..], next, pos)
  {
    hide *;
    pos, tokens, done' := start, prior, done;
    if size == 0 {
      pos, tokens := Pass(orig, hash, table, zNext, level, reach, start, stop, prior, next);
      return;
    }
    while true
      invariant done' <= pos && Ready(orig, hash, level, table[..], zNext[..], next, pos)
      invariant Passed(orig, hash, next, level, reach, tokens, pos)
      invariant if pos == start then tokens == prior else Added(prior, tokens, stop)
      invariant pos <= |orig| && start <= pos
      decreases |orig| - pos
    {
      if pos - done' >= size {
        done' := pos;
      }
      if pos >= stop {
        break;
      }
      var part := if stop - done' > size then done' + size else stop;
      ghost var before := tokens;
      pos, tokens := Pass(orig, hash, table, zNext, level, reach, pos, part, tokens, next);
      PassedWithin(orig, hash, next, level, reach, tokens, pos);
      AddedThrough(prior, before, tokens, part, stop);
    }
  }

  lemma AddedThrough(prior: seq<Token>, before: seq<Token>, tokens: seq<Token>, part: nat, stop: nat)
    requires Added(before, tokens, part) && part <= stop && (prior == before || Added(prior, before, stop))
    ensures Added(prior, tokens, stop)
  {
  }

  lemma PassesEnd(orig: seq<Byte>, hash: Hash, next: seq<nat>, level: nat, reach: nat, tokens: seq<Token>, pos: nat)
    requires Passed(orig, hash, next, level, reach, tokens, pos)
    ensures Spells(orig, tokens, pos, reach) && AllChosen(orig, hash, next, level, reach, tokens)
    ensures |Expanded(tokens)| == pos <= |orig|
  {
    hide Valid, Expanded, AllChosen;
  }

  /** What is left at the end goes as it is. */
  method TailLiterals(orig: seq<Byte>, start: nat, prior: seq<Token>, ghost reach: nat) returns (tokens: seq<Token>)
    requires Spells(orig, prior, start, reach)
    ensures Spells(orig, tokens, |orig|, reach) && Expanded(tokens) == orig
    ensures prior <= tokens && |tokens| == |prior| + |orig| - start
    ensures forall i :: |prior| <= i < |tokens| ==> tokens[i] == Literal(orig[start + i - |prior|])
  {
    hide Valid, Expanded;
    tokens := prior;
    var pos := start;
    while pos < |orig|
      invariant pos <= |orig| && Spells(orig, tokens, pos, reach) && prior <= tokens
                && |tokens| == |prior| + pos - start
      invariant forall i :: |prior| <= i < |tokens| ==> tokens[i] == Literal(orig[start + i - |prior|])
    {
      SpellsLiteral(orig, tokens, pos, reach);
      tokens, pos := tokens + [Literal(orig[pos])], pos + 1;
    }
  }
}
