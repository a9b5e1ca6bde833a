/** The search for earlier occurrences of what comes next in a text. */
module MatchFinder {
  import opened BitStreams
  import opened HashChains

  // ----- equal bytes -----

  /** The `l` bytes at `k` and at `n`, further on, are the same. They may overlap. */
  ghost predicate Agrees(orig: seq<Byte>, k: nat, n: nat, l: nat) {
    k < n && n + l <= |orig| && orig[k..k + l] == orig[n..n + l]
  }

  /** Exactly `l` bytes are the same, or all that are left. */
  ghost predicate AgreesExactly(orig: seq<Byte>, k: nat, n: nat, l: nat) {
    Agrees(orig, k, n, l) && (n + l == |orig| || orig[k + l] != orig[n + l])
  }

  lemma AgreesAt(orig: seq<Byte>, k: nat, n: nat, l: nat, i: nat)
    requires Agrees(orig, k, n, l) && i < l
    ensures orig[k + i] == orig[n + i]
  {
    assert orig[k..k + l][i] == orig[n..n + l][i];
  }

  lemma AgreesLess(orig: seq<Byte>, k: nat, n: nat, l: nat, m: nat)
    requires Agrees(orig, k, n, l) && m <= l
    ensures Agrees(orig, k, n, m)
  {
    assert orig[k..k + l][..m] == orig[k..k + m] && orig[n..n + l][..m] == orig[n..n + m];
  }

  lemma AgreesMore(orig: seq<Byte>, k: nat, n: nat, l: nat)
    requires k < n && n + l < |orig|
    ensures Agrees(orig, k, n, l + 1) <==> Agrees(orig, k, n, l) && orig[k + l] == orig[n + l]
  {
    if Agrees(orig, k, n, l + 1) {
      AgreesLess(orig, k, n, l + 1, l);
      AgreesAt(orig, k, n, l + 1, l);
    }
    assert orig[k..k + l + 1] == orig[k..k + l] + [orig[k + l]] && orig[n..n + l + 1] == orig[n..n + l] + [orig[n + l]];
  }

  lemma AgreesNothing(orig: seq<Byte>, k: nat, n: nat)
    requires k < n <= |orig|
    ensures Agrees(orig, k, n, 0)
  {
  }

  lemma ExactlyMeans(orig: seq<Byte>, k: nat, n: nat, l: nat)
    requires AgreesExactly(orig, k, n, l)
    ensures Agrees(orig, k, n, l) && !Agrees(orig, k, n, l + 1)
  {
    hide Agrees;
    AgreesMeans(orig, k, n, l);
    if n + l < |orig| {
      AgreesMore(orig, k, n, l);
    } else {
      assert !Agrees(orig, k, n, l + 1) by { TooLong(orig, k, n, l + 1); }
    }
  }

  lemma TooLong(orig: seq<Byte>, k: nat, n: nat, l: nat)
    requires |orig| < n + l
    ensures !Agrees(orig, k, n, l)
  {
  }

  /** Compares in blocks of 16 bytes as long as there are that many, of which the first `known` are known to be the
      same; then byte by byte. */
  method MatchLength(orig: seq<Byte>, k: nat, n: nat, known: nat) returns (l: nat)
    requires Agrees(orig, k, n, known) && known < 16
    ensures AgreesExactly(orig, k, n, l) && known <= l
  {
    hide Agrees;
    assert k < n && n + known <= |orig| by { AgreesMeans(orig, k, n, known); }
    var d, i := 0, known;
    while n + d + 16 <= |orig|
      invariant n + d <= |orig| && i < 16 && (d == 0 ==> i == known) && (0 < d ==> i == 0 && 16 <= d)
      invariant Agrees(orig, k, n, d + i)
      decreases |orig| - d
    {
      while i < 16
        invariant i <= 16 && known <= d + i && Agrees(orig, k, n, d + i)
      {
        if orig[k + d + i] != orig[n + d + i] {
          return d + i;
        }
        AgreesMore(orig, k, n, d + i);
        i := i + 1;
      }
      d, i := d + 16, 0;
    }
    if d == 0 {
      AgreesNothing(orig, k, n);
    }
    while n + d < |orig|
      invariant n + d <= |orig| && Agrees(orig, k, n, d)
    {
      if orig[k + d] != orig[n + d] {
        break;
      }
      AgreesMore(orig, k, n, d);
      d := d + 1;
    }
    if d < known {
      AgreesAt(orig, k, n, known, d);
    }
    l := d;
  }

  lemma AgreesMeans(orig: seq<Byte>, k: nat, n: nat, l: nat)
    requires Agrees(orig, k, n, l)
    ensures k < n && n + l <= |orig|
  {
  }

  // ----- candidates -----

  /** Where the search looks, in this order: along the chain, and then at the beginning of the text. */
  ghost function Candidates(orig: seq<Byte>, hash: Hash, next: seq<nat>, n: nat): seq<nat>
    requires Linked(orig, hash, next, |orig|) && n < |orig|
  {
    Chain(orig, hash, next, n) + [0]
  }

  lemma {:induction false} CandidateNext(orig: seq<Byte>, hash: Hash, next: seq<nat>, n: nat, i: nat)
    requires Linked(orig, hash, next, |orig|) && n < |orig| && i < |Candidates(orig, hash, next, n)|
    ensures var c := Candidates(orig, hash, next, n);
      && c[i] < |orig| <= |next| && (i < |c| - 1 ==> 0 < c[i])
      && if i == 0 then c[0] == next[n] else c[i - 1] < |next| && c[i] == next[c[i - 1]]
    decreases n
  {
    var c := Candidates(orig, hash, next, n);
    if next[n] != 0 {
      assert c[1..] == Candidates(orig, hash, next, next[n]);
      if i > 0 {
        CandidateNext(orig, hash, next, next[n], i - 1);
      }
    }
  }

  lemma {:induction false} CandidatesDescend(orig: seq<Byte>, hash: Hash, next: seq<nat>, n: nat, i: nat)
    requires Linked(orig, hash, next, |orig|) && 0 < n < |orig| && i < |Candidates(orig, hash, next, n)|
    ensures Candidates(orig, hash, next, n)[i] + i < n
    ensures forall j :: 0 <= j < i ==> Candidates(orig, hash, next, n)[i] < Candidates(orig, hash, next, n)[j]
  {
    hide Linked;
    var c := Candidates(orig, hash, next, n);
    if i > 0 {
      CandidatesDescend(orig, hash, next, n, i - 1);
      if i < |c| - 1 {
        ChainDescends(orig, hash, next, n, i);
      } else {
        CandidateNext(orig, hash, next, n, i - 1);
      }
    } else if i < |c| - 1 {
      ChainDescends(orig, hash, next, n, i);
    }
  }

  // ----- what the search has found -----

  /** Of the first `seen` candidates none agrees with the bytes at `n` for more than `len` bytes, and if `len` is more
      than 2 then `pos` is the first of them that agrees that far, and near enough. */
  ghost predicate Best(orig: seq<Byte>, c: seq<nat>, seen: nat, n: nat, reach: nat, len: nat, pos: nat) {
    && seen <= |c| && 2 <= len
    && (forall i :: 0 <= i < seen ==> !Agrees(orig, c[i], n, len + 1))
    && (3 <= len ==>
          && (exists i :: 0 <= i < seen && c[i] == pos)
          && n <= pos + reach && Agrees(orig, pos, n, len)
          && forall i :: 0 <= i < seen && pos < c[i] ==> !Agrees(orig, c[i], n, len))
  }

  lemma BestStarts(orig: seq<Byte>, c: seq<nat>, n: nat, reach: nat)
    ensures Best(orig, c, 0, n, reach, 2, 0)
  {
  }

  ghost predicate Descending(c: seq<nat>) {
    forall i, j :: 0 <= i < j < |c| ==> c[i] > c[j]
  }

  /** A candidate that does not agree further is passed over. */
  lemma BestStays(orig: seq<Byte>, c: seq<nat>, seen: nat, n: nat, reach: nat, len: nat, pos: nat)
    requires Best(orig, c, seen, n, reach, len, pos) && seen < |c| && Descending(c)
    requires !Agrees(orig, c[seen], n, len + 1)
    ensures Best(orig, c, seen + 1, n, reach, len, pos)
  {
    hide Agrees;
  }

  /** One that agrees further takes over. */
  lemma BestImproves(orig: seq<Byte>, c: seq<nat>, seen: nat, n: nat, reach: nat, len: nat, pos: nat, l: nat)
    requires Best(orig, c, seen, n, reach, len, pos) && seen < |c| && Descending(c)
    requires len < l && 3 <= l && n <= c[seen] + reach && Agrees(orig, c[seen], n, l)
             && !Agrees(orig, c[seen], n, l + 1)
    ensures Best(orig, c, seen + 1, n, reach, l, c[seen])
  {
    hide Agrees;
    forall i | 0 <= i < seen ensures !Agrees(orig, c[i], n, l) && !Agrees(orig, c[i], n, l + 1) {
      NotLonger(orig, c[i], n, len + 1, l);
      NotLonger(orig, c[i], n, len + 1, l + 1);
    }
  }

  lemma NotLonger(orig: seq<Byte>, k: nat, n: nat, l: nat, m: nat)
    requires !Agrees(orig, k, n, l) && l <= m
    ensures !Agrees(orig, k, n, m)
  {
    if Agrees(orig, k, n, m) {
      AgreesLess(orig, k, n, m, l);
    }
  }

  /** A candidate has been compared in full: it agrees for exactly `l` bytes. */
  lemma BestCompared(orig: seq<Byte>, c: seq<nat>, seen: nat, n: nat, reach: nat, len: nat, pos: nat, l: nat)
    requires Best(orig, c, seen, n, reach, len, pos) && seen < |c| && Descending(c)
    requires 3 <= l && n <= c[seen] + reach && Agrees(orig, c[seen], n, l) && !Agrees(orig, c[seen], n, l + 1)
    ensures if len < l then Best(orig, c, seen + 1, n, reach, l, c[seen])
            else Best(orig, c, seen + 1, n, reach, len, pos)
  {
    hide Agrees, Best;
    if len < l {
      BestImproves(orig, c, seen, n, reach, len, pos, l);
    } else {
      NotLonger(orig, c[seen], n, l + 1, len + 1);
      BestStays(orig, c, seen, n, reach, len, pos);
    }
  }

  // ----- how far the tries go -----

  /** How many bytes at `k` are those at `n`. */
  ghost function Agreement(orig: seq<Byte>, k: nat, n: nat): nat
    requires k < n
    decreases |orig| - n
  {
    if n < |orig| && orig[k] == orig[n] then 1 + Agreement(orig, k + 1, n + 1) else 0
  }

  lemma {:induction false} AgreementIs(orig: seq<Byte>, k: nat, n: nat, l: nat)
    requires k < n <= |orig|
    ensures Agrees(orig, k, n, l) <==> l <= Agreement(orig, k, n)
    decreases |orig| - n
  {
    hide Agrees;
    if l == 0 {
      AgreesNothing(orig, k, n);
    } else if n == |orig| {
      TooLong(orig, k, n, l);
    } else {
      AgreesTail(orig, k, n, l);
      if orig[k] == orig[n] {
        AgreementIs(orig, k + 1, n + 1, l - 1);
      }
    }
  }

  lemma AgreesTail(orig: seq<Byte>, k: nat, n: nat, l: nat)
    requires k < n < |orig| && 0 < l
    ensures Agrees(orig, k, n, l) <==> orig[k] == orig[n] && Agrees(orig, k + 1, n + 1, l - 1)
  {
    if n + l <= |orig| {
      assert orig[k..k + l] == [orig[k]] + orig[k + 1..k + l] && orig[n..n + l] == [orig[n]] + orig[n + 1..n + l];
    }
  }

  /** The greatest length among the first `i` candidates, or 2. */
  ghost function Greatest(orig: seq<Byte>, c: seq<nat>, i: nat, n: nat): (l: nat)
    requires i <= |c|
    ensures 2 <= l
  {
    if i == 0 then 2
    else
      var l := Greatest(orig, c, i - 1, n);
      if c[i - 1] < n && l < Agreement(orig, c[i - 1], n) then Agreement(orig, c[i - 1], n) else l
  }

  /** Candidate `i` agrees in the two bytes that end a match one byte longer than all before. */
  ghost predicate Hits(orig: seq<Byte>, c: seq<nat>, i: nat, n: nat) {
    && i < |c|
    && var l := Greatest(orig, c, i, n);
    && n + l < |orig| && c[i] + l < |orig| && orig[c[i] + l] == orig[n + l] && orig[c[i] + l - 1] == orig[n + l - 1]
  }

  ghost function HitCount(orig: seq<Byte>, c: seq<nat>, i: nat, n: nat): (h: nat)
    ensures h <= i
  {
    if i == 0 then 0 else HitCount(orig, c, i - 1, n) + if Hits(orig, c, i - 1, n) then 1 else 0
  }

  lemma GreatestNext(orig: seq<Byte>, c: seq<nat>, i: nat, n: nat, l: nat)
    requires i < |c| && c[i] < n <= |orig|
    requires Agrees(orig, c[i], n, l) && !Agrees(orig, c[i], n, l + 1)
    ensures Greatest(orig, c, i + 1, n) == if l <= Greatest(orig, c, i, n) then Greatest(orig, c, i, n) else l
  {
    hide Agrees;
    AgreementIs(orig, c[i], n, l);
    AgreementIs(orig, c[i], n, l + 1);
  }

  lemma GreatestStays(orig: seq<Byte>, c: seq<nat>, i: nat, n: nat)
    requires i < |c| && c[i] < n <= |orig| && !Agrees(orig, c[i], n, Greatest(orig, c, i, n) + 1)
    ensures Greatest(orig, c, i + 1, n) == Greatest(orig, c, i, n)
  {
    hide Agrees;
    AgreementIs(orig, c[i], n, Greatest(orig, c, i, n) + 1);
  }

  /** With `tries` left and `probes` left of the current one: every try but the current one has been used up by eight
      candidates or by a hit. */
  ghost predicate Budget(orig: seq<Byte>, c: seq<nat>, seen: nat, n: nat, chain: nat, tries: nat, probes: nat) {
    && tries <= chain && probes <= 8
    && seen + probes <= 8 * (chain - tries) <= seen + 7 * HitCount(orig, c, seen, n) + probes
  }

  lemma BudgetMiss(orig: seq<Byte>, c: seq<nat>, seen: nat, n: nat, chain: nat, tries: nat, probes: nat)
    requires Budget(orig, c, seen, n, chain, tries, probes) && 0 < probes && seen < |c|
    ensures Budget(orig, c, seen + 1, n, chain, tries, probes - 1)
  {
  }

  lemma BudgetHit(orig: seq<Byte>, c: seq<nat>, seen: nat, n: nat, chain: nat, tries: nat, probes: nat)
    requires Budget(orig, c, seen, n, chain, tries, probes) && 0 < probes && Hits(orig, c, seen, n)
    ensures Budget(orig, c, seen + 1, n, chain, tries, 0)
  {
  }

  lemma BudgetStarts(orig: seq<Byte>, c: seq<nat>, n: nat, chain: nat)
    ensures Budget(orig, c, 0, n, chain, chain, 0) && Greatest(orig, c, 0, n) == 2
  {
  }

  lemma BudgetTry(orig: seq<Byte>, c: seq<nat>, seen: nat, n: nat, chain: nat, tries: nat)
    requires Budget(orig, c, seen, n, chain, tries, 0) && 0 < tries
    ensures Budget(orig, c, seen, n, chain, tries - 1, 8)
  {
  }

  /** Why the search is over: no candidates, no more tries, too far back, or a match up to the end of the text. A try
      goes as far as eight candidates or the first hit among them. */
  ghost predicate Over(orig: seq<Byte>, c: seq<nat>, seen: nat, n: nat, reach: nat, chain: nat, len: nat) {
    && seen <= 8 * chain
    && (seen == |c| || 8 * chain <= seen + 7 * HitCount(orig, c, seen, n) || (seen < |c| && c[seen] + reach < n)
        || n + len == |orig|)
  }

  /** A candidate that differs in one of the two bytes at the end of a match one byte longer cannot give one. */
  lemma ProbeFails(orig: seq<Byte>, k: nat, n: nat, len: nat)
    requires k < n && n + len < |orig| && 2 <= len
    requires orig[k + len] != orig[n + len] || orig[k + len - 1] != orig[n + len - 1]
    ensures !Agrees(orig, k, n, len + 1)
  {
    if Agrees(orig, k, n, len + 1) {
      AgreesAt(orig, k, n, len + 1, len);
      AgreesAt(orig, k, n, len + 1, len - 1);
    }
  }

  lemma FirstThree(orig: seq<Byte>, k: nat, n: nat)
    requires k < n && n + 3 < |orig|
    ensures Agrees(orig, k, n, 3) <==> orig[k] == orig[n] && orig[k + 1] == orig[n + 1] && orig[k + 2] == orig[n + 2]
    ensures Agrees(orig, k, n, 4) <==> Agrees(orig, k, n, 3) && orig[k + 3] == orig[n + 3]
  {
    hide Agrees;
    AgreesNothing(orig, k, n);
    AgreesMore(orig, k, n, 0);
    AgreesMore(orig, k, n, 1);
    AgreesMore(orig, k, n, 2);
    AgreesMore(orig, k, n, 3);
  }

  /** Where the search goes after candidate `i`: to the next one, and from the beginning of the text back to `n`. */
  ghost function Walk(c: seq<nat>, n: nat, i: nat): nat {
    if i < |c| then c[i] else n
  }

  /** The links lead from `n` through all candidates back to `n`. */
  ghost predicate Walks(links: seq<nat>, c: seq<nat>, n: nat) {
    && n < |links| && Descending(c) && links[n] == Walk(c, n, 0)
    && forall i :: 0 <= i < |c| ==> c[i] < n && links[c[i]] == Walk(c, n, i + 1)
  }

  /** The first link is put to use: it leads from the beginning of the text back to `n`. */
  lemma WalksBack(orig: seq<Byte>, hash: Hash, next: seq<nat>, n: nat)
    requires Linked(orig, hash, next, |orig|) && 0 < n < |orig| <= |next|
    ensures Walks(next[0 := n], Candidates(orig, hash, next, n), n)
  {
    hide Linked, Candidates;
    var c, links := Candidates(orig, hash, next, n), next[0 := n];
    SomeCandidate(orig, hash, next, n);
    CandidateNext(orig, hash, next, n, 0);
    forall i, j | 0 <= i < j < |c| ensures c[i] > c[j] {
      CandidatesDescend(orig, hash, next, n, j);
    }
    forall i | 0 <= i < |c| ensures c[i] < n && links[c[i]] == Walk(c, n, i + 1) {
      CandidatesDescend(orig, hash, next, n, i);
      CandidateNext(orig, hash, next, n, i);
      if i + 1 < |c| {
        CandidateNext(orig, hash, next, n, i + 1);
      }
    }
  }

  lemma SomeCandidate(orig: seq<Byte>, hash: Hash, next: seq<nat>, n: nat)
    requires Linked(orig, hash, next, |orig|) && n < |orig|
    ensures var c := Candidates(orig, hash, next, n); |c| > 0 && c[|c| - 1] == 0
  {
  }

  /** The longest match among the candidates. The chain is walked in groups of eight, each of which costs one of `chain`
      tries; candidates are first probed at the two bytes that would make the match longer. The walk needs no test for
      the end: `n` itself always passes the probe. */
  method FindMatch(orig: seq<Byte>, zNext: array<nat>, n: nat, reach: nat, chain: nat, ghost hash: Hash,
                   ghost next: seq<nat>)
    returns (found: bool, len: nat, pos: nat, ghost seen: nat)
    requires Linked(orig, hash, next, |orig|) && 0 < n && n + 7 < |orig| <= |next|
    requires zNext.Length == |next| && zNext[..] == next[0 := zNext[0]]
    modifies zNext
    ensures zNext[..] == next[0 := n]
    ensures Best(orig, Candidates(orig, hash, next, n), seen, n, reach, len, pos) && (found <==> 3 <= len)
    ensures Over(orig, Candidates(orig, hash, next, n), seen, n, reach, chain, len)
  {
    hide *;
    ghost var c := Candidates(orig, hash, next, n);
    WalksBack(orig, hash, next, n);
    ghost var links := next[0 := n];
    zNext[0] := n;
    assert zNext[..] == links;
    var k, tries: nat := n, chain;
    found, len, pos, seen := false, 2, 0, 0;
    BestStarts(orig, c, n, reach);
    BudgetStarts(orig, c, n, chain);
    WalkStarts(links, c, n);
    while true
      invariant zNext[..] == links && Best(orig, c, seen, n, reach, len, pos) && seen <= |c|
      invariant k < zNext.Length && zNext[k] == Walk(c, n, seen) && n + len < |orig| && 2 <= len
      invariant Greatest(orig, c, seen, n) == len && Budget(orig, c, seen, n, chain, tries, 0)
      decreases |c| - seen
    {
      var m, probes: nat, hit := zNext[k], 0, false;
      ghost var start := seen;
      while !hit
        invariant zNext[..] == links && start <= seen <= |c| && m == Walk(c, n, seen)
                  && Best(orig, c, seen, n, reach, len, pos)
        invariant Greatest(orig, c, seen, n) == len && Budget(orig, c, seen, n, chain, tries, probes)
        invariant hit ==> 0 < probes && m + len < |orig| && orig[m + len] == orig[n + len]
                          && orig[m + len - 1] == orig[n + len - 1]
        decreases |c| - seen, if hit then 0 else 1
      {
        if probes == 0 {
          if tries == 0 {
            BudgetSpent(orig, c, seen, n, reach, chain, len);
            return 3 <= len, len, pos, seen;
          }
          BudgetTry(orig, c, seen, n, chain, tries);
          tries, probes := tries - 1, 8;
        }
        WalkWithin(links, c, n, seen);
        if orig[m + len] == orig[n + len] && orig[m + len - 1] == orig[n + len - 1] {
          hit := true;
        } else {
          ProbeFails(orig, m, n, len);
          BestStays(orig, c, seen, n, reach, len, pos);
          GreatestStays(orig, c, seen, n);
          BudgetMiss(orig, c, seen, n, chain, tries, probes);
          m, probes, seen := zNext[m], probes - 1, seen + 1;
        }
      }
      k := m;
      WalkWithin(links, c, n, seen);
      if k == n || n - k > reach {
        TooFar(orig, c, seen, n, reach, chain, len, tries, probes);
        return 3 <= len, len, pos, seen;
      }
      HitsIs(orig, c, seen, n, len);
      BudgetHit(orig, c, seen, n, chain, tries, probes);
      FirstThree(orig, k, n);
      if orig[n] != orig[k] || orig[n + 1] != orig[k + 1] || orig[n + 2] != orig[k + 2] {
        NotLonger(orig, k, n, 3, len + 1);
        BestStays(orig, c, seen, n, reach, len, pos);
        GreatestStays(orig, c, seen, n);
      } else if orig[n + 3] != orig[k + 3] {
        BestCompared(orig, c, seen, n, reach, len, pos, 3);
        GreatestNext(orig, c, seen, n, 3);
        if len <= 2 {
          len, pos := 3, k;
        }
      } else {
        var l := MatchLength(orig, k, n, 4);
        ExactlyMeans(orig, k, n, l);
        AgreesMeans(orig, k, n, l);
        BestCompared(orig, c, seen, n, reach, len, pos, l);
        GreatestNext(orig, c, seen, n, l);
        if l > len {
          len, pos := l, k;
        }
        if n + l == |orig| {
          NothingLeft(orig, c, seen + 1, n, reach, chain, len, tries);
          return 3 <= len, len, pos, seen + 1;
        }
      }
      seen := seen + 1;
    }
  }

  lemma WalkStarts(links: seq<nat>, c: seq<nat>, n: nat)
    requires Walks(links, c, n)
    ensures n < |links| && links[n] == Walk(c, n, 0) && Descending(c)
  {
  }

  lemma WalkWithin(links: seq<nat>, c: seq<nat>, n: nat, i: nat)
    requires Walks(links, c, n) && i <= |c|
    ensures n < |links| && Walk(c, n, i) <= n && (Walk(c, n, i) == n <==> i == |c|)
    ensures i < |c| ==> Walk(c, n, i) == c[i] && links[c[i]] == Walk(c, n, i + 1)
  {
  }

  lemma BudgetSpent(orig: seq<Byte>, c: seq<nat>, seen: nat, n: nat, reach: nat, chain: nat, len: nat)
    requires Budget(orig, c, seen, n, chain, 0, 0)
    ensures Over(orig, c, seen, n, reach, chain, len)
  {
  }

  lemma HitsIs(orig: seq<Byte>, c: seq<nat>, seen: nat, n: nat, len: nat)
    requires seen < |c| && Greatest(orig, c, seen, n) == len && n + len < |orig| && c[seen] + len < |orig|
    requires orig[c[seen] + len] == orig[n + len] && orig[c[seen] + len - 1] == orig[n + len - 1]
    ensures Hits(orig, c, seen, n)
  {
  }

  lemma TooFar(orig: seq<Byte>, c: seq<nat>, seen: nat, n: nat, reach: nat, chain: nat, len: nat, tries: nat,
               probes: nat)
    requires Budget(orig, c, seen, n, chain, tries, probes)
    requires seen == |c| || (seen < |c| && c[seen] + reach < n)
    ensures Over(orig, c, seen, n, reach, chain, len)
  {
  }

  lemma NothingLeft(orig: seq<Byte>, c: seq<nat>, seen: nat, n: nat, reach: nat, chain: nat, len: nat, tries: nat)
    requires Budget(orig, c, seen, n, chain, tries, 0)
    requires n + len == |orig|
    ensures Over(orig, c, seen, n, reach, chain, len)
  {
  }

  // ----- what that means -----

  /** Every position before `n` that agrees in three bytes is a candidate, unless it is the first and the only one. */
  lemma AgreeingIsCandidate(orig: seq<Byte>, hash: Hash, next: seq<nat>, n: nat, j: nat)
    requires Linked(orig, hash, next, |orig|) && n + 2 < |orig| && Agrees(orig, j, n, 3)
    ensures j in Candidates(orig, hash, next, n) && (0 < j ==> next[n] != 0)
  {
    hide Linked, Agrees, Chain;
    AgreesMeans(orig, j, n, 3);
    AgreesAt(orig, j, n, 3, 0);
    AgreesAt(orig, j, n, 3, 1);
    AgreesAt(orig, j, n, 3, 2);
    if 0 < j {
      ChainVisits(orig, hash, next, n, j);
      ChainBegins(orig, hash, next, n);
    }
  }

  lemma ChainBegins(orig: seq<Byte>, hash: Hash, next: seq<nat>, n: nat)
    requires Linked(orig, hash, next, |orig|) && n < |orig| && Chain(orig, hash, next, n) != []
    ensures next[n] != 0
  {
  }

  /** The match has the greatest length of all that the text has to offer at `n`, and of these it is the nearest; a
      length below 3 says that there is none. */
  ghost predicate IsLongest(orig: seq<Byte>, n: nat, reach: nat, len: nat, pos: nat) {
    && (3 <= len ==> n <= pos + reach && Agrees(orig, pos, n, len))
    && forall j: nat, l: nat :: Agrees(orig, j, n, l) && 3 <= l && n <= j + reach ==>
      l <= len && (l == len ==> j <= pos)
  }

  /** With as many tries as there are candidates, probing and stopping early lose nothing. */
  lemma SearchIsComplete(orig: seq<Byte>, hash: Hash, next: seq<nat>, n: nat, reach: nat, chain: nat, seen: nat,
                         len: nat, pos: nat)
    requires Linked(orig, hash, next, |orig|) && 0 < n && n + 2 < |orig| && |Candidates(orig, hash, next, n)| <= chain
    requires Best(orig, Candidates(orig, hash, next, n), seen, n, reach, len, pos)
    requires Over(orig, Candidates(orig, hash, next, n), seen, n, reach, chain, len)
    ensures IsLongest(orig, n, reach, len, pos)
  {
    hide Linked, Agrees, Candidates, Over;
    forall j: nat, l: nat | Agrees(orig, j, n, l) && 3 <= l && n <= j + reach
      ensures l <= len && (l == len ==> j <= pos) {
      NoneLonger(orig, hash, next, n, reach, chain, seen, len, pos, j, l);
    }
  }

  lemma NoneLonger(orig: seq<Byte>, hash: Hash, next: seq<nat>, n: nat, reach: nat, chain: nat, seen: nat, len: nat,
                   pos: nat, j: nat, l: nat)
    requires Linked(orig, hash, next, |orig|) && 0 < n && n + 2 < |orig| && |Candidates(orig, hash, next, n)| <= chain
    requires Best(orig, Candidates(orig, hash, next, n), seen, n, reach, len, pos)
    requires Over(orig, Candidates(orig, hash, next, n), seen, n, reach, chain, len)
    requires 3 <= l && n <= j + reach && Agrees(orig, j, n, l)
    ensures l <= len && (l == len ==> j <= pos)
  {
    hide Linked, Agrees, Candidates;
    var c := Candidates(orig, hash, next, n);
    AgreesMeans(orig, j, n, l);
    AgreesLess(orig, j, n, l, 3);
    AgreeingIsCandidate(orig, hash, next, n, j);
    var i :| 0 <= i < |c| && c[i] == j;
    CandidatesDescend(orig, hash, next, n, i);
    if seen <= i {
      if seen < |c| && c[seen] + reach < n {
        assert false;
      }
      assert n + len == |orig|;
      if l == len {
        var b :| 0 <= b < seen && c[b] == pos;
        assert c[i] < c[b];
      }
    } else if len < l {
      AgreesLess(orig, j, n, l, len + 1);
    }
  }

  // ----- the search that takes the first candidate -----

  /** What the two probed bytes must be for a match of three. */
  ghost predicate Passes(orig: seq<Byte>, k: nat, n: nat) {
    k + 2 < |orig| && n + 2 < |orig| && orig[k + 1] == orig[n + 1] && orig[k + 2] == orig[n + 2]
  }

  /** The first candidate that passes the probe, if it is one of nine. */
  ghost predicate First(orig: seq<Byte>, c: seq<nat>, seen: nat, n: nat) {
    seen <= |c| && seen <= 9 && forall i :: 0 <= i < seen ==> !Passes(orig, c[i], n)
  }

  /** Where that search ends: at a candidate that passes, after nine, or with none left. */
  ghost predicate FirstEnds(orig: seq<Byte>, c: seq<nat>, seen: nat, n: nat) {
    First(orig, c, seen, n) && (seen == |c| || seen == 9 || Passes(orig, c[seen], n))
  }

  /** One group of eight probes and one more; the first candidate that passes is the only one to be compared. */
  method FindFirst(orig: seq<Byte>, zNext: array<nat>, n: nat, reach: nat, ghost hash: Hash, ghost next: seq<nat>)
    returns (found: bool, len: nat, pos: nat, ghost seen: nat)
    requires Linked(orig, hash, next, |orig|) && 0 < n && n + 7 < |orig| <= |next|
    requires zNext.Length == |next| && zNext[..] == next[0 := zNext[0]]
    modifies zNext
    ensures zNext[..] == next[0 := n]
    ensures FirstEnds(orig, Candidates(orig, hash, next, n), seen, n)
    ensures var c := Candidates(orig, hash, next, n);
      && (found <==> seen < |c| && seen < 9 && n <= c[seen] + reach && Agrees(orig, c[seen], n, 3))
      && (found ==> 3 <= len && pos == c[seen] && AgreesExactly(orig, pos, n, len))
  {
    hide *;
    ghost var c := Candidates(orig, hash, next, n);
    WalksBack(orig, hash, next, n);
    ghost var links := next[0 := n];
    zNext[0] := n;
    assert zNext[..] == links;
    WalkStarts(links, c, n);
    var m, probes := zNext[n], 0;
    found, len, pos, seen := false, 2, 0, 0;
    FirstStarts(orig, c, n);
    WalkWithin(links, c, n, 0);
    while probes < 9 && (orig[m + 2] != orig[n + 2] || orig[m + 1] != orig[n + 1])
      invariant zNext[..] == links && seen == probes <= |c| && m == Walk(c, n, seen) && m <= n
                && First(orig, c, seen, n)
    {
      WalkWithin(links, c, n, seen);
      FirstNext(orig, c, seen, n);
      m, probes, seen := zNext[m], probes + 1, seen + 1;
      WalkWithin(links, c, n, seen);
    }
    WalkWithin(links, c, n, seen);
    FirstIs(orig, c, seen, n, m);
    if probes == 9 || m == n || n - m > reach {
      return;
    }
    FirstThree(orig, m, n);
    if orig[n] != orig[m] || orig[n + 1] != orig[m + 1] {
      return;
    }
    found, len, pos := true, 3, m;
    if orig[n + 3] == orig[m + 3] {
      len := MatchLength(orig, m, n, 4);
    } else {
      ThreeExactly(orig, m, n);
    }
  }

  lemma FirstStarts(orig: seq<Byte>, c: seq<nat>, n: nat)
    ensures First(orig, c, 0, n)
  {
  }

  lemma FirstIs(orig: seq<Byte>, c: seq<nat>, seen: nat, n: nat, m: nat)
    requires First(orig, c, seen, n) && m == Walk(c, n, seen) && m <= n && n + 2 < |orig|
    requires seen == 9 || (orig[m + 2] == orig[n + 2] && orig[m + 1] == orig[n + 1])
    ensures FirstEnds(orig, c, seen, n)
  {
  }

  lemma FirstNext(orig: seq<Byte>, c: seq<nat>, seen: nat, n: nat)
    requires First(orig, c, seen, n) && seen < |c| && seen < 9 && c[seen] + 2 < |orig| && n + 2 < |orig|
    requires orig[c[seen] + 2] != orig[n + 2] || orig[c[seen] + 1] != orig[n + 1]
    ensures First(orig, c, seen + 1, n)
  {
  }

  lemma ThreeExactly(orig: seq<Byte>, k: nat, n: nat)
    requires Agrees(orig, k, n, 3) && n + 3 < |orig| && orig[k + 3] != orig[n + 3]
    ensures AgreesExactly(orig, k, n, 3)
  {
  }
}
