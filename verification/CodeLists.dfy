/** The used symbols in code order, level by level, and how many nodes of the code tree each level has. */
module CodeLists {
  import opened Totals
  import opened PrefixCodes
  import opened HuffmanTrees
  import opened CanonicalCodes

  /** The symbols below `n` with codewords of `l` bits, in increasing order. */
  ghost function OfLength(length: seq<nat>, l: nat, n: nat): seq<int>
    requires n <= |length|
  {
    if n == 0 then [] else OfLength(length, l, n - 1) + if length[n - 1] == l then [n - 1] else []
  }

  ghost function Count(length: seq<nat>, l: nat): nat {
    |OfLength(length, l, |length|)|
  }

  /** The symbols with codewords of at most `l` bits, in code order. */
  ghost function CodeList(length: seq<nat>, l: nat): seq<int> {
    if l == 0 then [] else CodeList(length, l - 1) + OfLength(length, l, |length|)
  }

  /** The first codeword of `n` bits: twice what follows the last one of n-1 bits. */
  ghost function FirstCode(length: seq<nat>, n: nat): nat {
    if n <= 1 then 0 else 2 * (FirstCode(length, n - 1) + Count(length, n - 1))
  }

  /** The nodes at depth `n` of the code tree. */
  ghost function Nodes(length: seq<nat>, n: nat): int {
    Pow2(n) - FirstCode(length, n)
  }

  lemma {:induction false} OfLengthFacts(length: seq<nat>, l: nat, n: nat)
    requires n <= |length|
    ensures forall i :: 0 <= i < |OfLength(length, l, n)| ==>
              0 <= OfLength(length, l, n)[i] < n && length[OfLength(length, l, n)[i]] == l
    ensures forall i, j :: 0 <= i < j < |OfLength(length, l, n)| ==>
              OfLength(length, l, n)[i] < OfLength(length, l, n)[j]
  {
    if n != 0 {
      OfLengthFacts(length, l, n - 1);
    }
  }

  ghost function Times(a: seq<int>, x: int): nat { multiset(a)[x] }

  lemma TimesAppended(a: seq<int>, b: seq<int>, x: int)
    ensures Times(a + b, x) == Times(a, x) + Times(b, x)
  {
  }

  lemma TimesFew(y: int, x: int)
    ensures Times([], x) == 0 && Times([y], x) == if x == y then 1 else 0
  {
  }

  lemma {:induction false} OfLengthCounts(length: seq<nat>, l: nat, n: nat, x: int)
    requires n <= |length|
    ensures Times(OfLength(length, l, n), x) == if 0 <= x < n && length[x] == l then 1 else 0
  {
    hide OfLength, Times;
    TimesFew(n - 1, x);
    if n == 0 {
      OfLengthNone(length, l);
    } else {
      OfLengthCounts(length, l, n - 1, x);
      OfLengthStep(length, l, n - 1);
      TimesAppended(OfLength(length, l, n - 1), if length[n - 1] == l then [n - 1] else [], x);
    }
  }

  lemma OfLengthNone(length: seq<nat>, l: nat)
    ensures OfLength(length, l, 0) == [] && CodeList(length, 0) == []
  {
  }

  lemma {:induction false} CodeListCounts(length: seq<nat>, l: nat, x: int)
    ensures Times(CodeList(length, l), x) == if 0 <= x < |length| && 1 <= length[x] <= l then 1 else 0
  {
    hide CodeList, OfLength, Times;
    TimesFew(0, x);
    if l == 0 {
      OfLengthNone(length, l);
    } else {
      CodeListCounts(length, l - 1, x);
      OfLengthCounts(length, l, |length|, x);
      CodeListStep(length, l);
      TimesAppended(CodeList(length, l - 1), OfLength(length, l, |length|), x);
    }
  }

  lemma {:induction false} UsedCounts(length: seq<nat>, n: nat, x: int)
    requires n <= |length|
    ensures Times(Used(length[..n]), x) == if 0 <= x < n && length[x] != 0 then 1 else 0
  {
    hide Used, Times;
    TimesFew(n - 1, x);
    if n == 0 {
      assert length[..0] == [];
      UsedNone();
    } else {
      UsedCounts(length, n - 1, x);
      UsedStep(length, n - 1);
      TimesAppended(Used(length[..n - 1]), if length[n - 1] == 0 then [] else [n - 1], x);
    }
  }

  lemma SameTimes(a: seq<int>, b: seq<int>)
    requires forall x :: Times(a, x) == Times(b, x)
    ensures multiset(a) == multiset(b)
  {
    forall x ensures multiset(a)[x] == multiset(b)[x] {
      assert Times(a, x) == Times(b, x);
    }
  }

  /** Every used symbol is listed, once. */
  lemma CodeListAll(length: seq<nat>, top: nat)
    requires forall s :: 0 <= s < |length| ==> length[s] <= top
    ensures multiset(CodeList(length, top)) == multiset(Used(length))
  {
    hide CodeList, Used;
    assert length[..|length|] == length;
    forall x ensures Times(CodeList(length, top), x) == Times(Used(length), x) {
      CodeListCounts(length, top, x);
      UsedCounts(length, |length|, x);
    }
    SameTimes(CodeList(length, top), Used(length));
  }

  lemma {:induction false} CodeListOrder(length: seq<nat>, l: nat)
    ensures InCodeOrder(CodeList(length, l), length)
    ensures forall i :: 0 <= i < |CodeList(length, l)| ==> At(length, CodeList(length, l)[i]) <= l
  {
    hide OfLength;
    if l != 0 {
      CodeListOrder(length, l - 1);
      OfLengthFacts(length, l, |length|);
      OrderAppends(CodeList(length, l - 1), OfLength(length, l, |length|), length, l);
    }
  }

  lemma OrderAppends(a: seq<int>, b: seq<int>, length: seq<nat>, l: nat)
    requires 0 < l && InCodeOrder(a, length) && forall i :: 0 <= i < |a| ==> At(length, a[i]) < l
    requires forall i :: 0 <= i < |b| ==> 0 <= b[i] < |length| && length[b[i]] == l
    requires forall i, j :: 0 <= i < j < |b| ==> b[i] < b[j]
    ensures InCodeOrder(a + b, length) && forall i :: 0 <= i < |a + b| ==> At(length, (a + b)[i]) <= l
  {
  }

  lemma {:induction false} CodeListPrefix(length: seq<nat>, l: nat, top: nat)
    requires l <= top
    ensures |CodeList(length, l)| <= |CodeList(length, top)|
    ensures CodeList(length, top)[..|CodeList(length, l)|] == CodeList(length, l)
  {
    if l < top {
      CodeListPrefix(length, l, top - 1);
    }
  }

  /** A symbol's place in the list: after all shorter codewords and the smaller symbols of its length. */
  lemma CodeListPlace(length: seq<nat>, s: nat, top: nat)
    requires s < |length| && 1 <= length[s] <= top
    ensures |CodeList(length, length[s] - 1)| +
              |OfLength(length, length[s], s)| < |CodeList(length, length[s])| <= |CodeList(length, top)|
    ensures CodeList(length, top)[|CodeList(length, length[s] - 1)| + |OfLength(length, length[s], s)|] == s
  {
    hide OfLength;
    var l := length[s];
    CodeListPrefix(length, l, top);
    OfLengthPrefix(length, l, s + 1, |length|);
    OfLengthStep(length, l, s);
    var c, d := CodeList(length, l), CodeList(length, top);
    var p := |CodeList(length, l - 1)| + |OfLength(length, l, s)|;
    assert c == CodeList(length, l - 1) + OfLength(length, l, |length|);
    assert c[p] == OfLength(length, l, |length|)[|OfLength(length, l, s)|] ==
             OfLength(length, l, s + 1)[|OfLength(length, l, s)|] == s;
    assert d[..|c|][p] == d[p];
  }

  lemma OfLengthStep(length: seq<nat>, l: nat, n: nat)
    requires n < |length|
    ensures OfLength(length, l, n + 1) == OfLength(length, l, n) + if length[n] == l then [n] else []
  {
  }

  lemma {:induction false} OfLengthPrefix(length: seq<nat>, l: nat, m: nat, n: nat)
    requires m <= n <= |length|
    ensures |OfLength(length, l, m)| <= |OfLength(length, l, n)|
    ensures OfLength(length, l, n)[..|OfLength(length, l, m)|] == OfLength(length, l, m)
  {
    if m < n {
      OfLengthPrefix(length, l, m, n - 1);
    }
  }

  lemma CodeListStep(length: seq<nat>, l: nat)
    requires 0 < l
    ensures CodeList(length, l) == CodeList(length, l - 1) + OfLength(length, l, |length|)
    ensures |CodeList(length, l)| == |CodeList(length, l - 1)| + Count(length, l)
  {
  }

  lemma OfLengthTotal(length: seq<nat>, l: nat, m: nat)
    requires m <= Count(length, l)
    ensures Total(OfLength(length, l, |length|)[..m], SpaceAt(length, l)) == m
  {
    hide OfLength, Pow2, Total;
    OfLengthFacts(length, l, |length|);
    PowZero();
    TotalConstant(OfLength(length, l, |length|)[..m], SpaceAt(length, l), 1);
  }

  /** The shorter codewords take the space before the first codeword of `n` bits. */
  lemma {:induction false} ListTotal(length: seq<nat>, n: nat)
    requires 0 < n
    ensures Total(CodeList(length, n - 1), SpaceAt(length, n)) == FirstCode(length, n)
  {
    hide Total, CodeList, OfLength, Pow2, SpaceAt;
    if n == 1 {
      ListTotalStart(length);
    } else {
      ListTotal(length, n - 1);
      CodeListStep(length, n - 1);
      CodeListOrder(length, n - 1);
      SpaceScales(CodeList(length, n - 1), length, n - 1, n);
      PowOne();
      var o := OfLength(length, n - 1, |length|);
      TotalAppend(CodeList(length, n - 2), o, SpaceAt(length, n - 1));
      OfLengthTotal(length, n - 1, |o|);
      assert o[..|o|] == o;
    }
  }

  lemma ListTotalStart(length: seq<nat>)
    ensures Total(CodeList(length, 0), SpaceAt(length, 1)) == FirstCode(length, 1)
  {
  }

  lemma PowOne()
    ensures Pow2(1) == 2
  {
    assert Pow2(0) == 1;
  }

  /** The lengths fill the code space exactly if no node is left open below the deepest level. */
  lemma FillsIffClosed(length: seq<nat>, top: nat)
    requires forall s :: 0 <= s < |length| ==> length[s] <= top
    ensures Fills(length, top) <==> Nodes(length, top + 1) == 0
  {
    hide Total, Used, CodeList, Pow2, FirstCode, Space, SpaceAt;
    var all := CodeList(length, top);
    ListTotal(length, top + 1);
    CodeListOrder(length, top);
    SpaceScales(all, length, top, top + 1);
    PowOne();
    PowNext(top);
    CodeListAll(length, top);
    TotalPermutes(all, Used(length), Space(length, top));
    SpaceOfUnused(length, top);
    assert length[..|length|] == length;
    UsedTotal(length, |length|, Space(length, top));
    SpaceSame(all, length, top);
  }

  lemma SpaceOfUnused(length: seq<nat>, top: nat)
    ensures forall s :: 0 <= s < |length| && length[s] == 0 ==> Space(length, top)(s) == 0
  {
  }

  lemma SpaceSame(list: seq<int>, length: seq<nat>, top: nat)
    requires InCodeOrder(list, length)
    ensures Total(list, Space(length, top)) == Total(list, SpaceAt(length, top))
  {
    TotalSame(list, Space(length, top), SpaceAt(length, top));
  }

  lemma NodesStep(length: seq<nat>, n: nat)
    requires 0 < n
    ensures Nodes(length, n + 1) == 2 * (Nodes(length, n) - Count(length, n))
  {
    PowNext(n);
  }

  /** In a complete code every level has room for its codewords. */
  lemma {:induction false} NodesSuffice(length: seq<nat>, n: nat, top: nat)
    requires 0 < n <= top && Nodes(length, top + 1) == 0
    ensures Count(length, n) <= Nodes(length, n)
    decreases top - n
  {
    hide Nodes, Count;
    NodesStep(length, n);
    if n < top {
      NodesSuffice(length, n + 1, top);
      CountNotNegative(length, n + 1);
    }
  }

  lemma CountNotNegative(length: seq<nat>, n: nat)
    ensures 0 <= Count(length, n)
  {
  }

  /** The codeword of the j-th symbol of `n` bits. */
  lemma CanonOfPlace(length: seq<nat>, n: nat, j: nat, top: nat)
    requires 0 < n <= top && j < Count(length, n) && forall s :: 0 <= s < |length| ==> length[s] <= top
    ensures |CodeList(length, n - 1)| + j < |CodeList(length, top)|
    ensures var s := CodeList(length, top)[|CodeList(length, n - 1)| + j];
            0 <= s < |length| && length[s] == n && Canon(length, s) == FirstCode(length, n) + j
  {
    hide Total, CodeList, OfLength, Used, Pow2, FirstCode, Canon, SpaceAt;
    var list, short, o := CodeList(length, top), CodeList(length, n - 1), OfLength(length, n, |length|);
    CodeListPrefix(length, n, top);
    CodeListStep(length, n);
    OfLengthFacts(length, n, |length|);
    var k := |short| + j;
    assert list[k] == list[..|CodeList(length, n)|][k] == o[j];
    CodeListOrder(length, top);
    CodeListAll(length, top);
    CanonInList(list, length, k);
    assert list[..k] == list[..|CodeList(length, n)|][..k] == short + o[..j];
    TotalAppend(short, o[..j], SpaceAt(length, n));
    ListTotal(length, n);
    OfLengthTotal(length, n, j);
  }
}
