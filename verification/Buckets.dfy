/** Buckets of vertices kept as doubly linked lists through per-vertex links. */
module Buckets {
  // `heads[b]` is the first vertex of bucket `b`; `fLink` and `bLink` chain the vertices of one bucket. The lists
  // themselves appear as a sequence of sequences, and `key[v]` is the bucket that holds `v`, or NONE.

  import opened Assignments

  ghost function Entry(s: seq<int>, i: int): int {
    if 0 <= i < |s| then s[i] else NONE
  }

  /** Following the links from `head` visits exactly `s`. */
  ghost predicate LinkedList(head: int, fLink: seq<int>, bLink: seq<int>, s: seq<int>) {
    && |fLink| == |bLink|
    && head == Entry(s, 0)
    && (forall i :: 0 <= i < |s| ==> 0 <= s[i] < |fLink|)
    && (forall i {:trigger fLink[s[i]]} :: 0 <= i < |s| ==> fLink[s[i]] == Entry(s, i + 1))
    && (forall i {:trigger bLink[s[i]]} :: 0 <= i < |s| ==> bLink[s[i]] == Entry(s, i - 1))
  }

  ghost predicate Distinct(s: seq<int>) {
    forall i, j :: 0 <= i < j < |s| ==> s[i] != s[j]
  }

  /** Vertex `v` is in bucket `b` exactly when its key says so. */
  ghost predicate Filed(lists: seq<seq<int>>, key: seq<int>) {
    && (forall b, i :: 0 <= b < |lists| && 0 <= i < |lists[b]| ==>
          0 <= lists[b][i] < |key| && key[lists[b][i]] == b)
    && (forall v :: 0 <= v < |key| && key[v] != NONE ==> 0 <= key[v] < |lists| && v in lists[key[v]])
  }

  ghost predicate BucketsValid(heads: seq<int>, fLink: seq<int>, bLink: seq<int>, lists: seq<seq<int>>, key: seq<int>) {
    && |heads| == |lists|
    && |fLink| == |bLink| == |key|
    && (forall b :: 0 <= b < |lists| ==> LinkedList(heads[b], fLink, bLink, lists[b]))
    && (forall b :: 0 <= b < |lists| ==> Distinct(lists[b]))
    && Filed(lists, key)
  }

  lemma FiledBucket(heads: seq<int>, fLink: seq<int>, bLink: seq<int>, lists: seq<seq<int>>, key: seq<int>, v: nat)
    requires BucketsValid(heads, fLink, bLink, lists, key) && v < |key| && key[v] != NONE
    ensures |heads| == |lists| && 0 <= key[v] < |lists| && v in lists[key[v]]
  {
  }

  lemma FollowLink(heads: seq<int>, fLink: seq<int>, bLink: seq<int>, lists: seq<seq<int>>, key: seq<int>, b: nat,
                   i: nat)
    requires BucketsValid(heads, fLink, bLink, lists, key) && b < |lists| && i < |lists[b]|
    ensures |fLink| == |key| && 0 <= lists[b][i] < |key| && fLink[lists[b][i]] == Entry(lists[b], i + 1)
  {
    assert LinkedList(heads[b], fLink, bLink, lists[b]);
  }

  lemma FirstInBucket(heads: seq<int>, fLink: seq<int>, bLink: seq<int>, lists: seq<seq<int>>, key: seq<int>, b: nat)
    requires BucketsValid(heads, fLink, bLink, lists, key) && b < |lists|
    ensures |heads| == |lists| && heads[b] == Entry(lists[b], 0)
    ensures heads[b] == NONE <==> lists[b] == []
  {
    assert LinkedList(heads[b], fLink, bLink, lists[b]);
  }

  lemma BucketIsList(heads: seq<int>, fLink: seq<int>, bLink: seq<int>, lists: seq<seq<int>>, key: seq<int>, b: nat)
    requires BucketsValid(heads, fLink, bLink, lists, key) && b < |lists|
    ensures |heads| == |lists| && |fLink| == |bLink| == |key|
    ensures LinkedList(heads[b], fLink, bLink, lists[b]) && Distinct(lists[b])
    ensures forall i :: 0 <= i < |lists[b]| ==> 0 <= lists[b][i] < |fLink|
  {
  }

  lemma NoNullInBucket(heads: seq<int>, fLink: seq<int>, bLink: seq<int>, lists: seq<seq<int>>, key: seq<int>, b: nat)
    requires BucketsValid(heads, fLink, bLink, lists, key) && b < |lists|
    ensures forall i :: 0 <= i < |lists[b]| ==> lists[b][i] != NONE
  {
  }

  // ----- inserting at the front -----

  ghost function Pushed(lists: seq<seq<int>>, v: int, b: nat): seq<seq<int>>
    requires b < |lists|
  {
    lists[b := [v] + lists[b]]
  }

  lemma PushKeepsList(head: int, fLink: seq<int>, bLink: seq<int>, s: seq<int>, v: nat)
    requires LinkedList(head, fLink, bLink, s) && Distinct(s)
    requires v < |fLink| && v !in s
    ensures head == NONE || 0 <= head < |fLink|
    ensures var f := fLink[v := head]; var k := bLink[v := NONE];
            LinkedList(v, f, if head == NONE then k else k[head := v], [v] + s)
    ensures Distinct([v] + s)
  {
    var t := [v] + s;
    var f, k := fLink[v := head], bLink[v := NONE];
    if s != [] {
      assert head == s[0];
    }
    var k' := if head == NONE then k else k[head := v];
    forall i | 0 <= i < |t| ensures f[t[i]] == Entry(t, i + 1) && k'[t[i]] == Entry(t, i - 1) {
      if 0 < i {
        assert t[i] == s[i - 1];
        assert fLink[s[i - 1]] == Entry(s, i) && bLink[s[i - 1]] == Entry(s, i - 2);
      }
    }
  }

  /** A list none of whose vertices is touched stays as it is. */
  lemma UntouchedList(head: int, fLink: seq<int>, bLink: seq<int>, s: seq<int>, f: seq<int>, k: seq<int>)
    requires LinkedList(head, fLink, bLink, s)
    requires |f| == |fLink| && |k| == |bLink|
    requires forall i :: 0 <= i < |s| ==> f[s[i]] == fLink[s[i]] && k[s[i]] == bLink[s[i]]
    ensures LinkedList(head, f, k, s)
  {
  }

  lemma PushKeepsBuckets(heads: seq<int>, fLink: seq<int>, bLink: seq<int>, lists: seq<seq<int>>, key: seq<int>,
                         v: nat, b: nat)
    requires BucketsValid(heads, fLink, bLink, lists, key)
    requires v < |key| && key[v] == NONE && b < |heads|
    ensures heads[b] == NONE || 0 <= heads[b] < |fLink|
    ensures var f := fLink[v := heads[b]]; var k := bLink[v := NONE];
            BucketsValid(heads[b := v], f, if heads[b] == NONE then k else k[heads[b] := v],
                         Pushed(lists, v, b), key[v := b])
  {
    var head := heads[b];
    assert v !in lists[b];
    PushKeepsList(head, fLink, bLink, lists[b], v);
    var f, k := fLink[v := head], bLink[v := NONE];
    var k' := if head == NONE then k else k[head := v];
    var lists' := Pushed(lists, v, b);
    forall c | 0 <= c < |lists| && c != b ensures LinkedList(heads[c], f, k', lists'[c]) {
      forall i | 0 <= i < |lists[c]|
        ensures f[lists[c][i]] == fLink[lists[c][i]] && k'[lists[c][i]] == bLink[lists[c][i]] {
        assert key[lists[c][i]] == c;
        if head != NONE {
          assert lists[b][0] == head && key[head] == b;
        }
      }
      UntouchedList(heads[c], fLink, bLink, lists[c], f, k');
    }
    PushFiled(lists, key, v, b);
  }

  lemma PushFiled(lists: seq<seq<int>>, key: seq<int>, v: nat, b: nat)
    requires Filed(lists, key) && v < |key| && key[v] == NONE && b < |lists|
    ensures Filed(Pushed(lists, v, b), key[v := b])
  {
    var lists', key' := Pushed(lists, v, b), key[v := b];
    forall w | 0 <= w < |key'| && key'[w] != NONE ensures w in lists'[key'[w]] {
      if w == v {
        assert lists'[b][0] == v;
      } else {
        var i :| 0 <= i < |lists[key[w]]| && lists[key[w]][i] == w;
        if key[w] == b {
          assert lists'[b][i + 1] == w;
        }
      }
    }
    forall c, i | 0 <= c < |lists'| && 0 <= i < |lists'[c]|
      ensures 0 <= lists'[c][i] < |key'| && key'[lists'[c][i]] == c
    {
      if c == b && 0 < i {
        assert lists'[c][i] == lists[b][i - 1];
      }
    }
  }

  // ----- removing from anywhere -----

  ghost function Cut(s: seq<int>, i: nat): seq<int>
    requires i < |s|
  {
    s[..i] + s[i + 1..]
  }

  /** The links after taking out `v`, as the code rewrites them. */
  ghost function CutBack(fLink: seq<int>, bLink: seq<int>, v: nat): seq<int>
    requires v < |fLink| == |bLink| && (fLink[v] == NONE || 0 <= fLink[v] < |fLink|)
  {
    if fLink[v] != NONE then bLink[fLink[v] := bLink[v]] else bLink
  }

  ghost function CutForward(fLink: seq<int>, bLink: seq<int>, v: nat): seq<int>
    requires v < |fLink| == |bLink| && (bLink[v] == NONE || 0 <= bLink[v] < |fLink|)
  {
    if bLink[v] != NONE then fLink[bLink[v] := fLink[v]] else fLink
  }

  lemma CutKeepsList(head: int, fLink: seq<int>, bLink: seq<int>, s: seq<int>, at: nat)
    requires LinkedList(head, fLink, bLink, s) && Distinct(s) && at < |s|
    ensures fLink[s[at]] == Entry(s, at + 1) && bLink[s[at]] == Entry(s, at - 1)
    ensures LinkedList(if bLink[s[at]] == NONE then fLink[s[at]] else head,
                       CutForward(fLink, bLink, s[at]), CutBack(fLink, bLink, s[at]), Cut(s, at))
    ensures Distinct(Cut(s, at))
  {
    var v, t := s[at], Cut(s, at);
    var f, k := CutForward(fLink, bLink, v), CutBack(fLink, bLink, v);
    forall i | 0 <= i < |t| ensures f[t[i]] == Entry(t, i + 1) && k[t[i]] == Entry(t, i - 1) {
      var j := if i < at then i else i + 1;
      assert t[i] == s[j];
      assert fLink[s[j]] == Entry(s, j + 1) && bLink[s[j]] == Entry(s, j - 1);
    }
  }

  lemma CutKeepsBuckets(heads: seq<int>, fLink: seq<int>, bLink: seq<int>, lists: seq<seq<int>>, key: seq<int>,
                        b: nat, at: nat)
    requires BucketsValid(heads, fLink, bLink, lists, key)
    requires b < |lists| && at < |lists[b]|
    ensures var v := lists[b][at];
            && (fLink[v] == NONE || 0 <= fLink[v] < |fLink|) && (bLink[v] == NONE || 0 <= bLink[v] < |fLink|)
            && BucketsValid(if bLink[v] == NONE then heads[b := fLink[v]] else heads,
                            CutForward(fLink, bLink, v), CutBack(fLink, bLink, v),
                            lists[b := Cut(lists[b], at)], key[v := NONE])
  {
    hide LinkedList, Distinct, Filed;
    BucketIsList(heads, fLink, bLink, lists, key, b);
    CutKeepsList(heads[b], fLink, bLink, lists[b], at);
    CutFiled(lists, key, b, at);
    forall c | 0 <= c < |lists| && c != b
      ensures LinkedList(heads[c], CutForward(fLink, bLink, lists[b][at]), CutBack(fLink, bLink, lists[b][at]),
                         lists[c])
    {
      CutSparesList(heads[c], heads[b], fLink, bLink, lists, key, b, at, c);
    }
  }

  lemma CutSparesList(head: int, cutHead: int, fLink: seq<int>, bLink: seq<int>, lists: seq<seq<int>>, key: seq<int>,
                      b: nat, at: nat, c: nat)
    requires Filed(lists, key) && b < |lists| && c < |lists| && c != b && at < |lists[b]| && |key| == |fLink|
    requires LinkedList(head, fLink, bLink, lists[c]) && LinkedList(cutHead, fLink, bLink, lists[b])
    requires fLink[lists[b][at]] == Entry(lists[b], at + 1) && bLink[lists[b][at]] == Entry(lists[b], at - 1)
    ensures LinkedList(head, CutForward(fLink, bLink, lists[b][at]), CutBack(fLink, bLink, lists[b][at]), lists[c])
  {
    var v, s := lists[b][at], lists[b];
    var f, k := CutForward(fLink, bLink, v), CutBack(fLink, bLink, v);
    forall i | 0 <= i < |lists[c]|
      ensures f[lists[c][i]] == fLink[lists[c][i]] && k[lists[c][i]] == bLink[lists[c][i]] {
      assert key[lists[c][i]] == c;
      assert at + 1 < |s| ==> key[s[at + 1]] == b;
      assert 0 < at ==> key[s[at - 1]] == b;
    }
    UntouchedList(head, fLink, bLink, lists[c], f, k);
  }

  lemma CutFiled(lists: seq<seq<int>>, key: seq<int>, b: nat, at: nat)
    requires Filed(lists, key) && b < |lists| && at < |lists[b]| && Distinct(lists[b])
    ensures Filed(lists[b := Cut(lists[b], at)], key[lists[b][at] := NONE])
  {
    var v, s := lists[b][at], lists[b];
    var lists', key' := lists[b := Cut(s, at)], key[v := NONE];
    forall c, i | 0 <= c < |lists'| && 0 <= i < |lists'[c]|
      ensures 0 <= lists'[c][i] < |key'| && key'[lists'[c][i]] == c
    {
      if c == b {
        var j := if i < at then i else i + 1;
        assert lists'[c][i] == s[j];
      }
    }
    forall w | 0 <= w < |key'| && key'[w] != NONE ensures w in lists'[key'[w]] {
      var i :| 0 <= i < |lists[key[w]]| && lists[key[w]][i] == w;
      if key[w] == b {
        assert lists'[b][if i < at then i else i - 1] == w;
      }
    }
  }
}
