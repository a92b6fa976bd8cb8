/**
 src/ds/list.c: a doubly linked list whose nodes keep their element and their address.  Sorting
 and merging relink the nodes through `next` alone and repair `prev` once at the end.
 */
module Lists {
  import opened Core
  import opened Order
  import opened Span

  class Node<T> {
    var next: Node?<T>
    var prev: Node?<T>
    const elem: T

    constructor (elem: T)
      ensures this.elem == elem && next == null && prev == null
    {
      this.elem, next, prev := elem, null, null;
    }
  }

  /** The k-th node; null past either end. */
  function At<T>(s: seq<Node<T>>, k: int): Node?<T> {
    if 0 <= k < |s| then s[k] else null
  }

  /** From index `from` on, each node's `next` is the node after it. */
  ghost predicate Linked<T>(s: seq<Node<T>>, from: nat)
    reads s
  {
    forall k :: from <= k < |s| ==> s[k].next == At(s, k + 1)
  }

  /** Each node's `prev` is the node before it. */
  ghost predicate BackLinked<T>(s: seq<Node<T>>)
    reads s
  {
    forall k :: 0 <= k < |s| ==> s[k].prev == At(s, k - 1)
  }

  // ----- orders of nodes

  function ByElem<T>(cmp: (T, T) -> int): (Node<T>, Node<T>) -> int {
    (x: Node<T>, y: Node<T>) => cmp(x.elem, y.elem)
  }

  lemma {:induction false} MergePermutes<T>(a: seq<Node<T>>, b: seq<Node<T>>, cmp: (T, T) -> int)
    ensures multiset(Merge(a, b, ByElem(cmp))) == multiset(a) + multiset(b)
    decreases |a| + |b|
  {
    if a != [] && b != [] {
      if cmp(b[0].elem, a[0].elem) < 0 {
        MergePermutes(a, b[1..], cmp);
        assert b == [b[0]] + b[1..];
      } else {
        MergePermutes(a[1..], b, cmp);
        assert a == [a[0]] + a[1..];
      }
    }
  }

  lemma {:induction false} Once<T>(s: seq<Node<T>>, x: Node<T>)
    ensures Distinct(s) ==> multiset(s)[x] <= 1
  {
    if s != [] {
      Once(s[1..], x);
      assert s == [s[0]] + s[1..];
      assert Distinct(s) ==> s[0] !in s[1..];
    }
  }

  lemma SameNodes<T>(r: seq<Node<T>>, s: seq<Node<T>>)
    requires multiset(r) == multiset(s) && Distinct(s)
    ensures Distinct(r) && |r| == |s| && forall k :: 0 <= k < |r| ==> r[k] in s
  {
    assert |multiset(r)| == |multiset(s)|;
    forall i, j | 0 <= i < j < |r| ensures r[i] != r[j] {
      Once(s, r[i]);
      TwoCopies(r, i, j);
    }
    forall k | 0 <= k < |r| ensures r[k] in s {
      assert r[k] in multiset(r);
    }
  }

  lemma TwoCopies<T>(r: seq<Node<T>>, i: nat, j: nat)
    requires i < j < |r|
    ensures r[i] == r[j] ==> multiset(r)[r[i]] >= 2
  {
    assert r == r[..j] + [r[j]] + r[j + 1..];
    assert r[i] in r[..j] by {
      assert r[..j][i] == r[i];
    }
  }

  // ----- merging two chains

  /** The first n nodes of the merge are placed; the rest of it is what merges from i and j on. */
  ghost predicate Weaving<T>(m: seq<Node<T>>, n: nat, a: seq<Node<T>>, i: nat, b: seq<Node<T>>, j: nat,
                             cmp: (T, T) -> int)
  {
    i <= |a| && j <= |b| && n == i + j <= |m| && m[n..] == Merge(a[i..], b[j..], ByElem(cmp))
  }

  lemma WeaveStep<T>(m: seq<Node<T>>, n: nat, a: seq<Node<T>>, i: nat, b: seq<Node<T>>, j: nat, cmp: (T, T) -> int)
    requires Weaving(m, n, a, i, b, j, cmp) && i < |a| && j < |b|
    ensures n < |m|
    ensures if cmp(b[j].elem, a[i].elem) < 0 then m[n] == b[j] && Weaving(m, n + 1, a, i, b, j + 1, cmp)
            else m[n] == a[i] && Weaving(m, n + 1, a, i + 1, b, j, cmp)
  {
    assert a[i..][0] == a[i] && b[j..][0] == b[j] && a[i..][1..] == a[i + 1..] && b[j..][1..] == b[j + 1..];
    assert |m[n..]| == |a[i..]| + |b[j..]|;
    assert m[n..][0] == m[n] && m[n..][1..] == m[n + 1..];
  }

  /** No node still to be read is the one placed last. */
  lemma Untaken<T>(m: seq<Node<T>>, n: nat, a: seq<Node<T>>, i: nat, b: seq<Node<T>>, j: nat, cmp: (T, T) -> int)
    requires Weaving(m, n, a, i, b, j, cmp) && Distinct(m) && n > 0
    ensures m[n - 1] !in a[i..] && m[n - 1] !in b[j..]
  {
    hide Merge;
    MergePermutes(a[i..], b[j..], cmp);
    var rest := a[i..] + b[j..];
    if m[n - 1] in rest {
      Later(m, n, rest, m[n - 1], n - 1);
    }
  }

  lemma Later<T>(m: seq<Node<T>>, n: nat, rest: seq<Node<T>>, x: Node<T>, p: nat)
    requires n <= |m| && Distinct(m) && multiset(m[n..]) == multiset(rest) && x in rest && p < n
    ensures x != m[p]
  {
    assert x in multiset(m[n..]);
    var q :| 0 <= q < |m| - n && m[n..][q] == x;
    assert m[n + q] == x;
  }

  /** The first n nodes of m each point to the node after it. */
  ghost predicate Strung<T>(m: seq<Node<T>>, n: int)
    requires n <= |m|
    reads m
  {
    forall k :: 0 <= k < n ==> m[k].next == At(m, k + 1)
  }

  lemma NothingStrung<T>(m: seq<Node<T>>)
    ensures Strung(m, 0) && Strung(m, -1)
  {
  }

  lemma LinkedNext<T>(s: seq<Node<T>>, k: nat)
    requires k < |s| && Linked(s, k)
    ensures s[k].next == At(s, k + 1) && Linked(s, k + 1)
  {
  }

  /** Writes the `next` of the n-th node placed; the runs still to be read do not have it. */
  method Attach<T>(last: Node<T>, x: Node?<T>, ghost m: seq<Node<T>>, ghost n: nat,
                   ghost a: seq<Node<T>>, ghost i: nat, ghost b: seq<Node<T>>, ghost j: nat)
    requires 0 < n <= |m| && last == m[n - 1] && x == At(m, n) && Strung(m, n - 1) && Distinct(m)
    requires Linked(a, i) && Linked(b, j) && i <= |a| && j <= |b| && last !in a[i..] && last !in b[j..]
    modifies last`next
    ensures Linked(a, i) && Linked(b, j) && Strung(m, n)
  {
    last.next := x;
  }

  /** The comparing loop of merge_chains; `last` is the node whose `next` is to be written, null for the head. */
  method WeaveHeads<T>(a0: Node?<T>, b0: Node?<T>, cmp: (T, T) -> int, ghost a: seq<Node<T>>, ghost b: seq<Node<T>>,
                       ghost m: seq<Node<T>>)
    returns (head: Node?<T>, last: Node?<T>, rest: Node?<T>, ghost i: nat, ghost j: nat)
    requires a0 == At(a, 0) && b0 == At(b, 0) && Linked(a, 0) && Linked(b, 0)
    requires Weaving(m, 0, a, 0, b, 0, cmp) && Distinct(m)
    modifies m`next
    ensures Weaving(m, i + j, a, i, b, j, cmp) && (i == |a| || j == |b|)
    ensures rest == (if i < |a| then a[i] else At(b, j)) && Linked(a, i) && Linked(b, j)
    ensures last == At(m, i + j - 1) && (i + j > 0 ==> head == m[0]) && Strung(m, i + j - 1)
  {
    hide Weaving, Distinct, Linked, Strung;
    i, j := 0, 0;
    NothingStrung(m);
    WeaveBounds(m, a, i, b, j, cmp);
    var left, right := a0, b0;
    head, last := null, null;
    while left != null && right != null
      invariant i <= |a| && j <= |b| && i + j <= |m| && Weaving(m, i + j, a, i, b, j, cmp)
      invariant left == At(a, i) && right == At(b, j) && Linked(a, i) && Linked(b, j)
      invariant last == At(m, i + j - 1) && (i + j > 0 ==> head == m[0]) && Strung(m, i + j - 1)
      decreases |m| - (i + j)
    {
      WeaveStep(m, i + j, a, i, b, j, cmp);
      var takeRight := cmp(right.elem, left.elem) < 0;
      var x := if takeRight then right else left;
      if last == null {
        head := x;
        NothingStrung(m);
      } else {
        Untaken(m, i + j, a, i, b, j, cmp);
        Attach(last, x, m, i + j, a, i, b, j);
      }
      LinkedNext(a, i);
      LinkedNext(b, j);
      last := x;
      left, right := if takeRight then left else x.next, if takeRight then x.next else right;
      i, j := if takeRight then i else i + 1, if takeRight then j + 1 else j;
      WeaveBounds(m, a, i, b, j, cmp);
    }
    rest := if left != null then left else right;
  }

  lemma WeaveBounds<T>(m: seq<Node<T>>, a: seq<Node<T>>, i: nat, b: seq<Node<T>>, j: nat, cmp: (T, T) -> int)
    requires Weaving(m, i + j, a, i, b, j, cmp)
    ensures i <= |a| && j <= |b| && i + j <= |m| && |m| == |a| + |b|
  {
    assert |m[i + j..]| == |a[i..]| + |b[j..]|;
  }

  /** What is left of one run is the end of the merge. */
  lemma WeaveEnd<T>(m: seq<Node<T>>, a: seq<Node<T>>, i: nat, b: seq<Node<T>>, j: nat, cmp: (T, T) -> int)
    requires Weaving(m, i + j, a, i, b, j, cmp) && (i == |a| || j == |b|)
    ensures i <= |a| && j <= |b| && i + j <= |m|
    ensures m[i + j..] == if i < |a| then a[i..] else b[j..]
  {
  }

  lemma RestIs<T>(m: seq<Node<T>>, a: seq<Node<T>>, i: nat, b: seq<Node<T>>, j: nat, cmp: (T, T) -> int)
    requires Weaving(m, i + j, a, i, b, j, cmp) && (i == |a| || j == |b|)
    ensures At(m, i + j) == if i < |a| then a[i] else At(b, j)
  {
    hide Merge, Weaving;
    WeaveBounds(m, a, i, b, j, cmp);
    WeaveEnd(m, a, i, b, j, cmp);
    assert i + j < |m| ==> m[i + j] == m[i + j..][0];
  }

  method MergeChains<T>(a0: Node?<T>, b0: Node?<T>, cmp: (T, T) -> int, ghost a: seq<Node<T>>, ghost b: seq<Node<T>>)
    returns (head: Node?<T>)
    requires a0 == At(a, 0) && b0 == At(b, 0) && Linked(a, 0) && Linked(b, 0) && Distinct(a + b)
    modifies a`next, b`next
    ensures var m := Merge(a, b, ByElem(cmp)); Linked(m, 0) && head == At(m, 0)
  {
    hide Merge, Weaving, Distinct, Linked, Strung;
    ghost var m := Merge(a, b, ByElem(cmp));
    WeaveStart(a, b, cmp);
    var last, rest;
    ghost var i, j;
    head, last, rest, i, j := WeaveHeads(a0, b0, cmp, a, b, m);
    WeaveBounds(m, a, i, b, j, cmp);
    RestIs(m, a, i, b, j, cmp);
    if last == null {
      head := rest;
      NothingStrung(m);
    } else {
      Untaken(m, i + j, a, i, b, j, cmp);
      Attach(last, rest, m, i + j, a, i, b, j);
    }
    WholeChain(m, a, i, b, j, cmp);
  }

  /** The placed part and the untouched rest make one chain. */
  lemma WholeChain<T>(m: seq<Node<T>>, a: seq<Node<T>>, i: nat, b: seq<Node<T>>, j: nat, cmp: (T, T) -> int)
    requires Weaving(m, i + j, a, i, b, j, cmp) && (i == |a| || j == |b|)
    requires Linked(a, i) && Linked(b, j) && Strung(m, i + j)
    ensures Linked(m, 0)
  {
    hide Merge, Weaving;
    WeaveBounds(m, a, i, b, j, cmp);
    WeaveEnd(m, a, i, b, j, cmp);
    if i < |a| {
      ChainEnds(m, i + j, a, i);
    } else {
      ChainEnds(m, i + j, b, j);
    }
  }

  lemma ChainEnds<T>(m: seq<Node<T>>, n: nat, run: seq<Node<T>>, from: nat)
    requires n <= |m| && from <= |run| && m[n..] == run[from..] && Linked(run, from) && Strung(m, n)
    ensures Linked(m, 0)
  {
    forall k | n <= k < |m| ensures m[k].next == At(m, k + 1) {
      assert m[k] == m[n..][k - n] == run[from + (k - n)];
      assert k + 1 < |m| ==> m[k + 1] == m[n..][k + 1 - n] == run[from + (k + 1 - n)];
    }
  }

  lemma WeaveStart<T>(a: seq<Node<T>>, b: seq<Node<T>>, cmp: (T, T) -> int)
    requires Distinct(a + b)
    ensures var m := Merge(a, b, ByElem(cmp));
            && Weaving(m, 0, a, 0, b, 0, cmp) && Distinct(m) && multiset(m) == multiset(a + b)
            && forall k :: 0 <= k < |m| ==> m[k] in a || m[k] in b
  {
    hide Merge;
    var m := Merge(a, b, ByElem(cmp));
    MergePermutes(a, b, cmp);
    SameNodes(m, a + b);
    forall k | 0 <= k < |m| ensures m[k] in a || m[k] in b {
      assert m[k] in a + b;
    }
    assert a[0..] == a && b[0..] == b && m[0..] == m;
  }

  // ----- the stable order of the original nodes

  predicate Before<T>(s: seq<Node<T>>, x: Node<T>, y: Node<T>) {
    exists i, j :: 0 <= i < j < |s| && s[i] == x && s[j] == y
  }

  /** x has to stand before y: it is smaller, or equal and stood before y in s. */
  predicate Goes<T>(x: Node<T>, y: Node<T>, s: seq<Node<T>>, cmp: (T, T) -> int) {
    cmp(x.elem, y.elem) < 0 || (cmp(x.elem, y.elem) == 0 && Before(s, x, y))
  }

  ghost predicate Ordered<T>(r: seq<Node<T>>, s: seq<Node<T>>, cmp: (T, T) -> int) {
    forall k, l :: 0 <= k < l < |r| ==> Goes(r[k], r[l], s, cmp)
  }

  /** The nodes of s, none lost and none new, in the stable order of their elements. */
  ghost predicate StableOrder<T>(r: seq<Node<T>>, s: seq<Node<T>>, cmp: (T, T) -> int) {
    multiset(r) == multiset(s) && Ordered(r, s, cmp)
  }

  lemma {:induction false} MergeOrdered<T(!new)>(a: seq<Node<T>>, b: seq<Node<T>>, s: seq<Node<T>>, cmp: (T, T) -> int)
    requires TotalPreorder(cmp) && Ordered(a, s, cmp) && Ordered(b, s, cmp)
    requires forall i, j :: 0 <= i < |a| && 0 <= j < |b| ==> Before(s, a[i], b[j])
    ensures Ordered(Merge(a, b, ByElem(cmp)), s, cmp)
    decreases |a| + |b|
  {
    if a != [] && b != [] {
      hide Before;
      if cmp(b[0].elem, a[0].elem) < 0 {
        FirstGoes(a, b, s, cmp);
        MergeOrdered(a, b[1..], s, cmp);
        MergeAll(a, b[1..], ByElem(cmp), y => Goes(b[0], y, s, cmp));
        OrderedCons(b[0], Merge(a, b[1..], ByElem(cmp)), s, cmp);
      } else {
        FirstGoes(a, b, s, cmp);
        MergeOrdered(a[1..], b, s, cmp);
        MergeAll(a[1..], b, ByElem(cmp), y => Goes(a[0], y, s, cmp));
        OrderedCons(a[0], Merge(a[1..], b, ByElem(cmp)), s, cmp);
      }
    }
  }

  /** The node taken first goes before every other. */
  lemma FirstGoes<T(!new)>(a: seq<Node<T>>, b: seq<Node<T>>, s: seq<Node<T>>, cmp: (T, T) -> int)
    requires TotalPreorder(cmp) && Ordered(a, s, cmp) && Ordered(b, s, cmp) && a != [] && b != []
    requires forall i, j :: 0 <= i < |a| && 0 <= j < |b| ==> Before(s, a[i], b[j])
    ensures cmp(b[0].elem, a[0].elem) < 0 ==>
              && (forall i :: 0 <= i < |a| ==> Goes(b[0], a[i], s, cmp))
              && (forall i :: 0 <= i < |b[1..]| ==> Goes(b[0], b[1..][i], s, cmp))
    ensures cmp(b[0].elem, a[0].elem) >= 0 ==>
              && (forall i :: 0 <= i < |a[1..]| ==> Goes(a[0], a[1..][i], s, cmp))
              && (forall i :: 0 <= i < |b| ==> Goes(a[0], b[i], s, cmp))
  {
    hide Before;
    forall i | 0 <= i < |a| ensures cmp(a[0].elem, a[i].elem) <= 0 {
      assert i > 0 ==> Goes(a[0], a[i], s, cmp);
    }
    forall i | 0 <= i < |b| ensures cmp(b[0].elem, b[i].elem) <= 0 {
      assert i > 0 ==> Goes(b[0], b[i], s, cmp);
    }
  }

  lemma OrderedCons<T>(x: Node<T>, r: seq<Node<T>>, s: seq<Node<T>>, cmp: (T, T) -> int)
    requires Ordered(r, s, cmp) && forall i :: 0 <= i < |r| ==> Goes(x, r[i], s, cmp)
    ensures Ordered([x] + r, s, cmp)
  {
  }

  /** Top-down merge sort on the sequence of nodes: what sort_chain computes. */
  function SortNodes<T>(s: seq<Node<T>>, cmp: (T, T) -> int): (r: seq<Node<T>>)
    ensures |r| == |s|
    decreases |s|
  {
    if |s| < 2 then s
    else Merge(SortNodes(s[..|s| / 2], cmp), SortNodes(s[|s| / 2..], cmp), ByElem(cmp))
  }

  lemma {:induction false} SortPermutes<T>(s: seq<Node<T>>, cmp: (T, T) -> int)
    ensures multiset(SortNodes(s, cmp)) == multiset(s)
    decreases |s|
  {
    if |s| >= 2 {
      hide Merge;
      var l, r := s[..|s| / 2], s[|s| / 2..];
      SortPermutes(l, cmp);
      SortPermutes(r, cmp);
      MergePermutes(SortNodes(l, cmp), SortNodes(r, cmp), cmp);
      Halves(s, |s| / 2);
    }
  }

  lemma Halves<T>(s: seq<Node<T>>, half: nat)
    requires half <= |s|
    ensures multiset(s) == multiset(s[..half]) + multiset(s[half..])
  {
    assert s == s[..half] + s[half..];
  }

  lemma BeforeInPart<T>(s: seq<Node<T>>, from: nat, to: nat, x: Node<T>, y: Node<T>)
    requires from <= to <= |s|
    ensures Before(s[from..to], x, y) ==> Before(s, x, y)
  {
    if Before(s[from..to], x, y) {
      var i, j :| 0 <= i < j < to - from && s[from..to][i] == x && s[from..to][j] == y;
      assert s[from + i] == x && s[from + j] == y;
    }
  }

  lemma OrderedInPart<T>(r: seq<Node<T>>, s: seq<Node<T>>, from: nat, to: nat, cmp: (T, T) -> int)
    requires from <= to <= |s| && Ordered(r, s[from..to], cmp)
    ensures Ordered(r, s, cmp)
  {
    forall k, l | 0 <= k < l < |r| ensures Goes(r[k], r[l], s, cmp) {
      assert Goes(r[k], r[l], s[from..to], cmp);
      BeforeInPart(s, from, to, r[k], r[l]);
    }
  }

  lemma AcrossHalves<T>(s: seq<Node<T>>, half: nat, l: seq<Node<T>>, r: seq<Node<T>>)
    requires half <= |s| && multiset(l) == multiset(s[..half]) && multiset(r) == multiset(s[half..])
    ensures forall i, j :: 0 <= i < |l| && 0 <= j < |r| ==> Before(s, l[i], r[j])
  {
    forall i, j | 0 <= i < |l| && 0 <= j < |r| ensures Before(s, l[i], r[j]) {
      assert l[i] in multiset(l) && r[j] in multiset(r);
      var p :| 0 <= p < half && s[..half][p] == l[i];
      var q :| 0 <= q < |s| - half && s[half..][q] == r[j];
      assert s[p] == l[i] && s[half + q] == r[j];
    }
  }

  /** The list sort is stable, node by node. */
  lemma {:induction false} SortIsStable<T(!new)>(s: seq<Node<T>>, cmp: (T, T) -> int)
    requires TotalPreorder(cmp)
    ensures StableOrder(SortNodes(s, cmp), s, cmp)
    decreases |s|
  {
    SortPermutes(s, cmp);
    if |s| >= 2 {
      hide Merge, TotalPreorder, Ordered, Before;
      var half := |s| / 2;
      var l, r := SortNodes(s[..half], cmp), SortNodes(s[half..], cmp);
      assert s[0..half] == s[..half] && s[half..|s|] == s[half..];
      SortIsStable(s[..half], cmp);
      SortIsStable(s[half..], cmp);
      OrderedInPart(l, s, 0, half, cmp);
      OrderedInPart(r, s, half, |s|, cmp);
      AcrossHalves(s, half, l, r);
      MergeOrdered(l, r, s, cmp);
    }
  }

  /** Sorted nodes merged with sorted nodes are in the stable order of the two laid end to end. */
  lemma MergeIsStableOrder<T(!new)>(a: seq<Node<T>>, b: seq<Node<T>>, cmp: (T, T) -> int)
    requires TotalPreorder(cmp) && Sorted(a, ByElem(cmp)) && Sorted(b, ByElem(cmp))
    ensures StableOrder(Merge(a, b, ByElem(cmp)), a + b, cmp)
  {
    hide Merge;
    var s := a + b;
    assert s[0..|a|] == a && s[|a|..|s|] == b && s[..|a|] == a && s[|a|..] == b;
    SortedIsOrdered(a, cmp);
    SortedIsOrdered(b, cmp);
    OrderedInPart(a, s, 0, |a|, cmp);
    OrderedInPart(b, s, |a|, |s|, cmp);
    AcrossHalves(s, |a|, a, b);
    MergeOrdered(a, b, s, cmp);
    MergePermutes(a, b, cmp);
  }

  lemma SortedIsOrdered<T>(s: seq<Node<T>>, cmp: (T, T) -> int)
    requires Sorted(s, ByElem(cmp))
    ensures Ordered(s, s, cmp)
  {
    forall k, l | 0 <= k < l < |s| ensures Goes(s[k], s[l], s, cmp) {
      assert ByElem(cmp)(s[k], s[l]) <= 0;
    }
  }

  /** There is only one stable order. */
  lemma {:induction false} StableOrderIsUnique<T(!new)>(r: seq<Node<T>>, r': seq<Node<T>>, s: seq<Node<T>>,
                                                        cmp: (T, T) -> int)
    requires TotalPreorder(cmp) && Distinct(s)
    requires multiset(r) == multiset(r') && Ordered(r, s, cmp) && Ordered(r', s, cmp)
    ensures r == r'
    decreases |r|
  {
    assert |multiset(r)| == |multiset(r')|;
    if r != [] {
      assert r[0] in multiset(r') && r'[0] in multiset(r);
      HeadGoes(r, r'[0], s, cmp);
      HeadGoes(r', r[0], s, cmp);
      NotBothWays(r[0], r'[0], s, cmp);
      TailOf(r);
      TailOf(r');
      StableOrderIsUnique(r[1..], r'[1..], s, cmp);
    }
  }

  lemma HeadGoes<T>(r: seq<Node<T>>, x: Node<T>, s: seq<Node<T>>, cmp: (T, T) -> int)
    requires Ordered(r, s, cmp) && x in r
    ensures x == r[0] || Goes(r[0], x, s, cmp)
  {
  }

  lemma TailOf<T>(r: seq<Node<T>>)
    requires r != []
    ensures multiset(r[1..]) == multiset(r) - multiset{r[0]}
  {
    assert r == [r[0]] + r[1..];
  }

  lemma NotBothWays<T(!new)>(x: Node<T>, y: Node<T>, s: seq<Node<T>>, cmp: (T, T) -> int)
    requires TotalPreorder(cmp) && Distinct(s)
    ensures !(Goes(x, y, s, cmp) && Goes(y, x, s, cmp))
  {
  }

  // ----- sorting a chain

  /** skip: n nodes on, or null past the end. */
  method Skip<T>(node: Node?<T>, n: nat, ghost s: seq<Node<T>>) returns (r: Node?<T>)
    requires node == At(s, 0) && Linked(s, 0)
    ensures r == At(s, n)
  {
    r := node;
    var left: nat := n;
    while r != null && left > 0
      invariant left <= n && r == At(s, n - left)
    {
      assert s[n - left].next == At(s, n - left + 1);
      r, left := r.next, left - 1;
    }
  }

  /** Cuts a chain in two after its first `half` nodes. */
  method Cut<T>(head: Node<T>, half: nat, ghost s: seq<Node<T>>) returns (right: Node<T>)
    requires 0 < half < |s| && head == s[0] && Linked(s, 0) && Distinct(s)
    modifies s`next
    ensures right == s[half] && Linked(s[..half], 0) && Linked(s[half..], 0)
  {
    var leftTail := Skip(head, half - 1, s);
    assert s[half - 1].next == At(s, half);
    right := leftTail.next;
    leftTail.next := null;
  }

  lemma HalvesApart<T>(s: seq<Node<T>>, half: nat)
    requires half <= |s| && Distinct(s)
    ensures Distinct(s[..half]) && Distinct(s[half..])
    ensures forall k :: 0 <= k < |s[half..]| ==> s[half..][k] !in s[..half]
  {
    forall k | 0 <= k < |s[half..]| ensures s[half..][k] !in s[..half] {
      assert s[half..][k] == s[half + k];
    }
  }

  /** The sorted halves are the nodes of their halves, so they share none. */
  lemma SortedHalves<T>(s: seq<Node<T>>, half: nat, cmp: (T, T) -> int)
    requires half <= |s| && Distinct(s)
    ensures var l, r := SortNodes(s[..half], cmp), SortNodes(s[half..], cmp);
            && Distinct(l + r)
            && (forall k :: 0 <= k < |l| ==> l[k] in s && l[k] !in s[half..])
            && (forall k :: 0 <= k < |r| ==> r[k] in s)
  {
    hide SortNodes, Distinct;
    var l, r := SortNodes(s[..half], cmp), SortNodes(s[half..], cmp);
    SortPermutes(s[..half], cmp);
    SortPermutes(s[half..], cmp);
    Halves(s, half);
    assert multiset(l + r) == multiset(l) + multiset(r);
    SameNodes(l + r, s);
    HalvesApart(s, half);
    SameNodes(l, s[..half]);
    forall k | 0 <= k < |l| ensures l[k] in s && l[k] !in s[half..] {
      assert (l + r)[k] in s;
    }
    forall k | 0 <= k < |r| ensures r[k] in s {
      assert (l + r)[|l| + k] in s;
    }
  }

  /** sort_chain: `prev` is neither read nor written. */
  method SortChain<T>(head: Node<T>, len: nat, cmp: (T, T) -> int, ghost s: seq<Node<T>>) returns (sorted: Node<T>)
    requires len == |s| > 0 && head == s[0] && Linked(s, 0) && Distinct(s)
    modifies s`next
    ensures Linked(SortNodes(s, cmp), 0) && sorted == SortNodes(s, cmp)[0]
    decreases len, 1
  {
    sorted := head;
    if len >= 2 {
      hide Linked, Distinct, Merge;
      ghost var half := len / 2;
      var left, right := SortApart(head, len, cmp, s);
      SortedHalves(s, half, cmp);
      var merged := MergeChains(left, right, cmp, SortNodes(s[..half], cmp), SortNodes(s[half..], cmp));
      sorted := merged;
    }
  }

  /** Cuts the chain and sorts both halves. */
  method SortApart<T>(head: Node<T>, len: nat, cmp: (T, T) -> int, ghost s: seq<Node<T>>)
    returns (left: Node<T>, right: Node<T>)
    requires len == |s| >= 2 && head == s[0] && Linked(s, 0) && Distinct(s)
    modifies s`next
    ensures var l, r := SortNodes(s[..len / 2], cmp), SortNodes(s[len / 2..], cmp);
            Linked(l, 0) && Linked(r, 0) && left == l[0] && right == r[0]
    decreases len, 0
  {
    hide Linked, Distinct, SortNodes;
    var half := len / 2;
    HalvesApart(s, half);
    SortedHalves(s, half, cmp);
    right := Cut(head, half, s);
    left := SortChain(head, half, cmp, s[..half]);
    right := SortChain(right, len - half, cmp, s[half..]);
  }

  // ----- the list

  /** next, prev, head, tail and len all tell of the same sequence of nodes. */
  ghost predicate Shape<T>(s: seq<Node<T>>, head: Node?<T>, tail: Node?<T>, len: nat)
    reads s
  {
    && Distinct(s) && Linked(s, 0) && BackLinked(s)
    && head == At(s, 0) && tail == At(s, |s| - 1) && len == |s|
  }

  /** A chain ready to be linked in: whole inside, open at both ends. */
  ghost predicate Inner<T>(c: seq<Node<T>>)
    reads c
  {
    && (forall k :: 0 <= k < |c| - 1 ==> c[k].next == At(c, k + 1))
    && (forall k :: 0 < k < |c| ==> c[k].prev == At(c, k - 1))
  }

  class List<T(!new)> {
    var head: Node?<T>
    var tail: Node?<T>
    var len: nat
    ghost var nodes: seq<Node<T>>

    ghost predicate Valid()
      reads this, nodes
    {
      Shape(nodes, head, tail, len)
    }

    constructor ()
      ensures Valid() && nodes == []
    {
      head, tail, len := null, null, 0;
      nodes := [];
    }

    /** relink_prev: one walk along `next` rebuilds every `prev` and the tail. */
    method RelinkPrev(ghost s: seq<Node<T>>)
      requires head == At(s, 0) && Linked(s, 0) && Distinct(s)
      modifies this`tail, s`prev
      ensures Linked(s, 0) && BackLinked(s) && tail == At(s, |s| - 1)
    {
      var prev: Node?<T>, node := null, head;
      ghost var n := 0;
      while node != null
        invariant n <= |s| && node == At(s, n) && prev == At(s, n - 1) && Linked(s, 0)
        invariant forall k :: 0 <= k < n ==> s[k].prev == At(s, k - 1)
        decreases |s| - n
      {
        node.prev := prev;
        assert s[n].next == At(s, n + 1);
        prev, node, n := node, node.next, n + 1;
      }
      tail := prev;
    }

    method SortLinks(cmp: (T, T) -> int)
      requires Valid() && len >= 2
      modifies this, nodes
      ensures Valid() && nodes == SortNodes(old(nodes), cmp)
    {
      hide Linked, BackLinked, Distinct, SortNodes;
      ghost var s := nodes;
      SortPermutes(s, cmp);
      SameNodes(SortNodes(s, cmp), s);
      head := SortChain(head, len, cmp, s);
      nodes := SortNodes(s, cmp);
      RelinkPrev(nodes);
    }

    /** tda_list_sort: the stable order of the same nodes, whatever `prev` was in between. */
    method Sort(cmp: (T, T) -> int)
      requires Valid()
      modifies this, nodes
      ensures Valid() && multiset(nodes) == multiset(old(nodes))
      ensures forall k :: 0 <= k < |nodes| ==> nodes[k] in old(nodes)
      ensures TotalPreorder(cmp) ==> StableOrder(nodes, old(nodes), cmp)
    {
      hide Shape, TotalPreorder, StableOrder;
      ghost var s := nodes;
      SortPermutes(s, cmp);
      Among(SortNodes(s, cmp), s);
      if TotalPreorder(cmp) {
        SortIsStable(s, cmp);
      }
      LengthIs();
      if len >= 2 {
        SortLinks(cmp);
      }
    }

    lemma Among(s: seq<Node<T>>, t: seq<Node<T>>)
      requires multiset(s) == multiset(t)
      ensures forall k :: 0 <= k < |s| ==> s[k] in t
    {
      forall k | 0 <= k < |s| ensures s[k] in t {
        assert s[k] in multiset(s);
      }
    }

    lemma LengthIs()
      requires Valid()
      ensures len == |nodes|
    {
    }

    method MergeLinks(src: List<T>, cmp: (T, T) -> int)
      requires Valid() && src.Valid() && this != src && Distinct(nodes + src.nodes)
      modifies this, src, nodes, src.nodes
      ensures Valid() && src.Valid() && src.nodes == []
      ensures nodes == Merge(old(nodes), old(src.nodes), ByElem(cmp))
    {
      hide Linked, BackLinked, Distinct, Merge;
      ghost var a, b := nodes, src.nodes;
      WeaveStart(a, b, cmp);
      head := MergeChains(head, src.head, cmp, a, b);
      len, nodes := len + src.len, Merge(a, b, ByElem(cmp));
      RelinkPrev(nodes);
      src.Forget();
    }

    method Forget()
      modifies this
      ensures Valid() && nodes == []
    {
      head, tail, len, nodes := null, null, 0, [];
      EmptyShape<T>();
    }

    /** merge_into: both sorted; `src` is left empty. */
    method MergeInto(src: List<T>, cmp: (T, T) -> int)
      requires Valid() && src.Valid() && this != src && Distinct(nodes + src.nodes)
      modifies this, src, nodes, src.nodes
      ensures Valid() && src.Valid() && src.nodes == [] && multiset(nodes) == multiset(old(nodes) + old(src.nodes))
      ensures forall k :: 0 <= k < |nodes| ==> nodes[k] in old(nodes) || nodes[k] in old(src.nodes)
      ensures TotalPreorder(cmp) && Sorted(old(nodes), ByElem(cmp)) && Sorted(old(src.nodes), ByElem(cmp))
              ==> StableOrder(nodes, old(nodes) + old(src.nodes), cmp)
    {
      hide Shape, Distinct, TotalPreorder, StableOrder, Sorted, Merge, Weaving;
      ghost var a, b := nodes, src.nodes;
      WeaveStart(a, b, cmp);
      if TotalPreorder(cmp) && Sorted(a, ByElem(cmp)) && Sorted(b, ByElem(cmp)) {
        MergeIsStableOrder(a, b, cmp);
      }
      MergeLinks(src, cmp);
    }

    method SwapLinks(ghost s: seq<Node<T>>)
      requires s == nodes && Valid()
      modifies nodes
      ensures Flipped(s)
    {
      var cur := head;
      ghost var n := 0;
      while cur != null
        invariant n <= |s| && cur == At(s, n)
        invariant forall k :: n <= k < |s| ==> s[k].next == At(s, k + 1) && s[k].prev == At(s, k - 1)
        invariant forall k :: 0 <= k < n ==> s[k].next == At(s, k - 1) && s[k].prev == At(s, k + 1)
        decreases |s| - n
      {
        assert cur == s[n] && forall k :: 0 <= k < |s| && k != n ==> s[k] != cur;
        var next := cur.next;
        cur.next, cur.prev := cur.prev, cur.next;
        cur, n := next, n + 1;
      }
    }

    /** link_chain: a chain goes in between two neighbours; a null one stands for that end. */
    method LinkChain(first: Node<T>, last: Node<T>, count: nat, prev: Node?<T>, next: Node?<T>,
                     ghost a: seq<Node<T>>, ghost c: seq<Node<T>>, ghost b: seq<Node<T>>)
      requires Valid() && nodes == a + b && prev == At(a, |a| - 1) && next == At(b, 0)
      requires |c| == count > 0 && first == c[0] && last == c[|c| - 1] && Inner(c) && Distinct(a + c + b)
      modifies this, a, b, c
      ensures Valid() && nodes == a + c + b
    {
      hide Distinct, Inner, Linked, BackLinked, Meet;
      Parts(a, b);
      Stitch(first, last, prev, next, a, c, b);
      if prev == null {
        head := first;
      }
      if next == null {
        tail := last;
      }
      len := len + count;
      nodes := a + c + b;
      Join3(a, c, b);
    }

    /** unlink_node: its neighbours close over it; its own links keep what they were. */
    method UnlinkNode(node: Node<T>, ghost a: seq<Node<T>>, ghost b: seq<Node<T>>)
      requires Valid() && nodes == a + [node] + b
      modifies this, a, b
      ensures Valid() && nodes == a + b
    {
      hide Distinct, Inner, Linked, BackLinked, Meet;
      Around(a, node, b);
      Unstitch(node.prev, node.next, a, b);
      if node.prev == null {
        head := node.next;
      }
      if node.next == null {
        tail := node.prev;
      }
      len := len - 1;
      nodes := a + b;
      Join2(a, b);
    }

    /** insert_between, for push_front, push_back, insert_before and insert_after. */
    method InsertBetween(val: T, prev: Node?<T>, next: Node?<T>, granted: bool, ghost a: seq<Node<T>>,
                         ghost b: seq<Node<T>>)
      returns (status: Status, ghost added: Node?<T>)
      requires Valid() && nodes == a + b && prev == At(a, |a| - 1) && next == At(b, 0)
      modifies this, a, b
      ensures Valid() && (status == Ok <==> granted)
      ensures status == NoMem ==> nodes == old(nodes)
      ensures status == Ok ==> added != null && fresh(added) && added.elem == val && nodes == a + [added] + b
    {
      hide Distinct, Inner, Linked, BackLinked;
      status, added := NoMem, null;
      if granted {
        var node := new Node(val);
        OneMore(a, node, b);
        LinkChain(node, node, 1, prev, next, a, [node], b);
        status, added := Ok, node;
      }
    }

    /** prev_of: the node an insert before `at` goes after. */
    method PrevOf(at: Node?<T>, ghost a: seq<Node<T>>, ghost b: seq<Node<T>>) returns (prev: Node?<T>)
      requires Valid() && nodes == a + b && at == At(b, 0)
      ensures prev == At(a, |a| - 1)
    {
      assert b != [] ==> nodes[|a|] == b[0] && nodes[|a|].prev == At(nodes, |a| - 1);
      assert b == [] ==> nodes == a;
      prev := if at != null then at.prev else tail;
    }

    /**
     tda_list_splice_node: one node moves before `at`, within a list or between two.  Between lists of
     two allocators its element goes into a new node, which may be refused; the old one goes.
     */
    method SpliceNode(at: Node?<T>, src: List<T>, node: Node<T>, sameAl: bool, granted: bool, ghost x: seq<Node<T>>,
                      ghost y: seq<Node<T>>, ghost a: seq<Node<T>>, ghost b: seq<Node<T>>)
      returns (status: Status, ghost moved: Node?<T>)
      requires Valid() && src.Valid() && src.nodes == x + [node] + y && at == At(b, 0)
      requires if src == this then a + b == x + y else nodes == a + b && Distinct(nodes + src.nodes)
      requires src == this ==> sameAl
      modifies this, src, nodes, src.nodes
      ensures Valid() && src.Valid() && (status == Ok <==> sameAl || granted)
      ensures status == NoMem ==> nodes == old(nodes) && src.nodes == old(src.nodes)
      ensures status == Ok ==> moved != null && moved.elem == node.elem && nodes == a + [moved] + b
      ensures status == Ok ==> if sameAl then moved == node else fresh(moved)
      ensures status == Ok && src != this ==> src.nodes == x + y
    {
      hide Distinct, Shape;
      if !sameAl {
        status, moved := CopyAcross(at, src, node, granted, x, y, a, b);
      } else {
        Relocate(at, src, node, x, y, a, b);
        status, moved := Ok, node;
      }
    }

    /** The element moves into a node of this list's own. */
    method CopyAcross(at: Node?<T>, src: List<T>, node: Node<T>, granted: bool, ghost x: seq<Node<T>>,
                      ghost y: seq<Node<T>>, ghost a: seq<Node<T>>, ghost b: seq<Node<T>>)
      returns (status: Status, ghost moved: Node?<T>)
      requires Valid() && src.Valid() && src.nodes == x + [node] + y && at == At(b, 0)
      requires src != this && nodes == a + b && Distinct(nodes + src.nodes)
      modifies this, src, nodes, src.nodes
      ensures Valid() && src.Valid() && (status == Ok <==> granted)
      ensures status == NoMem ==> nodes == old(nodes) && src.nodes == old(src.nodes)
      ensures status == Ok ==> moved != null && fresh(moved) && moved.elem == node.elem && nodes == a + [moved] + b
      ensures status == Ok ==> src.nodes == x + y
    {
      hide Distinct, Linked, BackLinked;
      MoveApart(nodes, src.nodes, x, node, y, a, b, false);
      var prev := PrevOf(at, a, b);
      status, moved := InsertBetween(node.elem, prev, at, granted, a, b);
      if status == Ok {
        src.UnlinkNode(node, x, y);
      }
    }

    /** The node itself moves. */
    method Relocate(at: Node?<T>, src: List<T>, node: Node<T>, ghost x: seq<Node<T>>, ghost y: seq<Node<T>>,
                      ghost a: seq<Node<T>>, ghost b: seq<Node<T>>)
      requires Valid() && src.Valid() && src.nodes == x + [node] + y && at == At(b, 0)
      requires if src == this then a + b == x + y else nodes == a + b && Distinct(nodes + src.nodes)
      modifies this, src, nodes, src.nodes
      ensures Valid() && src.Valid() && nodes == a + [node] + b
      ensures src != this ==> src.nodes == x + y
    {
      hide Distinct, Inner, Linked, BackLinked;
      MoveApart(nodes, src.nodes, x, node, y, a, b, src == this);
      src.UnlinkNode(node, x, y);
      Single(node);
      var prev := PrevOf(at, a, b);
      LinkChain(node, node, 1, prev, at, a, [node], b);
    }

    method TakeAll(src: List<T>, prev: Node?<T>, next: Node?<T>, ghost a: seq<Node<T>>, ghost b: seq<Node<T>>)
      requires Valid() && src.Valid() && this != src && Distinct(a + src.nodes + b) && src.nodes != []
      requires nodes == a + b && prev == At(a, |a| - 1) && next == At(b, 0)
      modifies this, src, a, b, src.nodes
      ensures Valid() && src.Valid() && src.nodes == [] && nodes == a + old(src.nodes) + b
    {
      hide Distinct, Inner, Linked, BackLinked;
      WholeIsInner(src.nodes);
      LinkChain(src.head, src.tail, src.len, prev, next, a, src.nodes, b);
      src.head, src.tail, src.len, src.nodes := null, null, 0, [];
      EmptyShape<T>();
    }

    /** splice_front and splice_back: all the nodes of `src`, which is left empty. */
    method SpliceAll(src: List<T>, front: bool)
      requires Valid() && src.Valid() && this != src && Distinct(nodes + src.nodes)
      modifies this, src, nodes, src.nodes
      ensures Valid() && src.Valid() && src.nodes == []
      ensures nodes == if front then old(src.nodes) + old(nodes) else old(nodes) + old(src.nodes)
    {
      hide Distinct, Linked, BackLinked;
      EitherEnd(nodes, src.nodes, front);
      if src.len > 0 {
        if front {
          TakeAll(src, null, head, [], nodes);
        } else {
          TakeAll(src, tail, null, nodes, []);
        }
      }
    }

    /** tda_list_reverse: the two links of each node are swapped, then the two ends. */
    method Reverse()
      requires Valid()
      modifies this, nodes
      ensures Valid() && nodes == Reversed(old(nodes)) && forall k :: 0 <= k < |nodes| ==> nodes[k] in old(nodes)
    {
      hide Reversed, Flipped, Linked, BackLinked, Distinct;
      SwapLinks(nodes);
      ReversedShape(nodes);
      ReversedMultiset(nodes);
      Among(Reversed(nodes), nodes);
      head, tail := tail, head;
      nodes := Reversed(nodes);
    }
  }

  // ----- parts of a list

  /** Nothing but the first node's `prev` and the last node's `next` is open. */
  ghost predicate Closed<T>(s: seq<Node<T>>)
    reads s
  {
    s != [] ==> s[0].prev == null && s[|s| - 1].next == null
  }

  lemma Parts<T>(a: seq<Node<T>>, b: seq<Node<T>>)
    requires Linked(a + b, 0) && BackLinked(a + b)
    ensures Inner(a) && Inner(b) && (a != [] ==> a[0].prev == null) && (b != [] ==> b[|b| - 1].next == null)
    ensures At(a + b, 0) == if a != [] then a[0] else At(b, 0)
    ensures At(a + b, |a + b| - 1) == if b != [] then b[|b| - 1] else At(a, |a| - 1)
  {
    var s := a + b;
    assert forall k :: 0 <= k < |a| ==> a[k] == s[k];
    assert forall k :: 0 <= k < |b| ==> b[k] == s[|a| + k];
  }

  /** What is first or last in one part of a sequence of distinct nodes is nowhere else in it. */
  ghost predicate OpenNext<T>(x: Node<T>, part: seq<Node<T>>) {
    forall k :: 0 <= k < |part| - 1 ==> part[k] != x
  }

  ghost predicate OpenPrev<T>(x: Node<T>, part: seq<Node<T>>) {
    forall k :: 0 < k < |part| ==> part[k] != x
  }

  lemma Ends3<T>(a: seq<Node<T>>, c: seq<Node<T>>, b: seq<Node<T>>)
    requires Distinct(a + c + b)
    ensures a != [] ==> var x := a[|a| - 1]; OpenNext(x, a) && OpenNext(x, c) && OpenNext(x, b)
    ensures c != [] ==> var x := c[|c| - 1]; OpenNext(x, a) && OpenNext(x, c) && OpenNext(x, b)
    ensures c != [] ==> var x := c[0]; OpenPrev(x, a) && OpenPrev(x, c) && OpenPrev(x, b)
    ensures b != [] ==> var x := b[0]; OpenPrev(x, a) && OpenPrev(x, c) && OpenPrev(x, b)
    ensures b != [] ==> (c != [] ==> b[|b| - 1] != c[|c| - 1]) && (a != [] ==> b[|b| - 1] != a[|a| - 1])
    ensures a != [] ==> (c != [] ==> a[0] != c[0]) && (b != [] ==> a[0] != b[0])
    ensures c != [] ==> (b != [] ==> c[0] != b[0]) && (a != [] ==> c[|c| - 1] != a[|a| - 1])
  {
    var s := a + c + b;
    assert forall k :: 0 <= k < |a| ==> a[k] == s[k];
    assert forall k :: 0 <= k < |c| ==> c[k] == s[|a| + k];
    assert forall k :: 0 <= k < |b| ==> b[k] == s[|a| + |c| + k];
  }

  method SetNext<T>(x: Node<T>, y: Node?<T>, ghost a: seq<Node<T>>, ghost c: seq<Node<T>>, ghost b: seq<Node<T>>)
    requires Inner(a) && Inner(c) && Inner(b) && OpenNext(x, a) && OpenNext(x, c) && OpenNext(x, b)
    modifies x`next
    ensures Inner(a) && Inner(c) && Inner(b) && x.next == y
  {
    x.next := y;
  }

  method SetPrev<T>(x: Node<T>, y: Node?<T>, ghost a: seq<Node<T>>, ghost c: seq<Node<T>>, ghost b: seq<Node<T>>)
    requires Inner(a) && Inner(c) && Inner(b) && OpenPrev(x, a) && OpenPrev(x, c) && OpenPrev(x, b)
    modifies x`prev
    ensures Inner(a) && Inner(c) && Inner(b) && x.prev == y
  {
    x.prev := y;
  }

  /** The end of a and the start of b point at each other. */
  ghost predicate Meet<T>(a: seq<Node<T>>, b: seq<Node<T>>)
    reads a, b
  {
    a != [] && b != [] ==> a[|a| - 1].next == b[0] && b[0].prev == a[|a| - 1]
  }

  /** The link writes of link_chain. */
  method Stitch<T>(first: Node<T>, last: Node<T>, prev: Node?<T>, next: Node?<T>,
                   ghost a: seq<Node<T>>, ghost c: seq<Node<T>>, ghost b: seq<Node<T>>)
    requires prev == At(a, |a| - 1) && next == At(b, 0) && c != [] && first == c[0] && last == c[|c| - 1]
    requires Inner(a) && Inner(c) && Inner(b) && Distinct(a + c + b)
    requires (a != [] ==> a[0].prev == null) && (b != [] ==> b[|b| - 1].next == null)
    modifies a, b, c
    ensures Inner(a) && Inner(c) && Inner(b) && Meet(a, c) && Meet(c, b)
    ensures (if a != [] then a[0] else c[0]).prev == null && (if b != [] then b[|b| - 1] else c[|c| - 1]).next == null
  {
    hide Distinct, Inner, OpenNext, OpenPrev;
    Ends3(a, c, b);
    SetPrev(first, prev, a, c, b);
    SetNext(last, next, a, c, b);
    if prev != null {
      SetNext(prev, first, a, c, b);
    }
    if next != null {
      SetPrev(next, last, a, c, b);
    }
  }

  lemma Join<T>(a: seq<Node<T>>, b: seq<Node<T>>)
    requires Inner(a) && Inner(b) && Meet(a, b)
    ensures Inner(a + b)
  {
    var s := a + b;
    forall k | 0 <= k < |s| - 1 ensures s[k].next == At(s, k + 1) {
      if k < |a| {
        assert s[k] == a[k];
      } else {
        assert s[k] == b[k - |a|];
      }
    }
    forall k | 0 < k < |s| ensures s[k].prev == At(s, k - 1) {
      if k < |a| {
        assert s[k] == a[k];
      } else {
        assert s[k] == b[k - |a|];
      }
    }
  }

  /** The nodes on both sides of one node, and what its links say of them. */
  lemma Around<T>(a: seq<Node<T>>, node: Node<T>, b: seq<Node<T>>)
    requires Linked(a + [node] + b, 0) && BackLinked(a + [node] + b) && Distinct(a + [node] + b)
    ensures Inner(a) && Inner(b) && node.prev == At(a, |a| - 1) && node.next == At(b, 0)
    ensures (a != [] ==> a[0].prev == null) && (b != [] ==> b[|b| - 1].next == null)
    ensures Distinct(a + b) && node !in a && node !in b
    ensures At(a + [node] + b, 0) == (if a != [] then a[0] else node)
    ensures At(a + [node] + b, |a| + |b|) == if b != [] then b[|b| - 1] else node
  {
    var s := a + [node] + b;
    assert s == a + ([node] + b);
    OneLess(a, node, b);
    assert s[|a|].prev == At(s, |a| - 1) && s[|a|].next == At(s, |a| + 1) by {
      hide Inner;
    }
    hide Distinct, Linked, BackLinked;
    Parts(a, [node] + b);
    Parts(a + [node], b);
    assert b != [] ==> s[|a| + 1] == b[0];
  }

  lemma OneLess<T>(a: seq<Node<T>>, node: Node<T>, b: seq<Node<T>>)
    requires Distinct(a + [node] + b)
    ensures Distinct(a + b) && node !in a && node !in b
  {
    var s, r := a + [node] + b, a + b;
    assert forall k :: 0 <= k < |a| ==> r[k] == s[k];
    assert forall k :: |a| <= k < |r| ==> r[k] == s[k + 1];
    assert forall k :: 0 <= k < |a| ==> a[k] == s[k];
    assert forall k :: 0 <= k < |b| ==> b[k] == s[|a| + 1 + k];
    assert s[|a|] == node;
  }

  /** Where everything is when a node goes from between x and y to between a and b. */
  lemma MoveApart<T>(s: seq<Node<T>>, t: seq<Node<T>>, x: seq<Node<T>>, node: Node<T>, y: seq<Node<T>>,
                     a: seq<Node<T>>, b: seq<Node<T>>, same: bool)
    requires t == x + [node] + y && Distinct(t)
    requires if same then s == t && a + b == x + y else s == a + b && Distinct(s + t)
    ensures Distinct(a + [node] + b) && Inner([node]) && node in t
    ensures forall k :: 0 <= k < |x| ==> x[k] in t
    ensures forall k :: 0 <= k < |y| ==> y[k] in t
    ensures forall k :: 0 <= k < |a| ==> a[k] in s
    ensures forall k :: 0 <= k < |b| ==> b[k] in s
    ensures !same ==> forall k :: 0 <= k < |s| ==> s[k] !in t
    ensures !same ==> forall k :: 0 <= k < |x + y| ==> (x + y)[k] !in a && (x + y)[k] !in b && (x + y)[k] != node
  {
    assert t[|x|] == node;
    assert forall k :: 0 <= k < |x| ==> x[k] == t[k];
    assert forall k :: 0 <= k < |y| ==> y[k] == t[|x| + 1 + k];
    OneLess(x, node, y);
    var ab := a + b;
    assert forall k :: 0 <= k < |a| ==> a[k] == ab[k];
    assert forall k :: 0 <= k < |b| ==> b[k] == ab[|a| + k];
    if !same {
      DisjointParts(s, t);
      forall k | 0 <= k < |x + y| ensures (x + y)[k] !in a && (x + y)[k] !in b && (x + y)[k] != node {
        assert (x + y)[k] in t;
      }
    }
    OneMore(a, node, b);
  }

  lemma Single<T>(node: Node<T>)
    ensures Inner([node])
  {
  }

  lemma DisjointParts<T>(s: seq<Node<T>>, t: seq<Node<T>>)
    requires Distinct(s + t)
    ensures Distinct(s) && forall k :: 0 <= k < |s| ==> s[k] !in t
  {
    var u := s + t;
    assert forall k :: 0 <= k < |s| ==> s[k] == u[k];
    assert forall k :: 0 <= k < |t| ==> t[k] == u[|s| + k];
  }

  /** The link writes of unlink_node. */
  method Unstitch<T>(prev: Node?<T>, next: Node?<T>, ghost a: seq<Node<T>>, ghost b: seq<Node<T>>)
    requires prev == At(a, |a| - 1) && next == At(b, 0) && Inner(a) && Inner(b) && Distinct(a + b)
    requires (a != [] ==> a[0].prev == null) && (b != [] ==> b[|b| - 1].next == null)
    modifies a, b
    ensures Inner(a) && Inner(b) && Meet(a, b)
    ensures a + b != [] ==> && (if a != [] then a[0] else b[0]).prev == null
                            && (if b != [] then b[|b| - 1] else a[|a| - 1]).next == null
  {
    hide Distinct, Inner, OpenNext, OpenPrev;
    assert a + [] + b == a + b;
    Ends3(a, [], b);
    if prev != null {
      SetNext(prev, next, a, [], b);
    }
    if next != null {
      SetPrev(next, prev, a, [], b);
    }
  }

  lemma Join2<T>(a: seq<Node<T>>, b: seq<Node<T>>)
    requires Inner(a) && Inner(b) && Meet(a, b)
    requires a + b != [] ==> && (if a != [] then a[0] else b[0]).prev == null
                             && (if b != [] then b[|b| - 1] else a[|a| - 1]).next == null
    ensures Linked(a + b, 0) && BackLinked(a + b)
  {
    Join(a, b);
    Whole(a + b);
  }

  lemma OneMore<T>(a: seq<Node<T>>, node: Node<T>, b: seq<Node<T>>)
    requires Distinct(a + b) && node !in a + b
    ensures Distinct(a + [node] + b) && Inner([node])
  {
    var s, r := a + b, a + [node] + b;
    assert forall k :: 0 <= k < |a| ==> r[k] == s[k];
    assert forall k :: |a| < k < |r| ==> r[k] == s[k - 1];
  }

  lemma EitherEnd<T>(s: seq<Node<T>>, c: seq<Node<T>>, front: bool)
    requires Distinct(s + c)
    ensures var a: seq<Node<T>>, b: seq<Node<T>> := if front then [] else s, if front then s else [];
            && a + b == s && a + c + b == (if front then c + s else s + c) && Distinct(a + c + b)
  {
    var r: seq<Node<T>>, q: seq<Node<T>> := c + s, s + c;
    assert multiset(r) == multiset(q);
    SameNodes(r, q);
    assert [] + c + s == c + s && s + c + [] == s + c && s + [] == s;
  }

  lemma WholeIsInner<T>(c: seq<Node<T>>)
    requires Linked(c, 0) && BackLinked(c)
    ensures Inner(c)
  {
  }

  lemma Join3<T>(a: seq<Node<T>>, c: seq<Node<T>>, b: seq<Node<T>>)
    requires Inner(a) && Inner(c) && Inner(b) && c != [] && Meet(a, c) && Meet(c, b)
    requires (if a != [] then a[0] else c[0]).prev == null && (if b != [] then b[|b| - 1] else c[|c| - 1]).next == null
    ensures Linked(a + c + b, 0) && BackLinked(a + c + b)
  {
    Join(a, c);
    assert (a + c)[|a + c| - 1] == c[|c| - 1];
    Join(a + c, b);
    Whole(a + c + b);
  }

  lemma Whole<T>(s: seq<Node<T>>)
    requires Inner(s) && Closed(s)
    ensures Linked(s, 0) && BackLinked(s)
  {
  }

  lemma EmptyShape<T>()
    ensures Shape<T>([], null, null, 0)
  {
  }

  /** Every node has its two links the other way round. */
  ghost predicate Flipped<T>(s: seq<Node<T>>)
    reads s
  {
    forall k :: 0 <= k < |s| ==> s[k].next == At(s, k - 1) && s[k].prev == At(s, k + 1)
  }

  lemma ReversedShape<T>(s: seq<Node<T>>)
    requires Distinct(s) && Flipped(s)
    ensures Shape(Reversed(s), At(s, |s| - 1), At(s, 0), |s|)
  {
    hide Reversed;
    var r := Reversed(s);
    forall k | 0 <= k < |r| ensures r[k] == s[|s| - 1 - k] {
      ReversedAt(s, k);
    }
  }
}
