/**
 src/internal/heap.h and src/algo/heap.c over a range of an array that starts at `lo`;
 heap positions count from there.
 */
module Heap {
  import opened Order
  import opened Span

  function Parent(idx: nat): (p: nat)
    requires idx > 0
    ensures p < idx && (idx == 2 * p + 1 || idx == 2 * p + 2)
  {
    (idx - 1) / 2
  }

  /** No element of the first `len` orders after its parent, for the parents from `from` on. */
  ghost predicate HeapFrom<T>(h: seq<T>, from: nat, len: nat, cmp: (T, T) -> int)
    requires len <= |h|
  {
    forall c :: 0 < c < len && Parent(c) >= from ==> cmp(h[Parent(c)], h[c]) >= 0
  }

  /** The same but for the children of `idx`, which do not order after the parent of `idx` either. */
  ghost predicate HeapBut<T>(h: seq<T>, from: nat, len: nat, idx: nat, cmp: (T, T) -> int)
    requires len <= |h|
  {
    && (forall c :: 0 < c < len && Parent(c) >= from && Parent(c) != idx ==> cmp(h[Parent(c)], h[c]) >= 0)
    && (forall c :: 0 < c < len && idx > 0 && Parent(c) == idx && Parent(idx) >= from
          ==> cmp(h[Parent(idx)], h[c]) >= 0)
  }

  /** The child that goes up is at least as great as its sibling. */
  ghost predicate BestChild<T>(h: seq<T>, len: nat, idx: nat, best: nat, cmp: (T, T) -> int)
    requires len <= |h|
  {
    && 0 < best < len && Parent(best) == idx
    && forall c :: 0 < c < len && Parent(c) == idx ==> cmp(h[best], h[c]) >= 0
  }

  lemma SiftStep<T(!new)>(h: seq<T>, from: nat, len: nat, idx: nat, best: nat, cmp: (T, T) -> int)
    requires TotalPreorder(cmp) && len <= |h| && from <= idx
    requires HeapBut(h, from, len, idx, cmp) && BestChild(h, len, idx, best, cmp)
    requires cmp(h[idx], h[best]) < 0
    ensures HeapBut(Swapped(h, idx, best), from, len, best, cmp)
  {
    var g := Swapped(h, idx, best);
    forall c | 0 < c < len && Parent(c) >= from && Parent(c) != best ensures cmp(g[Parent(c)], g[c]) >= 0 {
      if c == idx {
        assert cmp(h[Parent(idx)], h[best]) >= 0;
      } else if Parent(c) == idx {
        assert c == best || cmp(h[best], h[c]) >= 0;
      } else {
        assert cmp(h[Parent(c)], h[c]) >= 0;
      }
    }
    forall c | 0 < c < len && Parent(c) == best ensures cmp(g[Parent(best)], g[c]) >= 0 {
      assert cmp(h[Parent(c)], h[c]) >= 0;
    }
  }

  lemma SiftEnd<T(!new)>(h: seq<T>, from: nat, len: nat, idx: nat, cmp: (T, T) -> int)
    requires len <= |h| && HeapBut(h, from, len, idx, cmp)
    requires forall c :: 0 < c < len && Parent(c) == idx ==> cmp(h[idx], h[c]) >= 0
    ensures HeapFrom(h, from, len, cmp)
  {
  }

  /** The root is the greatest. */
  lemma {:induction false} RootIsGreatest<T(!new)>(h: seq<T>, len: nat, k: nat, cmp: (T, T) -> int)
    requires TotalPreorder(cmp) && k < len <= |h| && HeapFrom(h, 0, len, cmp)
    ensures cmp(h[0], h[k]) >= 0
  {
    if k > 0 {
      RootIsGreatest(h, len, Parent(k), cmp);
      assert cmp(h[Parent(k)], h[k]) >= 0;
    }
  }

  /** The child of `idx` that tda_heap_sift_down compares with it; a tie takes the left one. */
  method ChooseChild<T(!new)>(a: array<T>, lo: nat, len: nat, idx: nat, cmp: (T, T) -> int, honest: bool)
    returns (best: nat)
    requires lo + len <= a.Length && 2 * idx + 1 < len && (honest ==> TotalPreorder(cmp))
    ensures 0 < best < len && Parent(best) == idx
    ensures honest ==> BestChild(a[..][lo..lo + len], len, idx, best, cmp)
  {
    var left, right := 2 * idx + 1, 2 * idx + 2;
    best := left;
    if right < len {
      var order := Ask(cmp, honest, a[lo + left], a[lo + right]);
      if order < 0 {
        best := right;
      }
    }
    ghost var h := a[..][lo..lo + len];
    assert h[left] == a[lo + left] && (right < len ==> h[right] == a[lo + right]);
    assert forall c :: 0 < c < len && Parent(c) == idx ==> c == left || c == right;
  }

  /** tda_heap_sift_down within the first `len` elements of the span at `lo`. */
  method SiftDown<T(!new)>(a: array<T>, lo: nat, start: nat, len: nat, ghost from: nat, cmp: (T, T) -> int,
                           honest: bool)
    requires lo + len <= a.Length && from <= start < len && (honest ==> TotalPreorder(cmp))
    requires honest ==> HeapBut(a[..][lo..lo + len], from, len, start, cmp)
    modifies a
    ensures Rearranged(a[..], old(a[..]), lo, lo + len)
    ensures honest ==> HeapFrom(a[..][lo..lo + len], from, len, cmp)
  {
    hide Rearranged, TotalPreorder, HeapBut, HeapFrom, BestChild, Swapped, Parent;
    ghost var s := a[..];
    var idx := start;
    RearrangedSame(s, lo, lo + len);
    while 2 * idx + 1 < len
      invariant from <= idx < len && Rearranged(a[..], s, lo, lo + len)
      invariant honest ==> HeapBut(a[..][lo..lo + len], from, len, idx, cmp)
      decreases len - idx
    {
      ghost var t := a[..];
      var best := ChooseChild(a, lo, len, idx, cmp, honest);
      assert a[..] == t;
      ghost var h := t[lo..lo + len];
      var order := Ask(cmp, honest, a[lo + idx], a[lo + best]);
      if order >= 0 {
        if honest {
          SiftStop(h, from, len, idx, best, cmp);
        }
        return;
      }
      if honest {
        SiftStep(h, from, len, idx, best, cmp);
      }
      SwapWithin(a, lo + idx, lo + best, s, lo, lo + len);
      SwapInSlice(t, lo, lo + len, idx, best);
      idx := best;
    }
    if honest {
      LeafIsHeap(a[..][lo..lo + len], from, len, idx, cmp);
    }
  }

  lemma SiftStop<T(!new)>(h: seq<T>, from: nat, len: nat, idx: nat, best: nat, cmp: (T, T) -> int)
    requires TotalPreorder(cmp) && len <= |h| && idx < len && HeapBut(h, from, len, idx, cmp)
    requires BestChild(h, len, idx, best, cmp) && cmp(h[idx], h[best]) >= 0
    ensures HeapFrom(h, from, len, cmp)
  {
    SiftEnd(h, from, len, idx, cmp);
  }

  lemma LeafIsHeap<T(!new)>(h: seq<T>, from: nat, len: nat, idx: nat, cmp: (T, T) -> int)
    requires len <= |h| && 2 * idx + 1 >= len && HeapBut(h, from, len, idx, cmp)
    ensures HeapFrom(h, from, len, cmp)
  {
  }

  /** tda_span_make_heap over [lo, lo + len). */
  method MakeHeap<T(!new)>(a: array<T>, lo: nat, len: nat, cmp: (T, T) -> int, honest: bool)
    requires lo + len <= a.Length && (honest ==> TotalPreorder(cmp))
    modifies a
    ensures Rearranged(a[..], old(a[..]), lo, lo + len)
    ensures honest ==> HeapFrom(a[..][lo..lo + len], 0, len, cmp)
  {
    hide Rearranged, TotalPreorder, HeapBut, HeapFrom;
    ghost var s := a[..];
    RearrangedSame(s, lo, lo + len);
    var i: nat := len / 2;
    LeavesAreHeaps(s[lo..lo + len], i, len, cmp);
    while i > 0
      invariant i <= len / 2 && Rearranged(a[..], s, lo, lo + len)
      invariant honest ==> HeapFrom(a[..][lo..lo + len], i, len, cmp)
    {
      ghost var t := a[..];
      HeapButRoot(t[lo..lo + len], i, len, cmp);
      SiftDown(a, lo, i - 1, len, i - 1, cmp, honest);
      RearrangedThen(a[..], t, s, lo, lo + len);
      i := i - 1;
    }
  }

  lemma LeavesAreHeaps<T>(h: seq<T>, i: nat, len: nat, cmp: (T, T) -> int)
    requires len <= |h| && i == len / 2
    ensures HeapFrom(h, i, len, cmp)
  {
  }

  lemma HeapButRoot<T>(h: seq<T>, i: nat, len: nat, cmp: (T, T) -> int)
    requires len <= |h| && i > 0
    ensures HeapFrom(h, i, len, cmp) ==> HeapBut(h, i - 1, len, i - 1, cmp)
  {
  }

  /** What sort_heap keeps: a heap of the first `len`, and behind it the sorted rest, none of it smaller. */
  ghost predicate HeapThenSorted<T>(h: seq<T>, len: nat, cmp: (T, T) -> int)
    requires len <= |h|
  {
    && HeapFrom(h, 0, len, cmp)
    && forall i, j :: 0 <= i < j < |h| && len <= j ==> cmp(h[i], h[j]) <= 0
  }

  /** tda_span_pop_heap: the greatest goes to the end of [lo, lo + len), the rest is a heap again. */
  method PopHeap<T(!new)>(a: array<T>, lo: nat, len: nat, cmp: (T, T) -> int, honest: bool)
    requires 0 < len && lo + len <= a.Length && (honest ==> TotalPreorder(cmp))
    requires honest ==> HeapFrom(a[..][lo..lo + len], 0, len, cmp)
    modifies a
    ensures Rearranged(a[..], old(a[..]), lo, lo + len)
    ensures a[..][lo + len - 1] == old(a[..])[lo]
    ensures honest ==> HeapFrom(a[..][lo..lo + len], 0, len - 1, cmp)
  {
    hide *;
    ghost var s := a[..];
    if len == 1 {
      PoppedOnly(s, lo, cmp);
    } else {
      Swap(a, lo, lo + (len - 1));
      ghost var t := a[..];
      PoppedRoot(s, lo, len, cmp);
      SiftDown(a, lo, 0, len - 1, 0, cmp, honest);
      ghost var u := a[..];
      PoppedEnd(u, t, lo, len, cmp, honest);
      SwapRearranges(s, lo, lo + (len - 1), lo, lo + len);
      RearrangedWider(u, t, lo, lo + (len - 1), lo, lo + len);
      RearrangedThen(u, t, s, lo, lo + len);
    }
  }

  lemma PoppedOnly<T>(s: seq<T>, lo: nat, cmp: (T, T) -> int)
    requires lo + 1 <= |s|
    ensures Rearranged(s, s, lo, lo + 1) && HeapFrom(s[lo..lo + 1], 0, 0, cmp)
  {
  }

  lemma PoppedRoot<T>(s: seq<T>, lo: nat, len: nat, cmp: (T, T) -> int)
    requires 1 < len && lo + len <= |s|
    ensures var t := Swapped(s, lo, lo + (len - 1));
            && t[lo + len - 1] == s[lo]
            && (HeapFrom(s[lo..lo + len], 0, len, cmp) ==> HeapBut(t[lo..lo + (len - 1)], 0, len - 1, 0, cmp))
  {
    var h, g := s[lo..lo + len], Swapped(s, lo, lo + (len - 1))[lo..lo + (len - 1)];
    assert forall k :: 0 < k < len - 1 ==> g[k] == h[k];
  }

  lemma PoppedEnd<T>(u: seq<T>, t: seq<T>, lo: nat, len: nat, cmp: (T, T) -> int, honest: bool)
    requires 1 < len && lo + len <= |t| && Rearranged(u, t, lo, lo + (len - 1))
    requires honest ==> HeapFrom(u[lo..lo + (len - 1)], 0, len - 1, cmp)
    ensures u[lo + len - 1] == t[lo + len - 1]
    ensures honest ==> HeapFrom(u[lo..lo + len], 0, len - 1, cmp)
  {
    assert u[lo + len - 1] == u[lo + (len - 1)..][0] == t[lo + (len - 1)..][0];
    var h, g := u[lo..lo + len], u[lo..lo + (len - 1)];
    assert forall k :: 0 <= k < len - 1 ==> g[k] == h[k];
  }

  /** One pop moves the greatest of the heap in front of the sorted rest. */
  lemma PopStep<T(!new)>(u: seq<T>, t: seq<T>, lo: nat, len: nat, hi: nat, cmp: (T, T) -> int)
    requires TotalPreorder(cmp) && 0 < len && lo + len <= hi <= |t| && Rearranged(u, t, lo, lo + len)
    requires HeapThenSorted(t[lo..hi], len, cmp) && u[lo + len - 1] == t[lo]
    requires HeapFrom(u[lo..lo + len], 0, len - 1, cmp)
    ensures HeapThenSorted(u[lo..hi], len - 1, cmp)
  {
    var h, g := t[lo..hi], u[lo..hi];
    assert HeapFrom(g, 0, len - 1, cmp) by {
      assert forall k :: 0 <= k < len ==> g[k] == u[lo..lo + len][k];
    }
    forall j | len <= j < hi - lo ensures g[j] == h[j] {
      assert u[lo + j] == u[lo + len..][j - len] == t[lo + len..][j - len];
    }
    assert g[len - 1] == h[0];
    forall i, j | 0 <= i < j < |g| && len - 1 <= j ensures cmp(g[i], g[j]) <= 0 {
      PopPair(u, t, lo, len, hi, i, j, cmp);
    }
  }

  lemma PopPair<T(!new)>(u: seq<T>, t: seq<T>, lo: nat, len: nat, hi: nat, i: nat, j: nat, cmp: (T, T) -> int)
    requires TotalPreorder(cmp) && 0 < len && lo + len <= hi <= |t| && Rearranged(u, t, lo, lo + len)
    requires HeapThenSorted(t[lo..hi], len, cmp) && u[lo + len - 1] == t[lo]
    requires i < j < hi - lo && len - 1 <= j
    requires forall k :: len <= k < hi - lo ==> u[lo..hi][k] == t[lo..hi][k]
    ensures cmp(u[lo..hi][i], u[lo..hi][j]) <= 0
  {
    var h := t[lo..hi];
    if i >= len {
      assert cmp(h[i], h[j]) <= 0;
    } else {
      var y := u[lo + j];
      assert y == if j >= len then h[j] else h[0];
      HeapBelow(h, len, j, cmp);
      BelowStays(u, t, lo, len, hi, y, cmp);
      assert u[lo + i] == u[lo..hi][i];
    }
  }

  /** The heap part does not exceed its root or anything behind it. */
  lemma HeapBelow<T(!new)>(h: seq<T>, len: nat, j: nat, cmp: (T, T) -> int)
    requires TotalPreorder(cmp) && 0 < len <= |h| && HeapThenSorted(h, len, cmp) && len - 1 <= j < |h|
    ensures forall k :: 0 <= k < len ==> cmp(h[k], if j >= len then h[j] else h[0]) <= 0
  {
    forall k | 0 <= k < len ensures cmp(h[k], if j >= len then h[j] else h[0]) <= 0 {
      RootIsGreatest(h, len, k, cmp);
    }
  }

  lemma BelowStays<T(!new)>(u: seq<T>, t: seq<T>, lo: nat, len: nat, hi: nat, y: T, cmp: (T, T) -> int)
    requires lo + len <= hi <= |t| && Rearranged(u, t, lo, lo + len)
    requires forall k :: 0 <= k < len ==> cmp(t[lo..hi][k], y) <= 0
    ensures forall k :: lo <= k < lo + len ==> cmp(u[k], y) <= 0
  {
    forall k | lo <= k < lo + len ensures cmp(t[k], y) <= 0 {
      assert t[k] == t[lo..hi][k - lo];
    }
    RearrangedAll(u, t, lo, lo + len, x => cmp(x, y) <= 0);
  }

  /** tda_span_sort_heap over [lo, lo + n). */
  method SortHeap<T(!new)>(a: array<T>, lo: nat, n: nat, cmp: (T, T) -> int, honest: bool)
    requires lo + n <= a.Length && (honest ==> TotalPreorder(cmp))
    requires honest ==> HeapFrom(a[..][lo..lo + n], 0, n, cmp)
    modifies a
    ensures Rearranged(a[..], old(a[..]), lo, lo + n)
    ensures honest ==> Sorted(a[..][lo..lo + n], cmp)
  {
    hide Rearranged, TotalPreorder, HeapFrom, HeapThenSorted;
    ghost var s := a[..];
    RearrangedSame(s, lo, lo + n);
    var len: nat := n;
    HeapAlone(s[lo..lo + n], cmp);
    while len > 1
      invariant len <= n && Rearranged(a[..], s, lo, lo + n)
      invariant honest ==> HeapThenSorted(a[..][lo..lo + n], len, cmp)
    {
      SortHeapStep(a, lo, len, n, cmp, honest, s);
      len := len - 1;
    }
    HeapSorted(a[..][lo..lo + n], len, cmp);
  }

  /** One round: the greatest of the heap goes in front of the sorted rest. */
  method SortHeapStep<T(!new)>(a: array<T>, lo: nat, len: nat, n: nat, cmp: (T, T) -> int, honest: bool,
                               ghost s: seq<T>)
    requires 0 < len <= n && lo + n <= a.Length == |s| && (honest ==> TotalPreorder(cmp))
    requires Rearranged(a[..], s, lo, lo + n) && (honest ==> HeapThenSorted(a[..][lo..lo + n], len, cmp))
    modifies a
    ensures Rearranged(a[..], s, lo, lo + n) && (honest ==> HeapThenSorted(a[..][lo..lo + n], len - 1, cmp))
  {
    hide *;
    ghost var t := a[..];
    HeapOfSlice(t, lo, len, lo + n, cmp);
    PopHeap(a, lo, len, cmp, honest);
    ghost var u := a[..];
    if honest {
      PopStep(u, t, lo, len, lo + n, cmp);
    }
    RearrangedWider(u, t, lo, lo + len, lo, lo + n);
    RearrangedThen(u, t, s, lo, lo + n);
  }

  lemma HeapAlone<T>(h: seq<T>, cmp: (T, T) -> int)
    ensures HeapFrom(h, 0, |h|, cmp) ==> HeapThenSorted(h, |h|, cmp)
  {
  }

  lemma HeapOfSlice<T>(t: seq<T>, lo: nat, len: nat, hi: nat, cmp: (T, T) -> int)
    requires lo + len <= hi <= |t|
    ensures HeapThenSorted(t[lo..hi], len, cmp) ==> HeapFrom(t[lo..lo + len], 0, len, cmp)
  {
    assert forall k :: 0 <= k < len ==> t[lo..hi][k] == t[lo..lo + len][k];
  }

  lemma HeapSorted<T>(h: seq<T>, len: nat, cmp: (T, T) -> int)
    requires len <= |h| && len <= 1
    ensures HeapThenSorted(h, len, cmp) ==> Sorted(h, cmp)
  {
  }
}
