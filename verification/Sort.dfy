/**
 src/algo/sort.c but for its stable sort and its selections: insertion sort and the three-way
 quicksort with its heapsort fallback.  Ranges are half open here.  With `honest` false
 the comparator may answer anything: the methods still end and still keep every element.
 */
module Sort {
  import opened Arith
  import opened Order
  import opened Span
  import opened Heap

  const INSERTION_THRESHOLD: nat := 16

  // ----- insertion sort

  /** insertion_slot: where the element at `idx` belongs among the sorted ones of [lo, idx). */
  method InsertionSlot<T(!new)>(a: array<T>, lo: nat, idx: nat, cmp: (T, T) -> int, honest: bool)
    returns (slot: nat)
    requires lo <= idx < a.Length && (honest ==> TotalPreorder(cmp) && Sorted(a[..][lo..idx], cmp))
    ensures lo <= slot <= idx
    ensures honest ==> forall k :: lo <= k < slot ==> cmp(a[..][k], a[..][idx]) <= 0
    ensures honest ==> forall k :: slot <= k < idx ==> cmp(a[..][idx], a[..][k]) < 0
  {
    ghost var s := a[..];
    slot := idx;
    while slot > lo
      invariant lo <= slot <= idx && a[..] == s
      invariant honest ==> forall k :: slot <= k < idx ==> cmp(s[idx], s[k]) < 0
    {
      var order := Ask(cmp, honest, a[idx], a[slot - 1]);
      if order >= 0 {
        if honest {
          NoneGreaterBelow(s, lo, slot, idx, cmp);
        }
        return;
      }
      slot := slot - 1;
    }
  }

  lemma NoneGreaterBelow<T(!new)>(s: seq<T>, lo: nat, slot: nat, idx: nat, cmp: (T, T) -> int)
    requires TotalPreorder(cmp) && lo < slot <= idx < |s| && Sorted(s[lo..idx], cmp)
    requires cmp(s[idx], s[slot - 1]) >= 0
    ensures forall k :: lo <= k < slot ==> cmp(s[k], s[idx]) <= 0
  {
    var p := s[lo..idx];
    assert p[slot - 1 - lo] == s[slot - 1];
    forall k | lo <= k < slot ensures cmp(s[k], s[idx]) <= 0 {
      assert p[k - lo] == s[k];
      assert k < slot - 1 ==> cmp(p[k - lo], p[slot - 1 - lo]) <= 0;
    }
  }

  /** The range [slot, idx] with its last element moved to the front. */
  ghost function Inserted<T>(s: seq<T>, slot: nat, idx: nat): (r: seq<T>)
    requires slot <= idx < |s|
    ensures |r| == |s|
  {
    Splice(s, slot, idx + 1, [s[idx]] + s[slot..idx])
  }

  /** Slides the run above the slot up by one, by one move or by a swap per step. */
  method InsertAt<T>(a: array<T>, slot: nat, idx: nat, held: bool)
    requires slot <= idx < a.Length
    modifies a
    ensures a[..] == Inserted(old(a[..]), slot, idx)
  {
    ghost var s := a[..];
    if held {
      var x := a[idx];
      forall k | slot < k <= idx {
        a[k] := a[k - 1];
      }
      a[slot] := x;
    } else {
      var k := idx;
      while k > slot
        invariant slot <= k <= idx && a[k] == s[idx]
        invariant forall j :: k < j <= idx ==> a[j] == s[j - 1]
        invariant forall j :: 0 <= j < k || idx < j < a.Length ==> a[j] == s[j]
      {
        a[k - 1], a[k] := a[k], a[k - 1];
        k := k - 1;
      }
    }
    SlidUp(a[..], s, slot, idx);
  }

  lemma SlidUp<T>(r: seq<T>, s: seq<T>, slot: nat, idx: nat)
    requires slot <= idx < |s| == |r| && r[slot] == s[idx]
    requires forall j :: slot < j <= idx ==> r[j] == s[j - 1]
    requires forall j :: 0 <= j < slot || idx < j < |s| ==> r[j] == s[j]
    ensures r == Inserted(s, slot, idx)
  {
    assert r[slot..idx + 1] == [s[idx]] + s[slot..idx];
    SpliceFrom(r, s, slot, idx + 1);
  }

  /** Inserting an element after all that are not greater is merging it in from the right. */
  lemma InsertIsMerge<T(!new)>(l: seq<T>, g: seq<T>, x: T, cmp: (T, T) -> int)
    requires TotalPreorder(cmp) && Sorted(l + g, cmp)
    requires forall k :: 0 <= k < |l| ==> cmp(l[k], x) <= 0
    requires forall k :: 0 <= k < |g| ==> cmp(x, g[k]) < 0
    ensures Merge(l + g, [x], cmp) == l + [x] + g
  {
    hide Sorted, TotalPreorder, Merge;
    var none: seq<T> := [];
    assert [x] + none == [x];
    SortedOne(x, cmp);
    MergeByCuts(l, g, [x], none, cmp);
    SortedParts(l, g, cmp);
    assert l + none == l && none + [x] == [x];
    MergeByCuts(l, none, none, [x], cmp);
    MergeNone(l, cmp);
    MergeNone(g, cmp);
    MergeNone([x], cmp);
  }

  lemma SortedOne<T>(x: T, cmp: (T, T) -> int)
    ensures Sorted([x], cmp)
  {
  }

  /** After the insertion at `idx` the prefix one longer is sorted stably. */
  lemma InsertStep<T(!new)>(t: seq<T>, s: seq<T>, lo: nat, slot: nat, idx: nat, cmp: (T, T) -> int)
    requires TotalPreorder(cmp) && lo <= slot <= idx < |s| == |t|
    requires StableSortOf(t[lo..idx], s[lo..idx], cmp) && t[idx] == s[idx]
    requires forall k :: lo <= k < slot ==> cmp(t[k], t[idx]) <= 0
    requires forall k :: slot <= k < idx ==> cmp(t[idx], t[k]) < 0
    ensures StableSortOf(Inserted(t, slot, idx)[lo..idx + 1], s[lo..idx + 1], cmp)
  {
    hide Sorted, TotalPreorder, Merge, SamePeers;
    var l, g, x := t[lo..slot], t[slot..idx], t[idx];
    assert t[lo..idx] == l + g;
    InsertIsMerge(l, g, x, cmp);
    SortedOne(x, cmp);
    MergeIsStable(l + g, [x], cmp);
    assert s[lo..idx + 1] == s[lo..idx] + [x];
    SamePeersRefl([x], cmp);
    SamePeersConcat(l + g, s[lo..idx], [x], [x], cmp);
    StableTransitive(l + [x] + g, l + g + [x], s[lo..idx + 1], cmp);
    assert Inserted(t, slot, idx)[lo..idx + 1] == l + [x] + g;
  }

  lemma SamePeersRefl<T(!new)>(s: seq<T>, cmp: (T, T) -> int)
    ensures SamePeers(s, s, cmp)
  {
  }

  lemma InsertRearranges<T>(t: seq<T>, lo: nat, slot: nat, idx: nat, hi: nat)
    requires lo <= slot <= idx < hi <= |t|
    ensures Rearranged(Inserted(t, slot, idx), t, lo, hi)
    ensures forall k :: idx < k < |t| ==> Inserted(t, slot, idx)[k] == t[k]
  {
    hide Splice, Rearranged;
    assert t[slot..idx + 1] == t[slot..idx] + [t[idx]];
    SpliceSlices(t, slot, idx + 1, [t[idx]] + t[slot..idx]);
    forall k | idx < k < |t| ensures Inserted(t, slot, idx)[k] == t[k] {
      assert Inserted(t, slot, idx)[idx + 1..][k - idx - 1] == t[idx + 1..][k - idx - 1];
    }
    SpliceRearranges(t, slot, idx + 1, [t[idx]] + t[slot..idx]);
    RearrangedWider(Inserted(t, slot, idx), t, slot, idx + 1, lo, hi);
  }

  /** tda_span_insertion_sort: stable; `held` when an element is small enough to set aside. */
  method InsertionSort<T(!new)>(a: array<T>, lo: nat, hi: nat, cmp: (T, T) -> int, held: bool, honest: bool)
    requires lo <= hi <= a.Length && (honest ==> TotalPreorder(cmp))
    modifies a
    ensures Rearranged(a[..], old(a[..]), lo, hi)
    ensures honest ==> StableSortOf(a[..][lo..hi], old(a[..])[lo..hi], cmp)
  {
    hide Rearranged, TotalPreorder, StableSortOf, Inserted;
    ghost var s := a[..];
    RearrangedSame(s, lo, hi);
    if hi - lo < 2 {
      ShortIsStable(s[lo..hi], cmp);
      return;
    }
    var i := lo + 1;
    ShortIsStable(s[lo..i], cmp);
    while i < hi
      invariant lo < i <= hi && Rearranged(a[..], s, lo, hi)
      invariant forall k :: i <= k < |s| ==> a[..][k] == s[k]
      invariant honest ==> StableSortOf(a[..][lo..i], s[lo..i], cmp)
    {
      ghost var t := a[..];
      if honest {
        StableIsSorted(t[lo..i], s[lo..i], cmp);
      }
      var j := InsertionSlot(a, lo, i, cmp, honest);
      assert a[..] == t;
      if honest {
        InsertStep(t, s, lo, j, i, cmp);
      }
      InsertAt(a, j, i, held);
      InsertRearranges(t, lo, j, i, hi);
      RearrangedThen(a[..], t, s, lo, hi);
      i := i + 1;
    }
  }

  lemma ShortIsStable<T(!new)>(s: seq<T>, cmp: (T, T) -> int)
    requires |s| < 2
    ensures StableSortOf(s, s, cmp)
  {
  }

  lemma StableIsSorted<T(!new)>(r: seq<T>, s: seq<T>, cmp: (T, T) -> int)
    requires StableSortOf(r, s, cmp)
    ensures Sorted(r, cmp)
  {
  }

  // ----- the pivot

  /** median3: under any comparator one of the three, under an order the one between. */
  method Median3<T(!new)>(a: array<T>, x: nat, y: nat, z: nat, cmp: (T, T) -> int, honest: bool) returns (m: nat)
    requires x < a.Length && y < a.Length && z < a.Length && (honest ==> TotalPreorder(cmp))
    ensures m == x || m == y || m == z
    ensures honest ==> Between(a[x], a[y], a[z], a[m], cmp)
  {
    var xy := Ask(cmp, honest, a[x], a[y]);
    var xz := Ask(cmp, honest, a[x], a[z]);
    var yz := Ask(cmp, honest, a[y], a[z]);
    if (xy <= 0 && xz >= 0) || (xy >= 0 && xz <= 0) {
      m := x;
    } else if (xy <= 0 && yz <= 0) || (xy >= 0 && yz >= 0) {
      m := y;
    } else {
      m := z;
    }
  }

  /** How many of the three are not greater than m. */
  ghost function NotAbove<T>(x: T, y: T, z: T, m: T, cmp: (T, T) -> int): nat {
    (if cmp(x, m) <= 0 then 1 else 0) + (if cmp(y, m) <= 0 then 1 else 0) + if cmp(z, m) <= 0 then 1 else 0
  }

  /** How many of the three are not smaller. */
  ghost function NotBelow<T>(x: T, y: T, z: T, m: T, cmp: (T, T) -> int): nat {
    (if cmp(m, x) <= 0 then 1 else 0) + (if cmp(m, y) <= 0 then 1 else 0) + if cmp(m, z) <= 0 then 1 else 0
  }

  ghost predicate Between<T>(x: T, y: T, z: T, m: T, cmp: (T, T) -> int)
  {
    NotAbove(x, y, z, m, cmp) >= 2 && NotBelow(x, y, z, m, cmp) >= 2
  }

  /** Nine samples: three of each of three triples, `step` apart. */
  ghost predicate Central<T>(s: seq<T>, left: nat, mid: nat, right: nat, step: nat, m: T, cmp: (T, T) -> int)
    requires left + 2 * step <= right < |s| && left + step <= mid && mid + step <= right
  {
    && NotAbove(s[left], s[left + step], s[left + 2 * step], m, cmp)
       + NotAbove(s[mid - step], s[mid], s[mid + step], m, cmp)
       + NotAbove(s[right - 2 * step], s[right - step], s[right], m, cmp) >= 4
    && NotBelow(s[left], s[left + step], s[left + 2 * step], m, cmp)
       + NotBelow(s[mid - step], s[mid], s[mid + step], m, cmp)
       + NotBelow(s[right - 2 * step], s[right - step], s[right], m, cmp) >= 4
  }

  /**
   ninther: the median of three medians taken across [left, right].  Of the nine elements sampled at
   least four are not greater than it and at least four are not smaller.
   */
  method Ninther<T(!new)>(a: array<T>, left: nat, right: nat, cmp: (T, T) -> int, honest: bool) returns (pivot: nat)
    requires left <= right < a.Length && (honest ==> TotalPreorder(cmp))
    ensures left <= pivot <= right
    ensures var len := right - left + 1;
            honest ==> Central(a[..], left, left + len / 2, right, len / 8, a[pivot], cmp)
  {
    hide TotalPreorder, Central;
    var len := right - left + 1;
    pivot := MedianOfMedians(a, left, left + len / 2, right, len / 8, cmp, honest);
  }

  method MedianOfMedians<T(!new)>(a: array<T>, left: nat, mid: nat, right: nat, step: nat, cmp: (T, T) -> int,
                                  honest: bool)
    returns (pivot: nat)
    requires left + 2 * step <= right < a.Length && left + step <= mid && mid + step <= right
    requires honest ==> TotalPreorder(cmp)
    ensures left <= pivot <= right && (honest ==> Central(a[..], left, mid, right, step, a[pivot], cmp))
  {
    hide TotalPreorder, Between, Central;
    var lo := Median3(a, left, left + step, left + 2 * step, cmp, honest);
    var md := Median3(a, mid - step, mid, mid + step, cmp, honest);
    var hi := Median3(a, right - 2 * step, right - step, right, cmp, honest);
    pivot := Median3(a, lo, md, hi, cmp, honest);
    if honest {
      CentralIs(a[..], left, mid, right, step, a[lo], a[md], a[hi], a[pivot], cmp);
    }
  }

  lemma CentralIs<T(!new)>(s: seq<T>, left: nat, mid: nat, right: nat, step: nat, lo: T, md: T, hi: T, p: T,
                           cmp: (T, T) -> int)
    requires left + 2 * step <= right < |s| && left + step <= mid && mid + step <= right && TotalPreorder(cmp)
    requires Between(s[left], s[left + step], s[left + 2 * step], lo, cmp)
    requires Between(s[mid - step], s[mid], s[mid + step], md, cmp)
    requires Between(s[right - 2 * step], s[right - step], s[right], hi, cmp)
    requires Between(lo, md, hi, p, cmp)
    ensures Central(s, left, mid, right, step, p, cmp)
  {
    hide TotalPreorder, Between, NotAbove, NotBelow;
    Spread(s[left], s[left + step], s[left + 2 * step], lo, p, cmp);
    Spread(s[mid - step], s[mid], s[mid + step], md, p, cmp);
    Spread(s[right - 2 * step], s[right - step], s[right], hi, p, cmp);
    TwoOfThree(lo, md, hi, p, cmp);
  }

  /** What is not smaller than a median is not smaller than two of its three; nor greater. */
  lemma Spread<T(!new)>(x: T, y: T, z: T, m: T, p: T, cmp: (T, T) -> int)
    requires TotalPreorder(cmp) && Between(x, y, z, m, cmp)
    ensures cmp(m, p) <= 0 ==> NotAbove(x, y, z, p, cmp) >= 2
    ensures cmp(p, m) <= 0 ==> NotBelow(x, y, z, p, cmp) >= 2
  {
  }

  lemma TwoOfThree<T(!new)>(x: T, y: T, z: T, p: T, cmp: (T, T) -> int)
    requires Between(x, y, z, p, cmp)
    ensures (cmp(x, p) <= 0 && cmp(y, p) <= 0) || (cmp(y, p) <= 0 && cmp(z, p) <= 0)
            || (cmp(x, p) <= 0 && cmp(z, p) <= 0)
    ensures (cmp(p, x) <= 0 && cmp(p, y) <= 0) || (cmp(p, y) <= 0 && cmp(p, z) <= 0)
            || (cmp(p, x) <= 0 && cmp(p, z) <= 0)
  {
  }

  // ----- the three-way split

  /** [left, lo) is smaller than the pivot, [lo, i) equal to it and (hi, right] greater. */
  ghost predicate Parted<T>(t: seq<T>, left: nat, lo: nat, i: nat, hi: nat, right: nat, pivot: T, cmp: (T, T) -> int)
    requires right < |t|
  {
    && left <= lo < i <= hi + 1 <= right + 1
    && (forall k :: left <= k < lo ==> cmp(t[k], pivot) < 0)
    && (forall k :: lo <= k < i ==> cmp(t[k], pivot) == 0)
    && (forall k :: hi < k <= right ==> cmp(t[k], pivot) > 0)
  }

  lemma PartStep<T(!new)>(t: seq<T>, left: nat, lo: nat, i: nat, hi: nat, right: nat, pivot: T, cmp: (T, T) -> int)
    requires TotalPreorder(cmp) && right < |t| && Parted(t, left, lo, i, hi, right, pivot, cmp) && i <= hi
    ensures cmp(t[i], t[lo]) < 0 ==> Parted(Swapped(t, i, lo), left, lo + 1, i + 1, hi, right, pivot, cmp)
    ensures cmp(t[i], t[lo]) > 0 ==> Parted(Swapped(t, i, hi), left, lo, i, hi - 1, right, pivot, cmp)
    ensures cmp(t[i], t[lo]) == 0 ==> Parted(t, left, lo, i + 1, hi, right, pivot, cmp)
  {
    assert cmp(t[lo], pivot) == 0;
  }

  /** partition3; `lt` and `gt` bound the elements equal to the pivot, both inclusive. */
  method Partition3<T(!new)>(a: array<T>, left: nat, right: nat, pivotIdx: nat, cmp: (T, T) -> int, honest: bool)
    returns (lt: nat, gt: nat)
    requires left <= pivotIdx <= right < a.Length && (honest ==> TotalPreorder(cmp))
    modifies a
    ensures left <= lt <= gt <= right
    ensures Rearranged(a[..], old(a[..]), left, right + 1)
    ensures honest ==> Parted(a[..], left, lt, gt + 1, gt, right, old(a[..])[pivotIdx], cmp)
  {
    hide Rearranged, Parted, Swapped, TotalPreorder;
    ghost var s := a[..];
    ghost var pivot := s[pivotIdx];
    RearrangedSame(s, left, right + 1);
    SwapWithin(a, left, pivotIdx, s, left, right + 1);
    if honest {
      PartStart(s, left, right, pivotIdx, cmp);
    }
    var lo: nat, i: nat, hi: nat := left, left + 1, right;
    while i <= hi
      invariant left <= lo < i <= hi + 1 <= right + 1
      invariant Rearranged(a[..], s, left, right + 1)
      invariant honest ==> Parted(a[..], left, lo, i, hi, right, pivot, cmp)
      decreases hi + 1 - i
    {
      var order := Ask(cmp, honest, a[i], a[lo]);
      if honest {
        PartStep(a[..], left, lo, i, hi, right, pivot, cmp);
      }
      if order < 0 {
        SwapWithin(a, i, lo, s, left, right + 1);
        lo, i := lo + 1, i + 1;
      } else if order > 0 {
        SwapWithin(a, i, hi, s, left, right + 1);
        hi := hi - 1;
      } else {
        i := i + 1;
      }
    }
    lt, gt := lo, hi;
  }

  lemma PartStart<T(!new)>(s: seq<T>, left: nat, right: nat, pivotIdx: nat, cmp: (T, T) -> int)
    requires TotalPreorder(cmp) && left <= pivotIdx <= right < |s|
    ensures Parted(Swapped(s, left, pivotIdx), left, left, left + 1, right, right, s[pivotIdx], cmp)
  {
  }

  // ----- quicksort

  /** Every pair of [lo, hi) is in order but those with both elements in the window [l, r). */
  ghost predicate OrderedBut<T>(t: seq<T>, lo: nat, hi: nat, l: nat, r: nat, cmp: (T, T) -> int)
    requires hi <= |t|
  {
    forall i, j :: lo <= i < j < hi && (i < l || r <= j) ==> cmp(t[i], t[j]) <= 0
  }

  /** After a split of the window the pairs out of order lie on one side of the pivot run. */
  ghost predicate OrderedButSides<T>(t: seq<T>, lo: nat, hi: nat, l: nat, lt: nat, gt: nat, r: nat, cmp: (T, T) -> int)
    requires hi <= |t|
  {
    forall i, j :: lo <= i < j < hi && (i < l || lt <= j) && (i <= gt || r <= j) ==> cmp(t[i], t[j]) <= 0
  }

  /** A pair with one element outside the rearranged range stays in order. */
  lemma PairStays<T(!new)>(u: seq<T>, t: seq<T>, x: nat, y: nat, i: nat, j: nat, cmp: (T, T) -> int)
    requires Rearranged(u, t, x, y) && i < j < |t| && (i < x || y <= j)
    requires forall k :: x <= k < y && i < x ==> cmp(t[i], t[k]) <= 0 || !(x <= j < y)
    requires forall k :: x <= k < y && y <= j ==> cmp(t[k], t[j]) <= 0 || !(x <= i < y)
    requires !(x <= i < y) && !(x <= j < y) ==> cmp(t[i], t[j]) <= 0
    ensures cmp(u[i], u[j]) <= 0
  {
    Outside(u, t, x, y, i);
    Outside(u, t, x, y, j);
    if x <= j < y {
      RearrangedAll(u, t, x, y, v => cmp(t[i], v) <= 0);
    } else if x <= i < y {
      RearrangedAll(u, t, x, y, v => cmp(v, t[j]) <= 0);
    }
  }

  lemma Outside<T>(u: seq<T>, t: seq<T>, x: nat, y: nat, k: nat)
    requires Rearranged(u, t, x, y) && k < |t|
    ensures k < x || y <= k ==> u[k] == t[k]
  {
    if k < x {
      assert u[..x][k] == t[..x][k];
    } else if y <= k {
      assert u[y..][k - y] == t[y..][k - y];
    }
  }

  /** Rearranging the window keeps every other pair in order. */
  lemma WindowMoves<T(!new)>(u: seq<T>, t: seq<T>, lo: nat, hi: nat, l: nat, r: nat, cmp: (T, T) -> int)
    requires lo <= l <= r <= hi <= |t| && Rearranged(u, t, l, r) && OrderedBut(t, lo, hi, l, r, cmp)
    ensures OrderedBut(u, lo, hi, l, r, cmp)
  {
    forall i, j | lo <= i < j < hi && (i < l || r <= j) ensures cmp(u[i], u[j]) <= 0 {
      PairStays(u, t, l, r, i, j, cmp);
    }
  }

  lemma SplitOrders<T(!new)>(u: seq<T>, lo: nat, hi: nat, l: nat, lt: nat, gt: nat, right: nat, pivot: T,
                             cmp: (T, T) -> int)
    requires TotalPreorder(cmp) && lo <= l && right < hi <= |u| && OrderedBut(u, lo, hi, l, right + 1, cmp)
    requires Parted(u, l, lt, gt + 1, gt, right, pivot, cmp)
    ensures OrderedButSides(u, lo, hi, l, lt, gt, right + 1, cmp)
  {
    forall i, j | lo <= i < j < hi && (i < l || lt <= j) && (i <= gt || right + 1 <= j) ensures cmp(u[i], u[j]) <= 0 {
      if l <= i && j <= right {
        assert cmp(u[i], pivot) <= 0 && cmp(u[j], pivot) >= 0;
      }
    }
  }

  lemma SortedAt<T>(v: seq<T>, x: nat, y: nat, i: nat, j: nat, cmp: (T, T) -> int)
    requires x <= i < j < y <= |v| && Sorted(v[x..y], cmp)
    ensures cmp(v[i], v[j]) <= 0
  {
    assert v[x..y][i - x] == v[i] && v[x..y][j - x] == v[j];
  }

  /** With the lower side sorted, only the upper side is left as the window. */
  lemma LowerSorted<T(!new)>(v: seq<T>, u: seq<T>, lo: nat, hi: nat, l: nat, lt: nat, gt: nat, r: nat,
                             cmp: (T, T) -> int)
    requires lo <= l <= lt <= gt < r <= hi <= |u| == |v| && OrderedButSides(u, lo, hi, l, lt, gt, r, cmp)
    requires Rearranged(v, u, l, lt) && Sorted(v[l..lt], cmp)
    ensures OrderedBut(v, lo, hi, gt + 1, r, cmp)
  {
    hide Sorted, Rearranged;
    forall i, j | lo <= i < j < hi && (i < gt + 1 || r <= j) ensures cmp(v[i], v[j]) <= 0 {
      if l <= i && j < lt {
        SortedAt(v, l, lt, i, j, cmp);
      } else {
        PairStays(v, u, l, lt, i, j, cmp);
      }
    }
  }

  lemma UpperSorted<T(!new)>(v: seq<T>, u: seq<T>, lo: nat, hi: nat, l: nat, lt: nat, gt: nat, r: nat,
                             cmp: (T, T) -> int)
    requires lo <= l <= lt <= gt < r <= hi <= |u| == |v| && OrderedButSides(u, lo, hi, l, lt, gt, r, cmp)
    requires Rearranged(v, u, gt + 1, r) && Sorted(v[gt + 1..r], cmp)
    ensures OrderedBut(v, lo, hi, l, lt, cmp)
  {
    hide Sorted, Rearranged;
    forall i, j | lo <= i < j < hi && (i < l || lt <= j) ensures cmp(v[i], v[j]) <= 0 {
      if gt < i && j < r {
        SortedAt(v, gt + 1, r, i, j, cmp);
      } else {
        PairStays(v, u, gt + 1, r, i, j, cmp);
      }
    }
  }

  /** With the window sorted too, the whole range is. */
  lemma WindowSorted<T(!new)>(u: seq<T>, t: seq<T>, lo: nat, hi: nat, l: nat, r: nat, cmp: (T, T) -> int)
    requires lo <= l <= r <= hi <= |t| && Rearranged(u, t, l, r) && OrderedBut(t, lo, hi, l, r, cmp)
    requires Sorted(u[l..r], cmp)
    ensures Sorted(u[lo..hi], cmp)
  {
    WindowMoves(u, t, lo, hi, l, r, cmp);
    forall i, j | 0 <= i < j < hi - lo ensures cmp(u[lo..hi][i], u[lo..hi][j]) <= 0 {
      if l <= lo + i && lo + j < r {
        SortedAt(u, l, r, lo + i, lo + j, cmp);
      } else {
        assert cmp(u[lo + i], u[lo + j]) <= 0;
      }
    }
  }

  lemma NoWindow<T(!new)>(t: seq<T>, lo: nat, hi: nat, l: nat, r: nat, cmp: (T, T) -> int)
    requires lo <= l && r <= hi <= |t| && r <= l + 1 && lo <= hi
    ensures OrderedBut(t, lo, hi, l, r, cmp) ==> Sorted(t[lo..hi], cmp)
  {
    forall i, j | 0 <= i < j < hi - lo && OrderedBut(t, lo, hi, l, r, cmp)
      ensures cmp(t[lo..hi][i], t[lo..hi][j]) <= 0
    {
      assert cmp(t[lo + i], t[lo + j]) <= 0;
    }
  }

  /** The range that is short enough, or whose pivots went bad: insertion sort or heapsort. */
  method SortWindow<T(!new)>(a: array<T>, left: nat, right: nat, cmp: (T, T) -> int, held: bool, honest: bool)
    requires left <= right < a.Length && (honest ==> TotalPreorder(cmp))
    modifies a
    ensures Rearranged(a[..], old(a[..]), left, right + 1)
    ensures honest ==> Sorted(a[..][left..right + 1], cmp)
  {
    hide Rearranged, TotalPreorder, Sorted, HeapFrom;
    ghost var s := a[..];
    if right - left + 1 <= INSERTION_THRESHOLD {
      InsertionSort(a, left, right + 1, cmp, held, honest);
    } else {
      MakeHeap(a, left, right + 1 - left, cmp, honest);
      ghost var t := a[..];
      SortHeap(a, left, right + 1 - left, cmp, honest);
      RearrangedThen(a[..], t, s, left, right + 1);
    }
  }

  /** One round: a pivot by ninther and a three-way split of the window. */
  method SplitWindow<T(!new)>(a: array<T>, left: nat, right: nat, cmp: (T, T) -> int, honest: bool,
                              ghost s: seq<T>, ghost lo: nat, ghost hi: nat)
    returns (lt: nat, gt: nat)
    requires lo <= left <= right < hi <= a.Length && (honest ==> TotalPreorder(cmp))
    requires Rearranged(a[..], s, lo, hi)
    requires honest ==> OrderedBut(a[..], lo, hi, left, right + 1, cmp)
    modifies a
    ensures left <= lt <= gt <= right && Rearranged(a[..], s, lo, hi)
    ensures honest ==> OrderedButSides(a[..], lo, hi, left, lt, gt, right + 1, cmp)
  {
    hide Rearranged, TotalPreorder, Parted, OrderedBut, OrderedButSides;
    ghost var t := a[..];
    var pivot := Ninther(a, left, right, cmp, honest);
    assert a[..] == t;
    lt, gt := Partition3(a, left, right, pivot, cmp, honest);
    ghost var u := a[..];
    if honest {
      WindowMoves(u, t, lo, hi, left, right + 1, cmp);
      SplitOrders(u, lo, hi, left, lt, gt, right, t[pivot], cmp);
    }
    RearrangedWider(u, t, left, right + 1, lo, hi);
    RearrangedThen(u, t, s, lo, hi);
  }

  /** quicksort over the inclusive range; every nested call gives up one of the `levels`. */
  method QuickSort<T(!new)>(a: array<T>, first: nat, last: nat, limit: nat, cmp: (T, T) -> int, held: bool,
                            honest: bool, ghost levels: nat)
    requires first <= last < a.Length && (honest ==> TotalPreorder(cmp)) && Log2(last + 1 - first) <= levels
    modifies a
    ensures Rearranged(a[..], old(a[..]), first, last + 1)
    ensures honest ==> Sorted(a[..][first..last + 1], cmp)
    decreases levels, 1
  {
    hide *;
    ghost var s, lo, hi := a[..], first, last + 1;
    var left, right, depth := first, last, limit;
    RearrangedSame(s, lo, hi);
    WholeWindow(s, lo, hi, cmp);
    while left < right
      invariant first <= left <= right + 1 && right <= last
      invariant Rearranged(a[..], s, lo, hi)
      invariant honest ==> OrderedBut(a[..], lo, hi, left, right + 1, cmp)
      decreases right + 1 - left
    {
      ghost var t := a[..];
      if right - left + 1 <= INSERTION_THRESHOLD || depth == 0 {
        SortWindow(a, left, right, cmp, held, honest);
        WindowDone(a[..], t, s, lo, hi, left, right + 1, cmp, honest);
        return;
      }
      depth := depth - 1;
      var lt, gt := SplitWindow(a, left, right, cmp, honest, s, lo, hi);
      if lt - left < right - gt {
        SideFits(lt - left, hi - lo);
        SortSide(a, left, lt, depth, cmp, held, honest, s, lo, hi, left, lt, gt, right + 1, levels);
        left := gt + 1;
      } else {
        SideFits(right - gt, hi - lo);
        SortSide(a, gt + 1, right + 1, depth, cmp, held, honest, s, lo, hi, left, lt, gt, right + 1, levels);
        if lt == left {
          NoWindow(a[..], lo, hi, left, left, cmp);
          return;
        }
        right := lt - 1;
      }
    }
    NoWindow(a[..], lo, hi, left, right + 1, cmp);
  }

  /** Sorts one side of the split, [from, to), and leaves the other side as the window. */
  method SortSide<T(!new)>(a: array<T>, from: nat, to: nat, depth: nat, cmp: (T, T) -> int, held: bool, honest: bool,
                           ghost s: seq<T>, ghost lo: nat, ghost hi: nat,
                           ghost l: nat, ghost lt: nat, ghost gt: nat, ghost r: nat, ghost levels: nat)
    requires lo <= l <= lt <= gt < r <= hi <= a.Length && (honest ==> TotalPreorder(cmp))
    requires from < to ==> 1 + Log2(to - from) <= levels
    requires from <= to && ((from == l && to == lt) || (from == gt + 1 && to == r))
    requires Rearranged(a[..], s, lo, hi)
    requires honest ==> OrderedButSides(a[..], lo, hi, l, lt, gt, r, cmp)
    modifies a
    ensures Rearranged(a[..], s, lo, hi)
    ensures honest && from == l ==> OrderedBut(a[..], lo, hi, gt + 1, r, cmp)
    ensures honest && from == gt + 1 ==> OrderedBut(a[..], lo, hi, l, lt, cmp)
    decreases levels, 0
  {
    hide *;
    ghost var u := a[..];
    if from < to {
      QuickSort(a, from, to - 1, depth, cmp, held, honest, levels - 1);
    } else {
      NothingToSort(u, from, cmp);
    }
    SideDone(a[..], u, s, lo, hi, from, to, l, lt, gt, r, cmp, honest);
  }

  lemma WholeWindow<T>(s: seq<T>, lo: nat, hi: nat, cmp: (T, T) -> int)
    requires lo <= hi <= |s|
    ensures OrderedBut(s, lo, hi, lo, hi, cmp)
  {
  }

  lemma NothingToSort<T>(u: seq<T>, x: nat, cmp: (T, T) -> int)
    requires x <= |u|
    ensures Rearranged(u, u, x, x) && Sorted(u[x..x], cmp)
  {
  }

  lemma WindowDone<T(!new)>(u: seq<T>, t: seq<T>, s: seq<T>, lo: nat, hi: nat, l: nat, r: nat, cmp: (T, T) -> int,
                            honest: bool)
    requires lo <= l <= r <= hi <= |s| && Rearranged(t, s, lo, hi) && Rearranged(u, t, l, r)
    requires honest ==> OrderedBut(t, lo, hi, l, r, cmp) && Sorted(u[l..r], cmp)
    ensures Rearranged(u, s, lo, hi)
    ensures honest ==> Sorted(u[lo..hi], cmp)
  {
    RearrangedWider(u, t, l, r, lo, hi);
    RearrangedThen(u, t, s, lo, hi);
    if honest {
      WindowSorted(u, t, lo, hi, l, r, cmp);
    }
  }

  lemma SideDone<T(!new)>(v: seq<T>, u: seq<T>, s: seq<T>, lo: nat, hi: nat, from: nat, to: nat,
                          l: nat, lt: nat, gt: nat, r: nat, cmp: (T, T) -> int, honest: bool)
    requires lo <= l <= lt <= gt < r <= hi <= |u| == |v|
    requires (from == l && to == lt) || (from == gt + 1 && to == r)
    requires Rearranged(u, s, lo, hi) && Rearranged(v, u, from, to)
    requires honest ==> OrderedButSides(u, lo, hi, l, lt, gt, r, cmp) && Sorted(v[from..to], cmp)
    ensures Rearranged(v, s, lo, hi)
    ensures honest && from == l ==> OrderedBut(v, lo, hi, gt + 1, r, cmp)
    ensures honest && from == gt + 1 ==> OrderedBut(v, lo, hi, l, lt, cmp)
  {
    RearrangedWider(v, u, from, to, lo, hi);
    RearrangedThen(v, u, s, lo, hi);
    if honest && from == l {
      LowerSorted(v, u, lo, hi, l, lt, gt, r, cmp);
    }
    if honest && from == gt + 1 {
      UpperSorted(v, u, lo, hi, l, lt, gt, r, cmp);
    }
  }

  /** The shorter side is below half, so it is a level down. */
  lemma SideFits(side: nat, n: nat)
    requires n >= 1 && 2 * side < n
    ensures side > 0 ==> 1 + Log2(side) <= Log2(n)
  {
    if side > 0 {
      Log2Monotone(side, n / 2);
    }
  }

  lemma {:induction false} Log2Monotone(m: nat, n: nat)
    requires 1 <= m <= n
    ensures Log2(m) <= Log2(n)
  {
    if m > 1 {
      Log2Monotone(m / 2, n / 2);
    }
  }

  /** tda_span_sort: a sorted rearrangement, with a recursion no deeper than log2 of the length. */
  method SortSpan<T(!new)>(a: array<T>, lo: nat, hi: nat, cmp: (T, T) -> int, held: bool, honest: bool)
    requires lo <= hi <= a.Length && (honest ==> TotalPreorder(cmp))
    modifies a
    ensures Rearranged(a[..], old(a[..]), lo, hi)
    ensures honest ==> Sorted(a[..][lo..hi], cmp)
  {
    if hi - lo >= 2 {
      QuickSort(a, lo, hi - 1, 2 * Log2(hi - lo), cmp, held, honest, Log2(hi - lo));
    }
  }
}
