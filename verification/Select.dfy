/** tda_span_nth_elem and tda_span_partial_sort of src/algo/sort.c. */
module Select {
  import opened Arith
  import opened Order
  import opened Span
  import opened Permutations
  import opened Sort

  /** Nothing before `nth` is greater than the element there, nothing after it is less. */
  ghost predicate Settled<T>(t: seq<T>, nth: nat, cmp: (T, T) -> int)
    requires nth < |t|
  {
    && (forall i :: 0 <= i < nth ==> cmp(t[i], t[nth]) <= 0)
    && (forall j :: nth < j < |t| ==> cmp(t[nth], t[j]) <= 0)
  }

  /** Nothing before the window [l, r) exceeds what is in or after it, nor the window what is after it. */
  ghost predicate Walls<T>(t: seq<T>, l: nat, r: nat, cmp: (T, T) -> int)
  {
    forall i, j :: 0 <= i < j < |t| && ((i < l && l <= j) || (i < r && r <= j)) ==> cmp(t[i], t[j]) <= 0
  }

  lemma WallsStay<T(!new)>(u: seq<T>, t: seq<T>, l: nat, r: nat, cmp: (T, T) -> int)
    requires Rearranged(u, t, l, r) && Walls(t, l, r, cmp)
    ensures Walls(u, l, r, cmp)
  {
    forall i, j | 0 <= i < j < |u| && ((i < l && l <= j) || (i < r && r <= j)) ensures cmp(u[i], u[j]) <= 0 {
      PairStays(u, t, l, r, i, j, cmp);
    }
  }

  lemma SplitWalls<T(!new)>(u: seq<T>, l: nat, lt: nat, gt: nat, right: nat, pivot: T, cmp: (T, T) -> int)
    requires TotalPreorder(cmp) && right < |u| && Walls(u, l, right + 1, cmp)
    requires Parted(u, l, lt, gt + 1, gt, right, pivot, cmp)
    ensures Walls(u, l, lt, cmp) && Walls(u, gt + 1, right + 1, cmp)
    ensures forall nth :: lt <= nth <= gt ==> Settled(u, nth, cmp)
  {
    forall i, j | 0 <= i < j < |u| && ((i < l && l <= j) || (i < lt && lt <= j)) ensures cmp(u[i], u[j]) <= 0 {
      if l <= i && j <= right {
        assert cmp(u[i], pivot) <= 0 && cmp(u[j], pivot) >= 0;
      }
    }
    forall i, j | 0 <= i < j < |u| && ((i < gt + 1 && gt + 1 <= j) || (i < right + 1 && right + 1 <= j))
      ensures cmp(u[i], u[j]) <= 0
    {
      if l <= i && j <= right {
        assert cmp(u[i], pivot) <= 0 && cmp(u[j], pivot) >= 0;
      }
    }
    forall nth | lt <= nth <= gt ensures Settled(u, nth, cmp) {
      PivotSettled(u, l, lt, gt, right, nth, pivot, cmp);
    }
  }

  lemma PivotSettled<T(!new)>(u: seq<T>, l: nat, lt: nat, gt: nat, right: nat, nth: nat, pivot: T, cmp: (T, T) -> int)
    requires TotalPreorder(cmp) && right < |u| && Walls(u, l, right + 1, cmp)
    requires Parted(u, l, lt, gt + 1, gt, right, pivot, cmp) && lt <= nth <= gt
    ensures Settled(u, nth, cmp)
  {
    assert cmp(u[nth], pivot) == 0;
    forall i | 0 <= i < nth ensures cmp(u[i], u[nth]) <= 0 {
      assert i >= l ==> cmp(u[i], pivot) <= 0;
    }
    forall j | nth < j < |u| ensures cmp(u[nth], u[j]) <= 0 {
      assert j <= right ==> cmp(u[j], pivot) >= 0;
    }
  }

  lemma WindowSettles<T(!new)>(u: seq<T>, l: nat, r: nat, nth: nat, cmp: (T, T) -> int)
    requires l <= nth < r <= |u| && Walls(u, l, r, cmp) && Sorted(u[l..r], cmp)
    ensures Settled(u, nth, cmp)
  {
    forall i | 0 <= i < nth ensures cmp(u[i], u[nth]) <= 0 {
      if i >= l {
        SortedAt(u, l, r, i, nth, cmp);
      }
    }
    forall j | nth < j < |u| ensures cmp(u[nth], u[j]) <= 0 {
      if j < r {
        SortedAt(u, l, r, nth, j, cmp);
      }
    }
  }

  /** tda_span_nth_elem: the quickselect, with the sort as its fallback. */
  method NthElem<T(!new)>(a: array<T>, nth: nat, cmp: (T, T) -> int, held: bool, honest: bool)
    requires nth < a.Length && (honest ==> TotalPreorder(cmp))
    modifies a
    ensures Rearranged(a[..], old(a[..]), 0, a.Length)
    ensures honest ==> Settled(a[..], nth, cmp)
  {
    hide *;
    ghost var s, n := a[..], a.Length;
    RearrangedSame(s, 0, n);
    NoWalls(s, cmp);
    var left: nat, right: nat := 0, a.Length - 1;
    var depth: nat := if a.Length < 2 then 0 else 2 * Log2(a.Length);
    while left < right
      invariant left <= nth <= right < a.Length && Rearranged(a[..], s, 0, n)
      invariant honest ==> Walls(a[..], left, right + 1, cmp)
      decreases right - left
    {
      ghost var t := a[..];
      if depth == 0 {
        SortSpan(a, left, right + 1, cmp, held, honest);
        SelectSorted(a[..], t, s, left, right + 1, nth, cmp, honest);
        return;
      }
      depth := depth - 1;
      var lt, gt := SelectRound(a, left, right, cmp, honest, s);
      if nth < lt {
        right := lt - 1;
      } else if nth > gt {
        left := gt + 1;
      } else {
        return;
      }
    }
    OneLeft(a[..], nth, cmp);
  }

  /** One round of the selection: a pivot by ninther and a three-way split. */
  method SelectRound<T(!new)>(a: array<T>, left: nat, right: nat, cmp: (T, T) -> int, honest: bool, ghost s: seq<T>)
    returns (lt: nat, gt: nat)
    requires left <= right < a.Length && (honest ==> TotalPreorder(cmp)) && Rearranged(a[..], s, 0, a.Length)
    requires honest ==> Walls(a[..], left, right + 1, cmp)
    modifies a
    ensures left <= lt <= gt <= right && Rearranged(a[..], s, 0, a.Length)
    ensures honest ==> Walls(a[..], left, lt, cmp) && Walls(a[..], gt + 1, right + 1, cmp)
    ensures honest ==> forall nth :: lt <= nth <= gt ==> Settled(a[..], nth, cmp)
  {
    hide *;
    ghost var t := a[..];
    var pivot := Ninther(a, left, right, cmp, honest);
    assert a[..] == t;
    lt, gt := Partition3(a, left, right, pivot, cmp, honest);
    SelectSplit(a[..], t, s, left, lt, gt, right, t[pivot], cmp, honest);
  }

  lemma NoWalls<T>(s: seq<T>, cmp: (T, T) -> int)
    ensures Walls(s, 0, |s|, cmp)
  {
  }

  lemma OneLeft<T(!new)>(t: seq<T>, nth: nat, cmp: (T, T) -> int)
    requires nth < |t|
    ensures Walls(t, nth, nth + 1, cmp) ==> Settled(t, nth, cmp)
  {
  }

  lemma SelectSorted<T(!new)>(u: seq<T>, t: seq<T>, s: seq<T>, l: nat, r: nat, nth: nat, cmp: (T, T) -> int,
                              honest: bool)
    requires l <= nth < r <= |t| && Rearranged(t, s, 0, |t|) && Rearranged(u, t, l, r)
    requires honest ==> Walls(t, l, r, cmp) && Sorted(u[l..r], cmp)
    ensures Rearranged(u, s, 0, |t|) && |u| == |t|
    ensures honest ==> Settled(u, nth, cmp)
  {
    RearrangedWider(u, t, l, r, 0, |t|);
    RearrangedThen(u, t, s, 0, |t|);
    if honest {
      WallsStay(u, t, l, r, cmp);
      WindowSettles(u, l, r, nth, cmp);
    }
  }

  lemma SelectSplit<T(!new)>(u: seq<T>, t: seq<T>, s: seq<T>, l: nat, lt: nat, gt: nat, right: nat, pivot: T,
                             cmp: (T, T) -> int, honest: bool)
    requires l <= right < |t| && Rearranged(t, s, 0, |t|) && Rearranged(u, t, l, right + 1) && gt <= right
    requires |u| == |t|
    requires honest ==> TotalPreorder(cmp) && Walls(t, l, right + 1, cmp)
    requires honest ==> Parted(u, l, lt, gt + 1, gt, right, pivot, cmp)
    ensures Rearranged(u, s, 0, |t|)
    ensures honest ==> Walls(u, l, lt, cmp) && Walls(u, gt + 1, right + 1, cmp)
    ensures honest ==> forall nth :: lt <= nth <= gt ==> Settled(u, nth, cmp)
  {
    RearrangedWider(u, t, l, right + 1, 0, |t|);
    RearrangedThen(u, t, s, 0, |t|);
    if honest {
      WallsStay(u, t, l, right + 1, cmp);
      SplitWalls(u, l, lt, gt, right, pivot, cmp);
    }
  }

  /** The first `count` are in order and none of them exceeds any of the rest. */
  ghost predicate FrontSorted<T>(t: seq<T>, count: nat, cmp: (T, T) -> int)
    requires count <= |t|
  {
    && Sorted(t[..count], cmp)
    && forall i, j :: 0 <= i < count <= j < |t| ==> cmp(t[i], t[j]) <= 0
  }

  /** tda_span_partial_sort. */
  method PartialSort<T(!new)>(a: array<T>, count: nat, cmp: (T, T) -> int, held: bool, honest: bool)
    requires count <= a.Length && (honest ==> TotalPreorder(cmp))
    modifies a
    ensures Rearranged(a[..], old(a[..]), 0, a.Length)
    ensures honest ==> FrontSorted(a[..], count, cmp)
  {
    hide *;
    ghost var s, n := a[..], a.Length;
    if count == 0 || a.Length < 2 {
      RearrangedSame(s, 0, n);
      ShortFront(s, count, cmp);
    } else if count >= a.Length {
      SortSpan(a, 0, a.Length, cmp, held, honest);
      WholeFront(a[..], cmp);
    } else {
      NthElem(a, count, cmp, held, honest);
      ghost var t := a[..];
      SortSpan(a, 0, count, cmp, held, honest);
      FrontDone(a[..], t, s, count, cmp, honest);
    }
  }

  lemma ShortFront<T>(s: seq<T>, count: nat, cmp: (T, T) -> int)
    requires count <= |s| && (count == 0 || |s| < 2)
    ensures FrontSorted(s, count, cmp)
  {
  }

  lemma WholeFront<T>(s: seq<T>, cmp: (T, T) -> int)
    ensures Sorted(s[0..|s|], cmp) ==> FrontSorted(s, |s|, cmp)
  {
    assert s[0..|s|] == s[..|s|];
  }

  lemma FrontDone<T(!new)>(u: seq<T>, t: seq<T>, s: seq<T>, count: nat, cmp: (T, T) -> int, honest: bool)
    requires 0 < count < |t| && Rearranged(t, s, 0, |t|) && Rearranged(u, t, 0, count) && |u| == |t|
    requires honest ==> TotalPreorder(cmp) && Settled(t, count, cmp) && Sorted(u[0..count], cmp)
    ensures Rearranged(u, s, 0, |t|)
    ensures honest ==> FrontSorted(u, count, cmp)
  {
    RearrangedWider(u, t, 0, count, 0, |t|);
    RearrangedThen(u, t, s, 0, |t|);
    if honest {
      assert u[..count] == u[0..count];
      RearrangedAll(u, t, 0, count, x => cmp(x, t[count]) <= 0);
      forall i, j | 0 <= i < count <= j < |u| ensures cmp(u[i], u[j]) <= 0 {
        Outside(u, t, 0, count, j);
        assert j > count ==> cmp(t[count], t[j]) <= 0;
      }
    }
  }

  // ----- against the sorted sequence

  /** Some sorted arrangement of s. */
  function SortedSeq<T>(s: seq<T>, cmp: (T, T) -> int): (r: seq<T>)
    ensures |r| == |s|
  {
    if s == [] then [] else Merge([s[0]], SortedSeq(s[1..], cmp), cmp)
  }

  lemma {:induction false} SortedSeqIs<T(!new)>(s: seq<T>, cmp: (T, T) -> int)
    requires TotalPreorder(cmp)
    ensures Sorted(SortedSeq(s, cmp), cmp) && multiset(SortedSeq(s, cmp)) == multiset(s)
  {
    if s != [] {
      var rest := SortedSeq(s[1..], cmp);
      SortedSeqIs(s[1..], cmp);
      MergeIsStable([s[0]], rest, cmp);
      StableIsPermutation(Merge([s[0]], rest, cmp), [s[0]] + rest, cmp);
      assert s == [s[0]] + s[1..];
    }
  }

  /** Two sorted arrangements differ only where the comparator cannot tell. */
  lemma SortedAlike<T(!new)>(r: seq<T>, q: seq<T>, cmp: (T, T) -> int)
    requires TotalPreorder(cmp) && Sorted(r, cmp) && Sorted(q, cmp) && multiset(r) == multiset(q)
    ensures Alike(r, q, cmp)
  {
    assert |multiset(r)| == |r| && |multiset(q)| == |q|;
    PermutationKeepsClasses(r, q, cmp);
    PermutationKeepsClasses(q, r, cmp);
    SortedIsFirst(r, q, cmp);
    SortedIsFirst(q, r, cmp);
    LexTotal(r, q, cmp);
  }

  /** Sorting both sides of a cut that nothing crosses sorts the whole. */
  lemma SortedSides<T(!new)>(t: seq<T>, cut: nat, cmp: (T, T) -> int)
    requires TotalPreorder(cmp) && cut <= |t|
    requires forall i, j :: 0 <= i < cut <= j < |t| ==> cmp(t[i], t[j]) <= 0
    ensures var q := SortedSeq(t[..cut], cmp) + SortedSeq(t[cut..], cmp);
            Sorted(q, cmp) && multiset(q) == multiset(t)
  {
    var l, r := SortedSeq(t[..cut], cmp), SortedSeq(t[cut..], cmp);
    SortedSeqIs(t[..cut], cmp);
    SortedSeqIs(t[cut..], cmp);
    assert t == t[..cut] + t[cut..];
    forall i, j | 0 <= i < |l| && 0 <= j < |r| ensures cmp(l[i], r[j]) <= 0 {
      assert l[i] in multiset(l) && r[j] in multiset(r);
      assert l[i] in t[..cut] && r[j] in t[cut..];
    }
    SortedConcat(l, r, cmp);
  }

  /** partial_sort puts at the front what any full sort would put there, in the same order. */
  lemma FrontIsSortedFront<T(!new)>(t: seq<T>, r: seq<T>, count: nat, cmp: (T, T) -> int)
    requires TotalPreorder(cmp) && count <= |t| && FrontSorted(t, count, cmp)
    requires Sorted(r, cmp) && multiset(r) == multiset(t)
    ensures |r| == |t| && Alike(t[..count], r[..count], cmp)
  {
    SortedSides(t, count, cmp);
    var q := SortedSeq(t[..count], cmp) + SortedSeq(t[count..], cmp);
    SortedAlike(q, r, cmp);
    SortedSeqIs(t[..count], cmp);
    SortedAlike(t[..count], q[..count], cmp);
    forall i | 0 <= i < count ensures cmp(t[..count][i], r[..count][i]) == 0 {
      assert cmp(t[..count][i], q[..count][i]) == 0 && cmp(q[i], r[i]) == 0;
    }
  }

  /** nth_elem puts at `nth` what any full sort would put there. */
  lemma NthIsSortedNth<T(!new)>(t: seq<T>, r: seq<T>, nth: nat, cmp: (T, T) -> int)
    requires TotalPreorder(cmp) && nth < |t| && Settled(t, nth, cmp)
    requires Sorted(r, cmp) && multiset(r) == multiset(t)
    ensures |r| == |t| && cmp(t[nth], r[nth]) == 0
  {
    SortedSides(t, nth, cmp);
    var l, g := SortedSeq(t[..nth], cmp), SortedSeq(t[nth..], cmp);
    SortedAlike(l + g, r, cmp);
    assert cmp((l + g)[nth], r[nth]) == 0;
    SortedSeqIs(t[nth..], cmp);
    assert t[nth..][0] == t[nth] && t[nth] in multiset(t[nth..]);
    assert t[nth] in multiset(g) && g[0] in multiset(t[nth..]);
    assert t[nth] in g && g[0] in t[nth..];
    LeastOfTail(t, nth, g, cmp);
  }

  lemma LeastOfTail<T(!new)>(t: seq<T>, nth: nat, g: seq<T>, cmp: (T, T) -> int)
    requires TotalPreorder(cmp) && nth < |t| && Settled(t, nth, cmp) && Sorted(g, cmp) && g != []
    requires t[nth] in g && g[0] in t[nth..]
    ensures cmp(t[nth], g[0]) == 0
  {
    var i :| 0 <= i < |g| && g[i] == t[nth];
    var k :| 0 <= k < |t[nth..]| && t[nth..][k] == g[0];
    assert i > 0 ==> cmp(g[0], g[i]) <= 0;
    assert k > 0 ==> cmp(t[nth], t[nth + k]) <= 0;
  }
}
