/**
 Comparators, and what it means for one sequence to be the stable arrangement of another.

 A comparator answers negative, zero or positive.  Stability is stated without tags: the
 elements that compare equal to any given key form the same subsequence before and after.
 Together with sortedness that leaves exactly one possible result (StableIsUnique), so the
 merges, the merge sort and the list sort are all proved against this one definition.
 */
module Order {

  /** The strict weak ordering that include/tda/algo/sort.h asks of a comparator. */
  ghost predicate TotalPreorder<T(!new)>(cmp: (T, T) -> int)
  {
    && (forall x, y :: cmp(x, y) < 0 <==> cmp(y, x) > 0)
    && (forall x, y, z :: cmp(x, y) <= 0 && cmp(y, z) <= 0 ==> cmp(x, z) <= 0)
  }

  /**
   One call of a comparator.  One that is not `honest` keeps to no order at all: it may
   answer the same question differently each time.
   */
  method Ask<T>(cmp: (T, T) -> int, honest: bool, x: T, y: T) returns (order: int)
    ensures honest ==> order == cmp(x, y)
  {
    order := *;
    if honest {
      order := cmp(x, y);
    }
  }

  ghost predicate Sorted<T>(s: seq<T>, cmp: (T, T) -> int)
  {
    forall i, j :: 0 <= i < j < |s| ==> cmp(s[i], s[j]) <= 0
  }

  /** The subsequence of the elements that compare equal to `key`. */
  function Peers<T>(s: seq<T>, key: T, cmp: (T, T) -> int): seq<T>
  {
    if s == [] then []
    else if cmp(s[0], key) == 0 then [s[0]] + Peers(s[1..], key, cmp)
    else Peers(s[1..], key, cmp)
  }

  /** Equal elements stand in the same order in both. */
  ghost predicate SamePeers<T(!new)>(r: seq<T>, s: seq<T>, cmp: (T, T) -> int)
  {
    forall key :: Peers(r, key, cmp) == Peers(s, key, cmp)
  }

  ghost predicate StableSortOf<T(!new)>(r: seq<T>, s: seq<T>, cmp: (T, T) -> int)
  {
    Sorted(r, cmp) && SamePeers(r, s, cmp)
  }

  // ----- subsequences of equal elements

  lemma {:induction false} PeersConcat<T>(a: seq<T>, b: seq<T>, key: T, cmp: (T, T) -> int)
    ensures Peers(a + b, key, cmp) == Peers(a, key, cmp) + Peers(b, key, cmp)
  {
    if a == [] {
      assert a + b == b;
    } else {
      PeersConcat(a[1..], b, key, cmp);
      assert (a + b)[1..] == a[1..] + b;
    }
  }

  lemma {:induction false} PeersMember<T>(s: seq<T>, key: T, i: nat, cmp: (T, T) -> int)
    requires i < |s| && cmp(s[i], key) == 0
    ensures s[i] in Peers(s, key, cmp)
  {
    if i != 0 {
      PeersMember(s[1..], key, i - 1, cmp);
    }
  }

  lemma {:induction false} PeersFrom<T>(s: seq<T>, key: T, cmp: (T, T) -> int)
    ensures forall x :: x in Peers(s, key, cmp) ==> x in s && cmp(x, key) == 0
  {
    if s != [] {
      PeersFrom(s[1..], key, cmp);
    }
  }

  lemma PeersTail<T>(s: seq<T>, key: T, cmp: (T, T) -> int)
    requires s != []
    ensures cmp(s[0], key) == 0 ==> Peers(s, key, cmp) != []
    ensures Peers(s[1..], key, cmp)
            == if cmp(s[0], key) == 0 then Peers(s, key, cmp)[1..] else Peers(s, key, cmp)
  {
  }

  lemma {:induction false} PeersCount<T>(s: seq<T>, v: T, cmp: (T, T) -> int)
    requires cmp(v, v) == 0
    ensures multiset(s)[v] == multiset(Peers(s, v, cmp))[v]
  {
    if s != [] {
      PeersCount(s[1..], v, cmp);
      assert s == [s[0]] + s[1..];
    }
  }

  // ----- one stable arrangement, and it is a permutation

  lemma StableIsPermutation<T(!new)>(r: seq<T>, s: seq<T>, cmp: (T, T) -> int)
    requires TotalPreorder(cmp) && SamePeers(r, s, cmp)
    ensures multiset(r) == multiset(s)
    ensures |r| == |s|
  {
    forall v ensures multiset(r)[v] == multiset(s)[v] {
      PeersCount(r, v, cmp);
      PeersCount(s, v, cmp);
      assert Peers(r, v, cmp) == Peers(s, v, cmp);
    }
    assert multiset(r) == multiset(s);
    assert |multiset(r)| == |r|;
  }

  lemma {:induction false} StableIsUnique<T(!new)>(a: seq<T>, b: seq<T>, cmp: (T, T) -> int)
    requires TotalPreorder(cmp)
    requires Sorted(a, cmp) && Sorted(b, cmp) && SamePeers(a, b, cmp)
    ensures a == b
  {
    StableIsPermutation(a, b, cmp);
    if a != [] {
      var x, y := a[0], b[0];
      HeadIsLeast(a, b, cmp);
      HeadIsLeast(b, a, cmp);
      assert cmp(x, x) == 0 && cmp(y, x) == 0;
      assert Peers(a, x, cmp)[0] == Peers(b, x, cmp)[0];
      forall key ensures Peers(a[1..], key, cmp) == Peers(b[1..], key, cmp) {
        assert Peers(a, key, cmp) == Peers(b, key, cmp);
        PeersTail(a, key, cmp);
        PeersTail(b, key, cmp);
      }
      StableIsUnique(a[1..], b[1..], cmp);
      assert a == [x] + a[1..] && b == [y] + b[1..];
    }
  }

  lemma HeadIsLeast<T(!new)>(a: seq<T>, b: seq<T>, cmp: (T, T) -> int)
    requires TotalPreorder(cmp)
    requires a != [] && b != [] && multiset(a) == multiset(b) && Sorted(a, cmp)
    ensures cmp(a[0], b[0]) <= 0
  {
    assert b[0] in multiset(b);
    var i :| 0 <= i < |a| && a[i] == b[0];
  }

  // ----- the stable merge

  /** One comparison per element; a tie takes from the left run. */
  function Merge<T>(a: seq<T>, b: seq<T>, cmp: (T, T) -> int): (r: seq<T>)
    ensures |r| == |a| + |b|
    decreases |a| + |b|
  {
    if a == [] then b
    else if b == [] then a
    else if cmp(b[0], a[0]) < 0 then [b[0]] + Merge(a, b[1..], cmp)
    else [a[0]] + Merge(a[1..], b, cmp)
  }

  /** What every element of both runs satisfies, every element of the merge satisfies. */
  lemma {:induction false} MergeAll<T>(a: seq<T>, b: seq<T>, cmp: (T, T) -> int, p: T -> bool)
    requires forall i :: 0 <= i < |a| ==> p(a[i])
    requires forall i :: 0 <= i < |b| ==> p(b[i])
    ensures forall i :: 0 <= i < |a| + |b| ==> p(Merge(a, b, cmp)[i])
    decreases |a| + |b|
  {
    if a != [] && b != [] {
      if cmp(b[0], a[0]) < 0 {
        MergeAll(a, b[1..], cmp, p);
      } else {
        MergeAll(a[1..], b, cmp, p);
      }
    }
  }

  lemma {:induction false} MergeSorted<T(!new)>(a: seq<T>, b: seq<T>, cmp: (T, T) -> int)
    requires TotalPreorder(cmp) && Sorted(a, cmp) && Sorted(b, cmp)
    ensures Sorted(Merge(a, b, cmp), cmp)
    decreases |a| + |b|
  {
    if a != [] && b != [] {
      if cmp(b[0], a[0]) < 0 {
        MergeSorted(a, b[1..], cmp);
        MergeAll(a, b[1..], cmp, y => cmp(b[0], y) <= 0);
        SortedCons(b[0], Merge(a, b[1..], cmp), cmp);
      } else {
        MergeSorted(a[1..], b, cmp);
        MergeAll(a[1..], b, cmp, y => cmp(a[0], y) <= 0);
        SortedCons(a[0], Merge(a[1..], b, cmp), cmp);
      }
    }
  }

  lemma SortedCons<T>(x: T, s: seq<T>, cmp: (T, T) -> int)
    requires Sorted(s, cmp) && forall i :: 0 <= i < |s| ==> cmp(x, s[i]) <= 0
    ensures Sorted([x] + s, cmp)
  {
  }

  lemma SortedConcat<T>(r: seq<T>, s: seq<T>, cmp: (T, T) -> int)
    requires Sorted(r, cmp) && Sorted(s, cmp)
    requires forall i, j :: 0 <= i < |r| && 0 <= j < |s| ==> cmp(r[i], s[j]) <= 0
    ensures Sorted(r + s, cmp)
  {
  }

  lemma {:induction false} MergePeers<T(!new)>(a: seq<T>, b: seq<T>, key: T, cmp: (T, T) -> int)
    requires TotalPreorder(cmp) && Sorted(a, cmp)
    ensures Peers(Merge(a, b, cmp), key, cmp) == Peers(a, key, cmp) + Peers(b, key, cmp)
    decreases |a| + |b|
  {
    if a == [] || b == [] {
    } else if cmp(b[0], a[0]) < 0 {
      var rest := Merge(a, b[1..], cmp);
      MergePeers(a, b[1..], key, cmp);
      PeersCons(b[0], rest, key, cmp);
      if cmp(b[0], key) == 0 {
        assert Peers(a, key, cmp) == [] by { NoPeersAbove(a, key, cmp); }
      }
    } else {
      var rest := Merge(a[1..], b, cmp);
      MergePeers(a[1..], b, key, cmp);
      PeersCons(a[0], rest, key, cmp);
    }
  }

  lemma PeersCons<T>(x: T, s: seq<T>, key: T, cmp: (T, T) -> int)
    ensures Peers([x] + s, key, cmp) == (if cmp(x, key) == 0 then [x] else []) + Peers(s, key, cmp)
  {
    assert ([x] + s)[1..] == s;
  }

  lemma {:induction false} NoPeersAbove<T(!new)>(a: seq<T>, key: T, cmp: (T, T) -> int)
    requires TotalPreorder(cmp) && Sorted(a, cmp)
    requires a == [] || cmp(key, a[0]) < 0
    ensures Peers(a, key, cmp) == []
  {
    if a != [] {
      NoPeersAbove(a[1..], key, cmp);
    }
  }

  /** Merge is the stable arrangement of its two sorted runs laid end to end. */
  lemma MergeIsStable<T(!new)>(a: seq<T>, b: seq<T>, cmp: (T, T) -> int)
    requires TotalPreorder(cmp) && Sorted(a, cmp) && Sorted(b, cmp)
    ensures StableSortOf(Merge(a, b, cmp), a + b, cmp)
  {
    MergeSorted(a, b, cmp);
    forall key ensures Peers(Merge(a, b, cmp), key, cmp) == Peers(a + b, key, cmp) {
      MergePeers(a, b, key, cmp);
      PeersConcat(a, b, key, cmp);
    }
  }

  lemma StableTransitive<T(!new)>(r: seq<T>, s: seq<T>, t: seq<T>, cmp: (T, T) -> int)
    requires StableSortOf(r, s, cmp) && SamePeers(s, t, cmp)
    ensures StableSortOf(r, t, cmp)
  {
    forall key ensures Peers(r, key, cmp) == Peers(t, key, cmp) {
      assert Peers(r, key, cmp) == Peers(s, key, cmp) == Peers(t, key, cmp);
    }
  }

  lemma SamePeersConcat<T(!new)>(r1: seq<T>, s1: seq<T>, r2: seq<T>, s2: seq<T>, cmp: (T, T) -> int)
    requires SamePeers(r1, s1, cmp) && SamePeers(r2, s2, cmp)
    ensures SamePeers(r1 + r2, s1 + s2, cmp)
  {
    forall key ensures Peers(r1 + r2, key, cmp) == Peers(s1 + s2, key, cmp) {
      PeersConcat(r1, r2, key, cmp);
      PeersConcat(s1, s2, key, cmp);
      assert Peers(r1, key, cmp) == Peers(s1, key, cmp);
      assert Peers(r2, key, cmp) == Peers(s2, key, cmp);
    }
  }

  // ----- two other ways to compute the merge

  /** From the back, a left element is last when the whole right run precedes it. */
  lemma MergeEndsLeft<T(!new)>(a: seq<T>, x: T, b: seq<T>, cmp: (T, T) -> int)
    requires TotalPreorder(cmp) && Sorted(a + [x], cmp) && Sorted(b, cmp)
    requires b != [] && cmp(b[|b| - 1], x) < 0
    ensures Merge(a + [x], b, cmp) == Merge(a, b, cmp) + [x]
  {
    hide TotalPreorder, Sorted, Merge;
    var none: seq<T> := [];
    UpToLast(b, x, cmp);
    MergeNone([x], cmp);
    assert b + none == b;
    MergeByCuts(a, [x], b, none, cmp);
  }

  /** What goes after the last of a sorted run goes after all of it. */
  lemma UpToLast<T(!new)>(s: seq<T>, x: T, cmp: (T, T) -> int)
    requires TotalPreorder(cmp) && Sorted(s, cmp) && s != []
    ensures cmp(s[|s| - 1], x) < 0 ==> forall j :: 0 <= j < |s| ==> cmp(s[j], x) < 0
    ensures cmp(s[|s| - 1], x) <= 0 ==> forall j :: 0 <= j < |s| ==> cmp(s[j], x) <= 0
  {
    forall j | 0 <= j < |s| - 1 ensures cmp(s[j], s[|s| - 1]) <= 0 {
    }
  }

  lemma MergeNone<T>(s: seq<T>, cmp: (T, T) -> int)
    ensures Merge(s, [], cmp) == s && Merge([], s, cmp) == s
  {
  }

  /** From the back, a right element is last when no left element has to follow it. */
  lemma MergeEndsRight<T(!new)>(a: seq<T>, b: seq<T>, y: T, cmp: (T, T) -> int)
    requires TotalPreorder(cmp) && Sorted(a, cmp) && Sorted(b + [y], cmp)
    requires a != [] && cmp(a[|a| - 1], y) <= 0
    ensures Merge(a, b + [y], cmp) == Merge(a, b, cmp) + [y]
  {
    hide TotalPreorder, Sorted, Merge;
    var none: seq<T> := [];
    UpToLast(a, y, cmp);
    MergeNone([y], cmp);
    assert a + none == a;
    MergeByCuts(a, none, b, [y], cmp);
  }

  /**
   By cutting both runs: when nothing before a cut has to follow what is after the other
   cut, and a tie across them is only ever left before right, the halves merge apart.
   */
  lemma MergeByCuts<T(!new)>(a1: seq<T>, a2: seq<T>, b1: seq<T>, b2: seq<T>, cmp: (T, T) -> int)
    requires TotalPreorder(cmp) && Sorted(a1 + a2, cmp) && Sorted(b1 + b2, cmp)
    requires forall i, j :: 0 <= i < |a1| && 0 <= j < |b2| ==> cmp(a1[i], b2[j]) <= 0
    requires forall i, j :: 0 <= i < |a2| && 0 <= j < |b1| ==> cmp(b1[j], a2[i]) < 0
    ensures Merge(a1 + a2, b1 + b2, cmp) == Merge(a1, b1, cmp) + Merge(a2, b2, cmp)
  {
    var whole, lo, hi := Merge(a1 + a2, b1 + b2, cmp), Merge(a1, b1, cmp), Merge(a2, b2, cmp);
    SortedParts(a1, a2, cmp);
    SortedParts(b1, b2, cmp);
    assert Sorted(whole, cmp) by { MergeSorted(a1 + a2, b1 + b2, cmp); }
    assert Sorted(lo + hi, cmp) by { CutSorted(a1, a2, b1, b2, cmp); }
    forall key ensures Peers(whole, key, cmp) == Peers(lo + hi, key, cmp) {
      CutPeers(a1, a2, b1, b2, key, cmp);
    }
    StableIsUnique(whole, lo + hi, cmp);
  }

  lemma SortedParts<T(!new)>(a: seq<T>, b: seq<T>, cmp: (T, T) -> int)
    requires Sorted(a + b, cmp)
    ensures Sorted(a, cmp) && Sorted(b, cmp)
    ensures forall i, j :: 0 <= i < |a| && 0 <= j < |b| ==> cmp(a[i], b[j]) <= 0
  {
    var s := a + b;
    assert forall i :: 0 <= i < |a| ==> a[i] == s[i];
    assert forall i :: 0 <= i < |b| ==> b[i] == s[|a| + i];
  }

  lemma CutSorted<T(!new)>(a1: seq<T>, a2: seq<T>, b1: seq<T>, b2: seq<T>, cmp: (T, T) -> int)
    requires TotalPreorder(cmp)
    requires Sorted(a1, cmp) && Sorted(a2, cmp) && Sorted(b1, cmp) && Sorted(b2, cmp)
    requires forall i, j :: 0 <= i < |a1| && 0 <= j < |a2| ==> cmp(a1[i], a2[j]) <= 0
    requires forall i, j :: 0 <= i < |b1| && 0 <= j < |b2| ==> cmp(b1[i], b2[j]) <= 0
    requires forall i, j :: 0 <= i < |a1| && 0 <= j < |b2| ==> cmp(a1[i], b2[j]) <= 0
    requires forall i, j :: 0 <= i < |a2| && 0 <= j < |b1| ==> cmp(b1[j], a2[i]) < 0
    ensures Sorted(Merge(a1, b1, cmp) + Merge(a2, b2, cmp), cmp)
  {
    var lo, hi := Merge(a1, b1, cmp), Merge(a2, b2, cmp);
    MergeSorted(a1, b1, cmp);
    MergeSorted(a2, b2, cmp);
    forall i, j | 0 <= i < |lo| && 0 <= j < |hi| ensures cmp(lo[i], hi[j]) <= 0 {
      forall k | 0 <= k < |a2| ensures cmp(lo[i], a2[k]) <= 0 {
        MergeAll(a1, b1, cmp, x => cmp(x, a2[k]) <= 0);
      }
      forall k | 0 <= k < |b2| ensures cmp(lo[i], b2[k]) <= 0 {
        MergeAll(a1, b1, cmp, x => cmp(x, b2[k]) <= 0);
      }
      MergeAll(a2, b2, cmp, y => cmp(lo[i], y) <= 0);
    }
    SortedConcat(lo, hi, cmp);
  }

  lemma CutPeers<T(!new)>(a1: seq<T>, a2: seq<T>, b1: seq<T>, b2: seq<T>, key: T, cmp: (T, T) -> int)
    requires TotalPreorder(cmp) && Sorted(a1 + a2, cmp) && Sorted(a1, cmp) && Sorted(a2, cmp)
    requires forall i, j :: 0 <= i < |a2| && 0 <= j < |b1| ==> cmp(b1[j], a2[i]) < 0
    ensures Peers(Merge(a1 + a2, b1 + b2, cmp), key, cmp)
            == Peers(Merge(a1, b1, cmp) + Merge(a2, b2, cmp), key, cmp)
  {
    hide Peers, Merge, TotalPreorder, Sorted;
    PeersApart(a2, b1, key, cmp);
    Interchange(Peers(a1, key, cmp), Peers(a2, key, cmp), Peers(b1, key, cmp), Peers(b2, key, cmp));
    calc {
      Peers(Merge(a1 + a2, b1 + b2, cmp), key, cmp);
      { MergePeers(a1 + a2, b1 + b2, key, cmp); }
      Peers(a1 + a2, key, cmp) + Peers(b1 + b2, key, cmp);
      { PeersConcat(a1, a2, key, cmp); PeersConcat(b1, b2, key, cmp); }
      (Peers(a1, key, cmp) + Peers(b1, key, cmp)) + (Peers(a2, key, cmp) + Peers(b2, key, cmp));
      { MergePeers(a1, b1, key, cmp); MergePeers(a2, b2, key, cmp); }
      Peers(Merge(a1, b1, cmp), key, cmp) + Peers(Merge(a2, b2, cmp), key, cmp);
      { PeersConcat(Merge(a1, b1, cmp), Merge(a2, b2, cmp), key, cmp); }
      Peers(Merge(a1, b1, cmp) + Merge(a2, b2, cmp), key, cmp);
    }
  }

  lemma Interchange<T>(p: seq<T>, q: seq<T>, r: seq<T>, s: seq<T>)
    requires q == [] || r == []
    ensures (p + q) + (r + s) == (p + r) + (q + s)
  {
  }

  lemma {:induction false} NoPeersBelow<T(!new)>(a: seq<T>, key: T, cmp: (T, T) -> int)
    requires forall i :: 0 <= i < |a| ==> cmp(a[i], key) < 0
    ensures Peers(a, key, cmp) == []
  {
    if a != [] {
      NoPeersBelow(a[1..], key, cmp);
    }
  }

  /** Runs with no tie between them cannot both hold an element that ties with the key. */
  lemma PeersApart<T(!new)>(a: seq<T>, b: seq<T>, key: T, cmp: (T, T) -> int)
    requires TotalPreorder(cmp)
    requires forall i, j :: 0 <= i < |a| && 0 <= j < |b| ==> cmp(b[j], a[i]) < 0
    ensures Peers(a, key, cmp) == [] || Peers(b, key, cmp) == []
  {
    PeersFrom(a, key, cmp);
    if Peers(a, key, cmp) != [] {
      var x := Peers(a, key, cmp)[0];
      assert x in a && cmp(x, key) == 0;
      NoPeersBelow(b, key, cmp);
    }
  }
}
