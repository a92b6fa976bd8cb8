/**
 Moving the elements of a span.  A span is a range [lo, hi) of an array; what a method does
 to it is stated as one equation on the whole array, so it also says what stays put.
 */
module Span {

  /** `s` with its range [lo, hi) replaced by `piece`. */
  function Splice<T>(s: seq<T>, lo: nat, hi: nat, piece: seq<T>): (r: seq<T>)
    requires lo <= hi <= |s| && |piece| == hi - lo
    ensures |r| == |s|
  {
    s[..lo] + piece + s[hi..]
  }

  lemma SpliceSlices<T>(s: seq<T>, lo: nat, hi: nat, piece: seq<T>)
    requires lo <= hi <= |s| && |piece| == hi - lo
    ensures var r := Splice(s, lo, hi, piece);
            r[..lo] == s[..lo] && r[lo..hi] == piece && r[hi..] == s[hi..]
  {
  }

  /** A slice that does not meet the replaced range is untouched. */
  lemma SpliceApart<T>(s: seq<T>, lo: nat, hi: nat, piece: seq<T>, x: nat, y: nat)
    requires lo <= hi <= |s| && |piece| == hi - lo && x <= y <= |s| && (y <= lo || hi <= x)
    ensures Splice(s, lo, hi, piece)[x..y] == s[x..y]
  {
  }

  lemma SpliceApartIf<T>(s: seq<T>, lo: nat, hi: nat, piece: seq<T>, x: nat, y: nat)
    requires lo <= hi <= |s| && |piece| == hi - lo
    ensures x <= y <= |s| && (y <= lo || hi <= x) ==> Splice(s, lo, hi, piece)[x..y] == s[x..y]
  {
  }

  lemma SliceOfSlice<T>(s: seq<T>, x: nat, y: nat, i: nat, j: nat)
    requires x <= y <= |s| && i <= j <= y - x
    ensures s[x..y][i..j] == s[x + i..x + j]
  {
    var p := s[x..y];
    forall k | 0 <= k < j - i ensures p[i..j][k] == s[x + i..x + j][k] {
      assert p[i..j][k] == p[i + k] == s[x + (i + k)];
    }
  }

  lemma SpliceFrom<T>(r: seq<T>, s: seq<T>, lo: nat, hi: nat)
    requires lo <= hi <= |s| == |r|
    requires forall k :: 0 <= k < lo || hi <= k < |s| ==> r[k] == s[k]
    ensures r == Splice(s, lo, hi, r[lo..hi])
  {
  }

  /** Replacing two neighbouring ranges replaces both at once. */
  lemma SpliceTwice<T>(s: seq<T>, lo: nat, mid: nat, hi: nat, p: seq<T>, q: seq<T>)
    requires lo <= mid <= hi <= |s| && |p| == mid - lo && |q| == hi - mid
    ensures Splice(Splice(s, lo, mid, p), mid, hi, q) == Splice(s, lo, hi, p + q)
  {
  }

  /** A later replacement of a wider range hides an earlier one. */
  lemma SpliceOver<T>(s: seq<T>, lo: nat, hi: nat, p: seq<T>, x: nat, y: nat, q: seq<T>)
    requires x <= lo <= hi <= y <= |s| && |p| == hi - lo && |q| == y - x
    ensures Splice(Splice(s, lo, hi, p), x, y, q) == Splice(s, x, y, q)
  {
    var r := Splice(s, lo, hi, p);
    assert r[..x] == s[..x] && r[y..] == s[y..];
  }

  lemma SpliceMultiset<T>(s: seq<T>, lo: nat, hi: nat, piece: seq<T>)
    requires lo <= hi <= |s| && |piece| == hi - lo && multiset(piece) == multiset(s[lo..hi])
    ensures multiset(Splice(s, lo, hi, piece)) == multiset(s)
  {
    assert s == s[..lo] + s[lo..hi] + s[hi..];
  }

  // ----- rearranging a range

  /** `t` is `s` with the elements of [lo, hi) in some other order. */
  ghost predicate Rearranged<T>(t: seq<T>, s: seq<T>, lo: nat, hi: nat)
  {
    && lo <= hi <= |s| == |t|
    && t[..lo] == s[..lo] && t[hi..] == s[hi..]
    && multiset(t[lo..hi]) == multiset(s[lo..hi])
  }

  lemma RearrangedSame<T>(s: seq<T>, lo: nat, hi: nat)
    requires lo <= hi <= |s|
    ensures Rearranged(s, s, lo, hi)
  {
  }

  lemma RearrangedThen<T>(u: seq<T>, t: seq<T>, s: seq<T>, lo: nat, hi: nat)
    requires Rearranged(u, t, lo, hi) && Rearranged(t, s, lo, hi)
    ensures Rearranged(u, s, lo, hi)
  {
  }

  lemma RearrangedWider<T>(t: seq<T>, s: seq<T>, lo: nat, hi: nat, x: nat, y: nat)
    requires Rearranged(t, s, lo, hi) && x <= lo && hi <= y <= |s|
    ensures Rearranged(t, s, x, y)
  {
    assert t[..x] == t[..lo][..x] && s[..x] == s[..lo][..x];
    assert t[y..] == t[hi..][y - hi..] && s[y..] == s[hi..][y - hi..];
    assert t[x..y] == t[..lo][x..] + t[lo..hi] + t[hi..][..y - hi];
    assert s[x..y] == s[..lo][x..] + s[lo..hi] + s[hi..][..y - hi];
  }

  lemma SpliceRearranges<T>(s: seq<T>, lo: nat, hi: nat, piece: seq<T>)
    requires lo <= hi <= |s| && |piece| == hi - lo && multiset(piece) == multiset(s[lo..hi])
    ensures Rearranged(Splice(s, lo, hi, piece), s, lo, hi)
  {
  }

  lemma SwapRearranges<T>(s: seq<T>, i: nat, j: nat, lo: nat, hi: nat)
    requires lo <= i < hi <= |s| && lo <= j < hi
    ensures Rearranged(Swapped(s, i, j), s, lo, hi)
  {
    assert Swapped(s, i, j)[lo..hi] == Swapped(s[lo..hi], i - lo, j - lo);
    SwappedMultiset(s[lo..hi], i - lo, j - lo);
  }

  lemma SwapInSlice<T>(s: seq<T>, lo: nat, hi: nat, i: nat, j: nat)
    requires lo <= hi <= |s| && i < hi - lo && j < hi - lo
    ensures Swapped(s, lo + i, lo + j)[lo..hi] == Swapped(s[lo..hi], i, j)
  {
  }

  /** What holds all over the range goes on holding all over it. */
  lemma RearrangedAll<T>(t: seq<T>, s: seq<T>, lo: nat, hi: nat, p: T -> bool)
    requires Rearranged(t, s, lo, hi) && forall k :: lo <= k < hi ==> p(s[k])
    ensures forall k :: lo <= k < hi ==> p(t[k])
  {
    forall k | lo <= k < hi ensures p(t[k]) {
      assert t[k] == t[lo..hi][k - lo];
      assert t[k] in multiset(s[lo..hi]);
      assert t[k] in s[lo..hi];
    }
  }

  // ----- moving elements

  function Reversed<T>(s: seq<T>): (r: seq<T>)
    ensures |r| == |s|
  {
    seq(|s|, i requires 0 <= i < |s| => s[|s| - 1 - i])
  }

  lemma ReversedAt<T>(s: seq<T>, i: nat)
    requires i < |s|
    ensures Reversed(s)[i] == s[|s| - 1 - i]
  {
  }

  function Swapped<T>(s: seq<T>, i: nat, j: nat): (r: seq<T>)
    requires i < |s| && j < |s|
    ensures |r| == |s|
  {
    s[i := s[j]][j := s[i]]
  }

  lemma SwappedMultiset<T>(s: seq<T>, i: nat, j: nat)
    requires i < |s| && j < |s|
    ensures multiset(Swapped(s, i, j)) == multiset(s)
  {
  }

  lemma {:induction false} ReversedMultiset<T>(s: seq<T>)
    ensures multiset(Reversed(s)) == multiset(s)
  {
    if s != [] {
      ReversedMultiset(s[1..]);
      assert Reversed(s) == Reversed(s[1..]) + [s[0]];
      assert s == [s[0]] + s[1..];
    }
  }

  method Swap<T>(a: array<T>, i: nat, j: nat)
    requires i < a.Length && j < a.Length
    modifies a
    ensures a[..] == Swapped(old(a[..]), i, j)
    ensures multiset(a[..]) == multiset(old(a[..]))
  {
    a[i], a[j] := a[j], a[i];
  }

  /** A swap inside a range that is already a rearrangement of `s`. */
  method SwapWithin<T>(a: array<T>, i: nat, j: nat, ghost s: seq<T>, ghost lo: nat, ghost hi: nat)
    requires lo <= i < hi <= a.Length && lo <= j < hi && Rearranged(a[..], s, lo, hi)
    modifies a
    ensures a[..] == Swapped(old(a[..]), i, j)
    ensures Rearranged(a[..], s, lo, hi)
  {
    hide Rearranged, Swapped;
    ghost var t := a[..];
    Swap(a, i, j);
    SwapRearranges(t, i, j, lo, hi);
    RearrangedThen(a[..], t, s, lo, hi);
  }

  method Reverse<T>(a: array<T>, lo: nat, hi: nat)
    requires lo <= hi <= a.Length
    modifies a
    ensures a[..] == Splice(old(a[..]), lo, hi, Reversed(old(a[..])[lo..hi]))
  {
    ghost var s := a[..];
    if hi - lo < 2 {
      assert s[lo..hi] == Reversed(s[lo..hi]);
      return;
    }
    var left, right := lo, hi - 1;
    while left < right
      invariant lo <= left <= right + 1 <= hi && left - lo == hi - 1 - right
      invariant forall k :: lo <= k < left || right < k < hi ==> a[k] == s[lo + hi - 1 - k]
      invariant forall k :: 0 <= k < lo || left <= k <= right || hi <= k < a.Length ==> a[k] == s[k]
    {
      a[left], a[right] := a[right], a[left];
      left, right := left + 1, right - 1;
    }
    ReversedPiece(a[..], s, lo, hi);
  }

  lemma ReversedPiece<T>(r: seq<T>, s: seq<T>, lo: nat, hi: nat)
    requires lo <= hi <= |s| == |r|
    requires forall k :: lo <= k < hi ==> r[k] == s[lo + hi - 1 - k]
    requires forall k :: 0 <= k < lo || hi <= k < |s| ==> r[k] == s[k]
    ensures r == Splice(s, lo, hi, Reversed(s[lo..hi]))
  {
    assert r[lo..hi] == Reversed(s[lo..hi]) by {
      forall i | 0 <= i < hi - lo ensures r[lo..hi][i] == Reversed(s[lo..hi])[i] {
        assert r[lo + i] == s[hi - 1 - i];
      }
    }
    SpliceFrom(r, s, lo, hi);
  }

  /** Rotates left by three reversals, so that the element at `mid` comes first. */
  method Rotate<T>(a: array<T>, lo: nat, mid: nat, hi: nat)
    requires lo <= mid <= hi <= a.Length
    modifies a
    ensures a[..] == Splice(old(a[..]), lo, hi, old(a[..])[mid..hi] + old(a[..])[lo..mid])
  {
    ghost var s := a[..];
    ghost var l, r := s[lo..mid], s[mid..hi];
    if mid == lo || mid == hi {
      assert s == Splice(s, lo, hi, r + l);
      return;
    }
    hide Splice, Reversed;
    Reverse(a, lo, mid);
    SpliceApart(s, lo, mid, Reversed(l), mid, hi);
    Reverse(a, mid, hi);
    SpliceTwice(s, lo, mid, hi, Reversed(l), Reversed(r));
    SpliceSlices(s, lo, hi, Reversed(l) + Reversed(r));
    Reverse(a, lo, hi);
    RotateByReversing(l, r);
    SpliceOver(s, lo, hi, Reversed(l) + Reversed(r), lo, hi, r + l);
  }

  lemma RotateByReversing<T>(l: seq<T>, r: seq<T>)
    ensures Reversed(Reversed(l) + Reversed(r)) == r + l
  {
    var t := Reversed(l) + Reversed(r);
    forall i | 0 <= i < |t| ensures Reversed(t)[i] == (r + l)[i] {
      assert Reversed(t)[i] == t[|t| - 1 - i];
    }
  }
}
