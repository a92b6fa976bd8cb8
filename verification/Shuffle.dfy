/** tda_span_shuffle and tda_span_shuffle_prefix of src/algo/permute.c, over given draws. */
module Shuffle {
  import opened Core
  import opened Span

  // ----- the whole span, walking down

  /** The draws of the steps i, i - 1, ..., 2: each below its i. */
  predicate ValidDraws(draws: seq<nat>, i: nat) {
    if i < 2 then draws == [] else draws != [] && draws[0] < i && ValidDraws(draws[1..], i - 1)
  }

  /** The steps from i down: each settles position i - 1. */
  function Shuffled<T>(s: seq<T>, i: nat, draws: seq<nat>): (r: seq<T>)
    requires i <= |s| && ValidDraws(draws, i)
    ensures |r| == |s|
    decreases i
  {
    if i < 2 then s else Shuffled(Swapped(s, i - 1, draws[0]), i - 1, draws[1..])
  }

  lemma {:induction false} ShuffledKeeps<T>(s: seq<T>, i: nat, draws: seq<nat>)
    requires i <= |s| && ValidDraws(draws, i)
    ensures multiset(Shuffled(s, i, draws)) == multiset(s)
    ensures forall k :: i <= k < |s| ==> Shuffled(s, i, draws)[k] == s[k]
    decreases i
  {
    if i >= 2 {
      var t := Swapped(s, i - 1, draws[0]);
      SwappedMultiset(s, i - 1, draws[0]);
      ShuffledKeeps(t, i - 1, draws[1..]);
    }
  }

  /** The first draw picks the element for the last place; what is behind it stays. */
  lemma FirstDraw<T>(s: seq<T>, i: nat, draws: seq<nat>)
    requires 2 <= i <= |s| && ValidDraws(draws, i)
    ensures Shuffled(s, i, draws)[i - 1] == s[draws[0]]
    ensures Shuffled(s, i, draws) == Shuffled(s[i - 1 := s[draws[0]]][draws[0] := s[i - 1]], i - 1, draws[1..])
  {
    ShuffledKeeps(Swapped(s, i - 1, draws[0]), i - 1, draws[1..]);
  }

  lemma DistinctAt<T>(s: seq<T>, i: nat, j: nat)
    requires Distinct(s) && i < |s| && j < |s| && s[i] == s[j]
    ensures i == j
  {
  }

  lemma SwappedDistinct<T>(s: seq<T>, i: nat, j: nat)
    requires i < |s| && j < |s| && Distinct(s)
    ensures Distinct(Swapped(s, i, j))
  {
  }

  /** Two draw sequences that give the same arrangement of distinct elements are the same. */
  lemma {:induction false} ShuffleInjective<T>(s: seq<T>, i: nat, p: seq<nat>, q: seq<nat>)
    requires i <= |s| && ValidDraws(p, i) && ValidDraws(q, i) && Distinct(s)
    requires Shuffled(s, i, p) == Shuffled(s, i, q)
    ensures p == q
    decreases i
  {
    hide Distinct;
    if i >= 2 {
      var t, u := Swapped(s, i - 1, p[0]), Swapped(s, i - 1, q[0]);
      ShuffledKeeps(t, i - 1, p[1..]);
      ShuffledKeeps(u, i - 1, q[1..]);
      assert t[i - 1] == u[i - 1];
      assert s[p[0]] == s[q[0]];
      DistinctAt(s, p[0], q[0]);
      SwappedDistinct(s, i - 1, p[0]);
      ShuffleInjective(t, i - 1, p[1..], q[1..]);
      assert p == [p[0]] + p[1..] && q == [q[0]] + q[1..];
    }
  }

  /** The draws that lead to a given arrangement, each read off the position its step settles. */
  lemma {:induction false} DrawsFor<T>(s: seq<T>, i: nat, r: seq<T>) returns (draws: seq<nat>)
    requires i <= |s| == |r| && multiset(r) == multiset(s)
    requires forall k :: i <= k < |s| ==> r[k] == s[k]
    ensures ValidDraws(draws, i) && Shuffled(s, i, draws) == r
    decreases i
  {
    if i < 2 {
      draws := [];
      LastSettled(s, i, r);
    } else {
      var d := FindBelow(s, i, r);
      var t := Swapped(s, i - 1, d);
      SwappedMultiset(s, i - 1, d);
      var rest := DrawsFor(t, i - 1, r);
      draws := [d] + rest;
      assert draws[1..] == rest;
    }
  }

  lemma LastSettled<T>(s: seq<T>, i: nat, r: seq<T>)
    requires i < 2 && i <= |s| == |r| && multiset(r) == multiset(s)
    requires forall k :: i <= k < |s| ==> r[k] == s[k]
    ensures s == r
  {
    if i == 1 {
      assert s == [s[0]] + s[1..] && r == [r[0]] + r[1..] && s[1..] == r[1..];
      assert multiset{s[0]} == multiset(s) - multiset(s[1..]);
      assert multiset{r[0]} == multiset(s) - multiset(s[1..]);
      assert s[0] in multiset{r[0]};
    }
  }

  /** The element due at i - 1 is among those not placed yet. */
  lemma FindBelow<T>(s: seq<T>, i: nat, r: seq<T>) returns (d: nat)
    requires 0 < i <= |s| == |r| && multiset(r) == multiset(s)
    requires forall k :: i <= k < |s| ==> r[k] == s[k]
    ensures d < i && s[d] == r[i - 1]
  {
    assert s == s[..i] + s[i..] && r == r[..i] + r[i..] && s[i..] == r[i..];
    assert multiset(s[..i]) == multiset(r[..i]) by {
      assert multiset(s[..i]) == multiset(s) - multiset(s[i..]);
      assert multiset(r[..i]) == multiset(r) - multiset(r[i..]);
    }
    assert r[i - 1] == r[..i][i - 1];
    assert r[i - 1] in multiset(r[..i]);
    assert r[i - 1] in s[..i];
    d :| 0 <= d < i && s[..i][d] == r[i - 1];
  }

  /** Fisher-Yates: every arrangement of distinct elements comes from exactly one draw sequence. */
  lemma ShuffleIsBijective<T>(s: seq<T>, r: seq<T>) returns (draws: seq<nat>)
    requires Distinct(s) && multiset(r) == multiset(s)
    ensures ValidDraws(draws, |s|) && Shuffled(s, |s|, draws) == r
    ensures forall other :: ValidDraws(other, |s|) && Shuffled(s, |s|, other) == r ==> other == draws
  {
    assert |multiset(r)| == |r| && |multiset(s)| == |s|;
    draws := DrawsFor(s, |s|, r);
    forall other | ValidDraws(other, |s|) && Shuffled(s, |s|, other) == r ensures other == draws {
      ShuffleInjective(s, |s|, other, draws);
    }
  }

  method ShuffleSpan<T>(a: array<T>, draws: seq<nat>)
    requires ValidDraws(draws, a.Length)
    modifies a
    ensures a[..] == Shuffled(old(a[..]), a.Length, draws)
  {
    var i: nat, used: nat := a.Length, 0;
    ghost var goal := Shuffled(a[..], a.Length, draws);
    assert draws[0..] == draws;
    while i > 1
      invariant i <= a.Length && used <= |draws| && ValidDraws(draws[used..], i)
      invariant Shuffled(a[..], i, draws[used..]) == goal
    {
      assert draws[used..][1..] == draws[used + 1..];
      Swap(a, i - 1, draws[used]);
      i, used := i - 1, used + 1;
    }
  }

  // ----- the prefix, walking up

  /** The draws of the steps i, i + 1, ..., count - 1 in a span of n: each below n - i. */
  predicate ValidPicks(picks: seq<nat>, i: nat, count: nat, n: nat)
    decreases count - i
  {
    if i >= count then picks == []
    else i < n && picks != [] && picks[0] < n - i && ValidPicks(picks[1..], i + 1, count, n)
  }

  /** The steps from i up: each settles position i. */
  function Picked<T>(s: seq<T>, i: nat, count: nat, picks: seq<nat>): (r: seq<T>)
    requires count <= |s| && ValidPicks(picks, i, count, |s|)
    ensures |r| == |s|
    decreases count - i
  {
    if i >= count then s else Picked(Swapped(s, i, i + picks[0]), i + 1, count, picks[1..])
  }

  lemma {:induction false} PickedKeeps<T>(s: seq<T>, i: nat, count: nat, picks: seq<nat>)
    requires count <= |s| && ValidPicks(picks, i, count, |s|)
    ensures multiset(Picked(s, i, count, picks)) == multiset(s)
    ensures forall k :: 0 <= k < i && k < |s| ==> Picked(s, i, count, picks)[k] == s[k]
    decreases count - i
  {
    if i < count {
      SwappedMultiset(s, i, i + picks[0]);
      PickedKeeps(Swapped(s, i, i + picks[0]), i + 1, count, picks[1..]);
    }
  }

  /** The first pick, counted from its place, is the element that comes to stand there. */
  lemma FirstPick<T>(s: seq<T>, i: nat, count: nat, picks: seq<nat>)
    requires i < count <= |s| && ValidPicks(picks, i, count, |s|)
    ensures Picked(s, i, count, picks)[i] == s[i + picks[0]]
    ensures Picked(s, i, count, picks)
            == Picked(s[i := s[i + picks[0]]][i + picks[0] := s[i]], i + 1, count, picks[1..])
  {
    PickedKeeps(Swapped(s, i, i + picks[0]), i + 1, count, picks[1..]);
  }

  lemma {:induction false} PicksInjective<T>(s: seq<T>, i: nat, count: nat, p: seq<nat>, q: seq<nat>)
    requires count <= |s| && ValidPicks(p, i, count, |s|) && ValidPicks(q, i, count, |s|) && Distinct(s)
    requires Picked(s, i, count, p)[..count] == Picked(s, i, count, q)[..count]
    ensures p == q
    decreases count - i
  {
    hide Distinct, Picked, ValidPicks, Swapped;
    if i < count {
      PickedStep(s, i, count, p);
      PickedStep(s, i, count, q);
      assert Picked(s, i, count, p)[..count][i] == Picked(s, i, count, q)[..count][i];
      DistinctAt(s, i + p[0], i + q[0]);
      SwappedDistinct(s, i, i + p[0]);
      PicksInjective(Swapped(s, i, i + p[0]), i + 1, count, p[1..], q[1..]);
      assert p == [p[0]] + p[1..] && q == [q[0]] + q[1..];
    } else {
      NoPicks(p, i, count, |s|);
      NoPicks(q, i, count, |s|);
    }
  }

  lemma NoPicks(picks: seq<nat>, i: nat, count: nat, n: nat)
    requires ValidPicks(picks, i, count, n) && i >= count
    ensures picks == []
  {
  }

  /** One step, and what it settles for good. */
  lemma PickedStep<T>(s: seq<T>, i: nat, count: nat, picks: seq<nat>)
    requires i < count <= |s| && ValidPicks(picks, i, count, |s|)
    ensures picks != [] && picks[0] < |s| - i && ValidPicks(picks[1..], i + 1, count, |s|)
    ensures Picked(s, i, count, picks) == Picked(Swapped(s, i, i + picks[0]), i + 1, count, picks[1..])
    ensures Picked(s, i, count, picks)[i] == s[i + picks[0]]
  {
    PickedKeeps(Swapped(s, i, i + picks[0]), i + 1, count, picks[1..]);
  }

  lemma {:induction false} PicksFor<T>(s: seq<T>, i: nat, front: seq<T>) returns (picks: seq<nat>)
    requires i <= |front| <= |s| && s[..i] == front[..i]
    requires Distinct(s) && Distinct(front) && forall x :: x in front ==> x in s
    ensures ValidPicks(picks, i, |front|, |s|) && Picked(s, i, |front|, picks)[..|front|] == front
    decreases |front| - i
  {
    hide Distinct, Swapped;
    if i == |front| {
      picks := [];
    } else {
      var k := FindDue(s, i, front);
      var t := Swapped(s, i, k);
      SwapSettles(s, i, k, front);
      var rest := PicksFor(t, i + 1, front);
      picks := [k - i] + rest;
      assert picks[1..] == rest;
    }
  }

  /** The element due at i is not among those placed already. */
  lemma FindDue<T>(s: seq<T>, i: nat, front: seq<T>) returns (k: nat)
    requires i < |front| <= |s| && s[..i] == front[..i]
    requires Distinct(front) && forall x :: x in front ==> x in s
    ensures i <= k < |s| && s[k] == front[i]
  {
    assert front[i] in front;
    k :| 0 <= k < |s| && s[k] == front[i];
    assert forall j :: 0 <= j < i ==> s[j] == s[..i][j] == front[..i][j] == front[j];
  }

  lemma SwapSettles<T>(s: seq<T>, i: nat, k: nat, front: seq<T>)
    requires i < |front| <= |s| && s[..i] == front[..i] && i <= k < |s| && s[k] == front[i]
    requires Distinct(s) && forall x :: x in front ==> x in s
    ensures var t := Swapped(s, i, k);
            Distinct(t) && t[..i + 1] == front[..i + 1] && forall x :: x in front ==> x in t
  {
    var t := Swapped(s, i, k);
    SwappedDistinct(s, i, k);
    SwappedMultiset(s, i, k);
    forall x | x in front ensures x in t {
      assert x in multiset(s);
      assert x in multiset(t);
    }
    assert t[..i] == s[..i];
    assert t[..i + 1] == t[..i] + [t[i]] && front[..i + 1] == front[..i] + [front[i]];
  }

  /**
   The settled prefix is a fair sample: every choice of distinct elements in every order comes
   from exactly one draw sequence.
   */
  lemma PrefixIsBijective<T>(s: seq<T>, front: seq<T>) returns (picks: seq<nat>)
    requires Distinct(s) && Distinct(front) && |front| <= |s| && forall x :: x in front ==> x in s
    ensures ValidPicks(picks, 0, |front|, |s|) && Picked(s, 0, |front|, picks)[..|front|] == front
    ensures forall other :: ValidPicks(other, 0, |front|, |s|) && Picked(s, 0, |front|, other)[..|front|] == front
              ==> other == picks
  {
    picks := PicksFor(s, 0, front);
    forall other | ValidPicks(other, 0, |front|, |s|) && Picked(s, 0, |front|, other)[..|front|] == front
      ensures other == picks
    {
      PicksInjective(s, 0, |front|, other, picks);
    }
  }

  method ShufflePrefix<T>(a: array<T>, count: nat, picks: seq<nat>)
    requires count <= a.Length && ValidPicks(picks, 0, count, a.Length)
    modifies a
    ensures a[..] == Picked(old(a[..]), 0, count, picks)
  {
    ghost var goal := Picked(a[..], 0, count, picks);
    assert picks[0..] == picks;
    var i := 0;
    while i < count
      invariant i <= count && i <= |picks| && ValidPicks(picks[i..], i, count, a.Length)
      invariant Picked(a[..], i, count, picks[i..]) == goal
    {
      assert picks[i..][1..] == picks[i + 1..];
      Swap(a, i, i + picks[i]);
      i := i + 1;
    }
  }
}
