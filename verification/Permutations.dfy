/**
 permute_step of src/algo/permute.c: the next or the previous arrangement of a span in the
 lexicographic order of a comparator.
 */
module Permutations {
  import opened Arith
  import opened Order
  import opened Span

  // ----- the lexicographic order

  ghost predicate LexLess<T>(s: seq<T>, t: seq<T>, cmp: (T, T) -> int)
  {
    && s != [] && t != []
    && (cmp(s[0], t[0]) < 0 || (cmp(s[0], t[0]) == 0 && LexLess(s[1..], t[1..], cmp)))
  }

  /** Element by element the comparator cannot tell the two apart. */
  ghost predicate Alike<T>(s: seq<T>, t: seq<T>, cmp: (T, T) -> int)
  {
    |s| == |t| && forall i :: 0 <= i < |s| ==> cmp(s[i], t[i]) == 0
  }

  lemma {:induction false} LexTotal<T(!new)>(s: seq<T>, t: seq<T>, cmp: (T, T) -> int)
    requires TotalPreorder(cmp) && |s| == |t| && !LexLess(s, t, cmp) && !LexLess(t, s, cmp)
    ensures Alike(s, t, cmp)
  {
    if s != [] {
      LexTotal(s[1..], t[1..], cmp);
      assert forall i :: 1 <= i < |s| ==> s[i] == s[1..][i - 1] && t[i] == t[1..][i - 1];
    }
  }

  lemma {:induction false} LexTransitive<T(!new)>(s: seq<T>, t: seq<T>, u: seq<T>, cmp: (T, T) -> int)
    requires TotalPreorder(cmp) && LexLess(s, t, cmp) && LexLess(t, u, cmp)
    ensures LexLess(s, u, cmp)
  {
    if cmp(s[0], t[0]) == 0 && cmp(t[0], u[0]) == 0 {
      LexTransitive(s[1..], t[1..], u[1..], cmp);
    }
  }

  lemma {:induction false} LexAlike<T(!new)>(s: seq<T>, t: seq<T>, cmp: (T, T) -> int)
    requires TotalPreorder(cmp) && Alike(s, t, cmp)
    ensures !LexLess(s, t, cmp) && !LexLess(t, s, cmp)
  {
    if s != [] {
      assert forall i :: 0 <= i < |s| - 1 ==> s[1..][i] == s[i + 1] && t[1..][i] == t[i + 1];
      LexAlike(s[1..], t[1..], cmp);
    }
  }

  lemma {:induction false} LexPrefix<T(!new)>(p: seq<T>, s: seq<T>, t: seq<T>, cmp: (T, T) -> int)
    requires TotalPreorder(cmp) && LexLess(s, t, cmp)
    ensures LexLess(p + s, p + t, cmp)
  {
    if p == [] {
      assert p + s == s && p + t == t;
    } else {
      LexPrefix(p[1..], s, t, cmp);
      assert (p + s)[1..] == p[1..] + s && (p + t)[1..] == p[1..] + t;
    }
  }

  // ----- arrangements

  /** Each class of equal elements is represented as often in both. */
  ghost predicate SameClasses<T(!new)>(s: seq<T>, t: seq<T>, cmp: (T, T) -> int)
  {
    forall key :: |Peers(s, key, cmp)| == |Peers(t, key, cmp)|
  }

  lemma PermutationKeepsClasses<T(!new)>(s: seq<T>, t: seq<T>, cmp: (T, T) -> int)
    requires multiset(s) == multiset(t)
    ensures SameClasses(s, t, cmp)
  {
    forall key ensures |Peers(s, key, cmp)| == |Peers(t, key, cmp)| {
      PermutationKeepsClass(s, t, key, cmp);
    }
  }

  lemma {:induction false} PermutationKeepsClass<T>(s: seq<T>, t: seq<T>, key: T, cmp: (T, T) -> int)
    requires multiset(s) == multiset(t)
    ensures |Peers(s, key, cmp)| == |Peers(t, key, cmp)|
    decreases |s|
  {
    hide Peers, Without;
    assert |s| == |multiset(s)| == |multiset(t)| == |t|;
    if s != [] {
      var i := IndexIn(t, s[0]);
      TakenOut(s, 0);
      TakenOut(t, i);
      PermutationKeepsClass(Without(s, 0), Without(t, i), key, cmp);
      PeersTakenOut(s, 0, key, cmp);
      PeersTakenOut(t, i, key, cmp);
    }
  }

  function Without<T>(s: seq<T>, i: nat): (r: seq<T>)
    requires i < |s|
    ensures |r| == |s| - 1
  {
    s[..i] + s[i + 1..]
  }

  lemma IndexIn<T>(s: seq<T>, x: T) returns (i: nat)
    requires x in multiset(s)
    ensures i < |s| && s[i] == x
  {
    i :| 0 <= i < |s| && s[i] == x;
  }

  lemma TakenOut<T>(s: seq<T>, i: nat)
    requires i < |s|
    ensures s[i] in multiset(s) && multiset(Without(s, i)) == multiset(s) - multiset{s[i]}
  {
    assert s == s[..i] + ([s[i]] + s[i + 1..]);
  }

  lemma PeersTakenOut<T>(s: seq<T>, i: nat, key: T, cmp: (T, T) -> int)
    requires i < |s|
    ensures |Peers(s, key, cmp)| == |Peers(Without(s, i), key, cmp)| + if cmp(s[i], key) == 0 then 1 else 0
  {
    hide Peers;
    assert s == s[..i] + ([s[i]] + s[i + 1..]);
    PeersConcat(s[..i], s[i + 1..], key, cmp);
    PeersConcat(s[..i], [s[i]] + s[i + 1..], key, cmp);
    PeersCons(s[i], s[i + 1..], key, cmp);
  }

  lemma ClassesTail<T(!new)>(s: seq<T>, t: seq<T>, cmp: (T, T) -> int)
    requires TotalPreorder(cmp) && s != [] && t != [] && SameClasses(s, t, cmp) && cmp(s[0], t[0]) == 0
    ensures SameClasses(s[1..], t[1..], cmp)
  {
    forall key ensures |Peers(s[1..], key, cmp)| == |Peers(t[1..], key, cmp)| {
      assert |Peers(s, key, cmp)| == |Peers(t, key, cmp)|;
      PeersTail(s, key, cmp);
      PeersTail(t, key, cmp);
    }
  }

  /** An element of one arrangement has a peer in every other. */
  lemma HasPeer<T(!new)>(s: seq<T>, t: seq<T>, x: T, cmp: (T, T) -> int) returns (k: nat)
    requires TotalPreorder(cmp) && SameClasses(s, t, cmp) && x in t
    ensures k < |s| && cmp(s[k], x) == 0
  {
    var i :| 0 <= i < |t| && t[i] == x;
    PeersMember(t, x, i, cmp);
    assert |Peers(s, x, cmp)| == |Peers(t, x, cmp)| > 0;
    var y := Peers(s, x, cmp)[0];
    PeersFrom(s, x, cmp);
    assert y in Peers(s, x, cmp) && y in s;
    k :| 0 <= k < |s| && s[k] == y;
  }

  ghost predicate Descending<T>(s: seq<T>, cmp: (T, T) -> int)
  {
    forall i, j :: 0 <= i < j < |s| ==> cmp(s[i], s[j]) >= 0
  }

  /** No arrangement follows a descending one. */
  lemma {:induction false} DescendingIsLast<T(!new)>(d: seq<T>, u: seq<T>, cmp: (T, T) -> int)
    requires TotalPreorder(cmp) && Descending(d, cmp) && SameClasses(d, u, cmp)
    ensures !LexLess(d, u, cmp)
  {
    if d != [] && u != [] {
      var k := HasPeer(d, u, u[0], cmp);
      assert k > 0 ==> cmp(d[0], d[k]) >= 0;
      if cmp(d[0], u[0]) == 0 {
        ClassesTail(d, u, cmp);
        DescendingIsLast(d[1..], u[1..], cmp);
      }
    }
  }

  /** No arrangement precedes a sorted one. */
  lemma {:induction false} SortedIsFirst<T(!new)>(e: seq<T>, u: seq<T>, cmp: (T, T) -> int)
    requires TotalPreorder(cmp) && Sorted(e, cmp) && SameClasses(e, u, cmp)
    ensures !LexLess(u, e, cmp)
  {
    if e != [] && u != [] {
      var k := HasPeer(e, u, u[0], cmp);
      assert k > 0 ==> cmp(e[0], e[k]) <= 0;
      if cmp(u[0], e[0]) == 0 {
        ClassesTail(e, u, cmp);
        SortedIsFirst(e[1..], u[1..], cmp);
      }
    }
  }

  // ----- the step

  /**
   What one step promises: `r` is the arrangement right after `s`, or, when `s` is the
   last one, the first.
   */
  ghost predicate Step<T(!new)>(s: seq<T>, r: seq<T>, found: bool, cmp: (T, T) -> int)
  {
    && multiset(r) == multiset(s)
    && (found ==> LexLess(s, r, cmp))
    && (found ==> forall u :: multiset(u) == multiset(s) && LexLess(s, u, cmp) ==> !LexLess(u, r, cmp))
    && (!found ==> forall u :: multiset(u) == multiset(s) ==> !LexLess(s, u, cmp) && !LexLess(u, r, cmp))
  }

  /** The tail after the pivot once its mate has been swapped out and it is turned round. */
  lemma TurnedTail<T(!new)>(x: T, d: seq<T>, j: nat, cmp: (T, T) -> int)
    requires TotalPreorder(cmp) && Descending(d, cmp) && j < |d| && cmp(x, d[j]) < 0
    requires forall k :: j < k < |d| ==> cmp(x, d[k]) >= 0
    ensures Sorted(Reversed(d[j := x]), cmp)
    ensures multiset([d[j]] + Reversed(d[j := x])) == multiset([x] + d)
  {
    var d' := d[j := x];
    assert forall k :: 0 <= k < j ==> cmp(d[k], x) > 0 by {
      assert forall k :: 0 <= k < j ==> cmp(d[k], d[j]) >= 0;
    }
    assert Descending(d', cmp);
    DescendingReversed(d', cmp);
    ReversedMultiset(d');
  }

  lemma DescendingReversed<T(!new)>(d: seq<T>, cmp: (T, T) -> int)
    requires TotalPreorder(cmp) && Descending(d, cmp)
    ensures Sorted(Reversed(d), cmp)
  {
    var e := Reversed(d);
    forall i, j | 0 <= i < j < |e| ensures cmp(e[i], e[j]) <= 0 {
      assert cmp(d[|d| - 1 - j], d[|d| - 1 - i]) >= 0;
    }
  }

  /** Nothing lies between when the pivot is the first element. */
  lemma NothingBetween<T(!new)>(x: T, d: seq<T>, y: T, e: seq<T>, j: nat, u: seq<T>, cmp: (T, T) -> int)
    requires TotalPreorder(cmp) && Descending(d, cmp) && j < |d| && y == d[j] && cmp(x, y) < 0
    requires forall k :: j < k < |d| ==> cmp(x, d[k]) >= 0
    requires Sorted(e, cmp) && multiset([y] + e) == multiset([x] + d)
    requires SameClasses([x] + d, u, cmp) && LexLess([x] + d, u, cmp)
    ensures !LexLess(u, [y] + e, cmp)
  {
    var s := [x] + d;
    assert s[1..] == d && ([y] + e)[1..] == e;
    if cmp(x, u[0]) == 0 {
      ClassesTail(s, u, cmp);
      DescendingIsLast(d, u[1..], cmp);
      assert false;
    }
    var k := HasPeer(s, u, u[0], cmp);
    assert k > 0 && s[k] == d[k - 1];
    assert k - 1 <= j;
    assert k - 1 < j ==> cmp(d[k - 1], d[j]) >= 0;
    assert cmp(y, u[0]) <= 0;
    if cmp(u[0], y) == 0 {
      PermutationKeepsClasses(s, [y] + e, cmp);
      assert SameClasses([y] + e, u, cmp) by {
        forall key ensures |Peers([y] + e, key, cmp)| == |Peers(u, key, cmp)| {
          assert |Peers(s, key, cmp)| == |Peers([y] + e, key, cmp)|;
          assert |Peers(s, key, cmp)| == |Peers(u, key, cmp)|;
        }
      }
      ClassesTail([y] + e, u, cmp);
      SortedIsFirst(e, u[1..], cmp);
    }
  }

  /** ... nor behind any common prefix. */
  lemma {:induction false} NothingBetweenAfter<T(!new)>(p: seq<T>, x: T, d: seq<T>, y: T, e: seq<T>, j: nat,
                                                        u: seq<T>, cmp: (T, T) -> int)
    requires TotalPreorder(cmp) && Descending(d, cmp) && j < |d| && y == d[j] && cmp(x, y) < 0
    requires forall k :: j < k < |d| ==> cmp(x, d[k]) >= 0
    requires Sorted(e, cmp) && multiset([y] + e) == multiset([x] + d)
    requires SameClasses(p + ([x] + d), u, cmp) && LexLess(p + ([x] + d), u, cmp)
    ensures !LexLess(u, p + ([y] + e), cmp)
  {
    var s, r := p + ([x] + d), p + ([y] + e);
    if p == [] {
      assert s == [x] + d && r == [y] + e;
      NothingBetween(x, d, y, e, j, u, cmp);
    } else {
      assert s[1..] == p[1..] + ([x] + d) && r[1..] == p[1..] + ([y] + e);
      if cmp(s[0], u[0]) == 0 {
        ClassesTail(s, u, cmp);
        NothingBetweenAfter(p[1..], x, d, y, e, j, u[1..], cmp);
      }
    }
  }

  lemma StepForward<T(!new)>(p: seq<T>, x: T, d: seq<T>, j: nat, cmp: (T, T) -> int)
    requires TotalPreorder(cmp) && Descending(d, cmp) && j < |d| && cmp(x, d[j]) < 0
    requires forall k :: j < k < |d| ==> cmp(x, d[k]) >= 0
    ensures Step(p + ([x] + d), p + ([d[j]] + Reversed(d[j := x])), true, cmp)
  {
    var y, e := d[j], Reversed(d[j := x]);
    var s, r := p + ([x] + d), p + ([y] + e);
    TurnedTail(x, d, j, cmp);
    assert multiset(r) == multiset(p) + multiset([y] + e);
    assert LexLess([x] + d, [y] + e, cmp);
    LexPrefix(p, [x] + d, [y] + e, cmp);
    forall u | multiset(u) == multiset(s) && LexLess(s, u, cmp) ensures !LexLess(u, r, cmp) {
      PermutationKeepsClasses(s, u, cmp);
      NothingBetweenAfter(p, x, d, y, e, j, u, cmp);
    }
  }

  lemma StepWrap<T(!new)>(s: seq<T>, cmp: (T, T) -> int)
    requires TotalPreorder(cmp) && Descending(s, cmp)
    ensures Step(s, Reversed(s), false, cmp)
  {
    ReversedMultiset(s);
    DescendingReversed(s, cmp);
    forall u | multiset(u) == multiset(s) ensures !LexLess(s, u, cmp) && !LexLess(u, Reversed(s), cmp) {
      PermutationKeepsClasses(s, u, cmp);
      PermutationKeepsClasses(Reversed(s), u, cmp);
      DescendingIsLast(s, u, cmp);
      SortedIsFirst(Reversed(s), u, cmp);
    }
  }

  // ----- both directions

  function Flip<T>(cmp: (T, T) -> int): (T, T) -> int {
    (x, y) => cmp(y, x)
  }

  /** The order a walk goes in: a descending walk swaps the operands. */
  function Walk<T>(cmp: (T, T) -> int, asc: bool): (T, T) -> int {
    if asc then cmp else Flip(cmp)
  }

  lemma FlipIsPreorder<T(!new)>(cmp: (T, T) -> int)
    requires TotalPreorder(cmp)
    ensures TotalPreorder(Flip(cmp))
  {
  }

  lemma {:induction false} FlipLess<T(!new)>(s: seq<T>, t: seq<T>, cmp: (T, T) -> int)
    requires TotalPreorder(cmp)
    ensures LexLess(s, t, Flip(cmp)) <==> LexLess(t, s, cmp)
  {
    if s != [] && t != [] {
      FlipLess(s[1..], t[1..], cmp);
    }
  }

  /**
   `r` is the arrangement right after `s` in the order of `cmp`: greater, with none in between.
   */
  ghost predicate RightAfter<T(!new)>(r: seq<T>, s: seq<T>, cmp: (T, T) -> int) {
    && LexLess(s, r, cmp)
    && forall u :: multiset(u) == multiset(s) && LexLess(s, u, cmp) ==> !LexLess(u, r, cmp)
  }

  /**
   permute_step, ascending for next_permutation: true with the arrangement right after, or, descending,
   with the one that this is right after; false once there is none, with the span sorted, or descending.
   */
  method PermuteStep<T(!new)>(a: array<T>, cmp: (T, T) -> int, asc: bool, honest: bool) returns (found: bool)
    requires honest ==> TotalPreorder(cmp)
    modifies a
    ensures multiset(a[..]) == multiset(old(a[..]))
    ensures honest ==> Step(old(a[..]), a[..], found, Walk(cmp, asc))
    ensures honest && asc && found ==> RightAfter(a[..], old(a[..]), cmp)
    ensures honest && !asc && found ==> RightAfter(old(a[..]), a[..], cmp)
    ensures honest && asc && !found ==> Descending(old(a[..]), cmp) && Sorted(a[..], cmp)
    ensures honest && !asc && !found ==> Sorted(old(a[..]), cmp) && Descending(a[..], cmp)
  {
    hide *;
    found := WalkStep(a, cmp, asc, honest);
    if honest {
      Directed(old(a[..]), a[..], found, cmp, asc);
    }
  }

  /** What a step along the walk comes to in the order of `cmp` itself. */
  lemma Directed<T(!new)>(s: seq<T>, r: seq<T>, found: bool, cmp: (T, T) -> int, asc: bool)
    requires TotalPreorder(cmp) && Step(s, r, found, Walk(cmp, asc))
    requires !found ==> Descending(s, Walk(cmp, asc)) && Sorted(r, Walk(cmp, asc))
    ensures asc && found ==> RightAfter(r, s, cmp)
    ensures !asc && found ==> RightAfter(s, r, cmp)
    ensures asc && !found ==> Descending(s, cmp) && Sorted(r, cmp)
    ensures !asc && !found ==> Sorted(s, cmp) && Descending(r, cmp)
  {
    hide LexLess;
    if !asc {
      forall u, v ensures LexLess(u, v, Flip(cmp)) <==> LexLess(v, u, cmp) {
        FlipLess(u, v, cmp);
      }
    }
  }

  method WalkStep<T(!new)>(a: array<T>, cmp: (T, T) -> int, asc: bool, honest: bool) returns (found: bool)
    requires honest ==> TotalPreorder(cmp)
    modifies a
    ensures multiset(a[..]) == multiset(old(a[..]))
    ensures honest ==> Step(old(a[..]), a[..], found, Walk(cmp, asc))
    ensures honest && !found ==> Descending(old(a[..]), Walk(cmp, asc)) && Sorted(a[..], Walk(cmp, asc))
  {
    hide *;
    ghost var s, walk := a[..], Walk(cmp, asc);
    if honest {
      WalkIsPreorder(cmp, asc);
    }
    found := false;
    if a.Length < 2 {
      ShortStep(s, walk);
    } else {
      var pivot := FindPivot(a, cmp, asc, honest);
      assert a[..] == s;
      if pivot == 0 {
        Reverse(a, 0, a.Length);
        WrapAt(s, honest, walk);
      } else {
        Advance(a, pivot - 1, cmp, asc, honest);
        found := true;
      }
    }
  }

  /** The step once the pivot is found: swap it with its mate and turn the tail round. */
  method Advance<T(!new)>(a: array<T>, pivot: nat, cmp: (T, T) -> int, asc: bool, honest: bool)
    requires pivot + 1 < a.Length && (honest ==> TotalPreorder(Walk(cmp, asc)))
    requires honest ==> Descending(a[..][pivot + 1..], Walk(cmp, asc))
    requires honest ==> Walk(cmp, asc)(a[..][pivot], a[..][pivot + 1]) < 0
    modifies a
    ensures multiset(a[..]) == multiset(old(a[..]))
    ensures honest ==> Step(old(a[..]), a[..], true, Walk(cmp, asc))
  {
    hide Step, TotalPreorder, Splice, Reversed, Descending, Walk, Swapped;
    ghost var s, walk := a[..], Walk(cmp, asc);
    var mate := FindMate(a, pivot, cmp, asc, honest);
    assert a[..] == s;
    if honest {
      StepAt(s, pivot, mate, walk);
    }
    Swap(a, pivot, mate);
    Reverse(a, pivot + 1, a.Length);
    assert a[..] == Turned(s, pivot, mate);
    TurnedKeeps(s, pivot, mate);
  }

  /** `s` after the pivot and its mate have changed places and the tail is turned round. */
  ghost function Turned<T>(s: seq<T>, pivot: nat, mate: nat): seq<T>
    requires pivot < mate < |s|
  {
    var t := Swapped(s, pivot, mate);
    Splice(t, pivot + 1, |s|, Reversed(t[pivot + 1..|s|]))
  }

  lemma TurnedKeeps<T>(s: seq<T>, pivot: nat, mate: nat)
    requires pivot < mate < |s|
    ensures multiset(Turned(s, pivot, mate)) == multiset(s)
  {
    var t := Swapped(s, pivot, mate);
    ReversedMultiset(t[pivot + 1..|s|]);
    SpliceMultiset(t, pivot + 1, |s|, Reversed(t[pivot + 1..|s|]));
    SwappedMultiset(s, pivot, mate);
  }

  lemma TurnedParts<T>(s: seq<T>, pivot: nat, mate: nat)
    requires pivot < mate < |s|
    ensures var d, j := s[pivot + 1..], mate - pivot - 1;
            && s == s[..pivot] + ([s[pivot]] + d)
            && Turned(s, pivot, mate) == s[..pivot] + ([d[j]] + Reversed(d[j := s[pivot]]))
  {
    hide Reversed;
    var t := Swapped(s, pivot, mate);
    var d, j := s[pivot + 1..], mate - pivot - 1;
    assert t[pivot + 1..|s|] == d[j := s[pivot]];
    assert t[..pivot + 1] == s[..pivot] + [d[j]];
    assert t[|s|..] == [];
  }

  lemma StepAt<T(!new)>(s: seq<T>, pivot: nat, mate: nat, cmp: (T, T) -> int)
    requires TotalPreorder(cmp) && pivot < mate < |s| && Descending(s[pivot + 1..], cmp)
    requires cmp(s[pivot], s[mate]) < 0 && forall k :: mate < k < |s| ==> cmp(s[pivot], s[k]) >= 0
    ensures Step(s, Turned(s, pivot, mate), true, cmp)
  {
    hide Turned, Step, TotalPreorder, Descending;
    TurnedParts(s, pivot, mate);
    var d, j := s[pivot + 1..], mate - pivot - 1;
    assert d[j] == s[mate];
    forall k | j < k < |d| ensures cmp(s[pivot], d[k]) >= 0 {
      assert d[k] == s[pivot + 1 + k];
    }
    StepForward(s[..pivot], s[pivot], d, j, cmp);
  }

  lemma WalkIsPreorder<T(!new)>(cmp: (T, T) -> int, asc: bool)
    requires TotalPreorder(cmp)
    ensures TotalPreorder(Walk(cmp, asc))
  {
    FlipIsPreorder(cmp);
  }

  /** The start of the longest tail that does not ascend. */
  method FindPivot<T(!new)>(a: array<T>, cmp: (T, T) -> int, asc: bool, honest: bool) returns (pivot: nat)
    requires a.Length >= 2 && (honest ==> TotalPreorder(Walk(cmp, asc)))
    ensures pivot < a.Length
    ensures honest ==> Descending(a[..][pivot..], Walk(cmp, asc))
    ensures honest && pivot > 0 ==> Walk(cmp, asc)(a[..][pivot - 1], a[..][pivot]) < 0
  {
    ghost var s := a[..];
    pivot := a.Length - 1;
    while pivot > 0
      invariant pivot < a.Length && a[..] == s
      invariant honest ==> Descending(s[pivot..], Walk(cmp, asc))
    {
      var order := Ask(Walk(cmp, asc), honest, a[pivot - 1], a[pivot]);
      if order < 0 {
        return;
      }
      if honest {
        DescendingCons(s, pivot, Walk(cmp, asc));
      }
      pivot := pivot - 1;
    }
  }

  lemma DescendingCons<T(!new)>(s: seq<T>, pivot: nat, cmp: (T, T) -> int)
    requires TotalPreorder(cmp) && 0 < pivot < |s| && cmp(s[pivot - 1], s[pivot]) >= 0
    requires Descending(s[pivot..], cmp)
    ensures Descending(s[pivot - 1..], cmp)
  {
    var d, e := s[pivot..], s[pivot - 1..];
    assert e == [s[pivot - 1]] + d;
    forall i, j | 0 <= i < j < |e| ensures cmp(e[i], e[j]) >= 0 {
      assert i > 0 ==> cmp(d[i - 1], d[j - 1]) >= 0;
      assert j > 1 ==> cmp(d[0], d[j - 1]) >= 0;
    }
  }

  /** The last element of the tail that goes after the pivot. */
  method FindMate<T(!new)>(a: array<T>, pivot: nat, cmp: (T, T) -> int, asc: bool, honest: bool) returns (mate: nat)
    requires pivot + 1 < a.Length
    requires honest ==> Walk(cmp, asc)(a[..][pivot], a[..][pivot + 1]) < 0
    ensures pivot < mate < a.Length
    ensures honest ==> Walk(cmp, asc)(a[..][pivot], a[..][mate]) < 0
    ensures honest ==> forall k :: mate < k < a.Length ==> Walk(cmp, asc)(a[..][pivot], a[..][k]) >= 0
  {
    mate := a.Length - 1;
    while mate > pivot + 1
      invariant pivot < mate < a.Length
      invariant honest ==> forall k :: mate < k < a.Length ==> Walk(cmp, asc)(a[pivot], a[k]) >= 0
    {
      var order := Ask(Walk(cmp, asc), honest, a[pivot], a[mate]);
      if order < 0 {
        return;
      }
      mate := mate - 1;
    }
  }

  lemma ShortStep<T(!new)>(s: seq<T>, cmp: (T, T) -> int)
    requires |s| < 2
    ensures TotalPreorder(cmp) ==> Step(s, s, false, cmp) && Descending(s, cmp) && Sorted(s, cmp)
  {
    if TotalPreorder(cmp) {
      assert Reversed(s) == s;
      StepWrap(s, cmp);
    }
  }

  lemma WrapAt<T(!new)>(s: seq<T>, honest: bool, cmp: (T, T) -> int)
    requires honest ==> TotalPreorder(cmp) && Descending(s[0..], cmp)
    ensures var r := Splice(s, 0, |s|, Reversed(s[0..|s|]));
            multiset(r) == multiset(s) && (honest ==> Step(s, r, false, cmp) && Descending(s, cmp) && Sorted(r, cmp))
  {
    hide Step, Descending, TotalPreorder, Reversed;
    assert s[0..|s|] == s && s[0..] == s;
    assert Splice(s, 0, |s|, Reversed(s)) == Reversed(s);
    ReversedMultiset(s);
    if honest {
      DescendingReversed(s, cmp);
      StepWrap(s, cmp);
    }
  }

  // ----- what a walk of steps visits

  /** A step back undoes a step forward, as far as the comparator can tell; wrapping included. */
  lemma BackAfterForward<T(!new)>(s: seq<T>, r: seq<T>, back: seq<T>, found: bool, foundBack: bool, cmp: (T, T) -> int)
    requires TotalPreorder(cmp)
    requires Step(s, r, found, cmp) && Step(r, back, foundBack, Flip(cmp))
    ensures foundBack == found && Alike(s, back, cmp)
  {
    assert multiset(back) == multiset(s);
    assert |multiset(s)| == |s| && |multiset(back)| == |back|;
    FlipLess(r, s, cmp);
    FlipLess(r, back, cmp);
    FlipLess(s, back, cmp);
    assert found ==> foundBack;
    assert foundBack ==> found;
    assert !LexLess(s, back, cmp);
    assert !LexLess(back, s, cmp);
    LexTotal(s, back, cmp);
  }

  /** So next_permutation and then prev_permutation leave every span as it was, wrapping included. */
  method ForthAndBack<T(!new)>(a: array<T>, cmp: (T, T) -> int) returns (found: bool, foundBack: bool)
    requires TotalPreorder(cmp)
    modifies a
    ensures foundBack == found && Alike(old(a[..]), a[..], cmp)
  {
    hide Step, TotalPreorder, Alike, RightAfter, Sorted, Descending;
    ghost var s := a[..];
    found := PermuteStep(a, cmp, true, true);
    ghost var r := a[..];
    foundBack := PermuteStep(a, cmp, false, true);
    BackAfterForward(s, r, a[..], found, foundBack, cmp);
  }

  /** A run of next_permutation from a sorted span up to the call that returns false and wraps. */
  ghost predicate FullRun<T(!new)>(run: seq<seq<T>>, after: seq<T>, cmp: (T, T) -> int)
  {
    && run != [] && Sorted(run[0], cmp)
    && (forall k :: 0 <= k < |run| - 1 ==> Step(run[k], run[k + 1], true, cmp))
    && Step(run[|run| - 1], after, false, cmp)
  }

  lemma {:induction false} RunKeepsMultiset<T(!new)>(run: seq<seq<T>>, after: seq<T>, k: nat, cmp: (T, T) -> int)
    requires FullRun(run, after, cmp) && k < |run|
    ensures multiset(run[k]) == multiset(run[0])
  {
    if k > 0 {
      RunKeepsMultiset(run, after, k - 1, cmp);
      assert Step(run[k - 1], run[k - 1 + 1], true, cmp);
    }
  }

  lemma {:induction false} RunAscends<T(!new)>(run: seq<seq<T>>, after: seq<T>, j: nat, k: nat, cmp: (T, T) -> int)
    requires TotalPreorder(cmp) && FullRun(run, after, cmp) && j < k < |run|
    ensures LexLess(run[j], run[k], cmp)
    decreases k
  {
    assert Step(run[k - 1], run[k - 1 + 1], true, cmp);
    if j < k - 1 {
      RunAscends(run, after, j, k - 1, cmp);
      LexTransitive(run[j], run[k - 1], run[k], cmp);
    }
  }

  /** Every arrangement of the span is met, up to elements the comparator cannot tell apart... */
  lemma {:induction false} RunMeetsFrom<T(!new)>(run: seq<seq<T>>, after: seq<T>, u: seq<T>, k: nat,
                                                 cmp: (T, T) -> int)
    returns (m: nat)
    requires TotalPreorder(cmp) && FullRun(run, after, cmp) && multiset(u) == multiset(run[0]) && k < |run|
    requires !LexLess(u, run[k], cmp)
    ensures m < |run| && Alike(run[m], u, cmp)
    decreases |run| - k
  {
    RunKeepsMultiset(run, after, k, cmp);
    assert |multiset(u)| == |u| && |multiset(run[k])| == |run[k]|;
    if k == |run| - 1 {
      LexTotal(run[k], u, cmp);
      m := k;
    } else {
      assert Step(run[k], run[k + 1], true, cmp);
      if LexLess(u, run[k + 1], cmp) {
        LexTotal(run[k], u, cmp);
        m := k;
      } else {
        m := RunMeetsFrom(run, after, u, k + 1, cmp);
      }
    }
  }

  /** ... and met exactly once. */
  lemma RunVisitsEachOnce<T(!new)>(run: seq<seq<T>>, after: seq<T>, u: seq<T>, cmp: (T, T) -> int) returns (m: nat)
    requires TotalPreorder(cmp) && FullRun(run, after, cmp) && multiset(u) == multiset(run[0])
    ensures m < |run| && Alike(run[m], u, cmp)
    ensures forall k :: 0 <= k < |run| && Alike(run[k], u, cmp) ==> k == m
  {
    PermutationKeepsClasses(run[0], u, cmp);
    SortedIsFirst(run[0], u, cmp);
    m := RunMeetsFrom(run, after, u, 0, cmp);
    forall k | 0 <= k < |run| && Alike(run[k], u, cmp) ensures k == m {
      AlikeTogether(run[m], run[k], u, cmp);
      LexAlike(run[m], run[k], cmp);
      if k < m {
        RunAscends(run, after, k, m, cmp);
      } else if m < k {
        RunAscends(run, after, m, k, cmp);
      }
    }
  }

  lemma AlikeTogether<T(!new)>(s: seq<T>, t: seq<T>, u: seq<T>, cmp: (T, T) -> int)
    requires TotalPreorder(cmp) && Alike(s, u, cmp) && Alike(t, u, cmp)
    ensures Alike(s, t, cmp)
  {
    forall i | 0 <= i < |s| ensures cmp(s[i], t[i]) == 0 {
      assert cmp(s[i], u[i]) == 0 && cmp(t[i], u[i]) == 0;
    }
  }

  // ----- the walk ends

  /** How many elements of the span go before x: its digit. */
  ghost function Digit<T>(all: seq<T>, x: T, cmp: (T, T) -> int): (d: nat)
    ensures d <= |all|
  {
    if all == [] then 0 else (if cmp(all[0], x) < 0 then 1 else 0) + Digit(all[1..], x, cmp)
  }

  lemma {:induction false} DigitOrder<T(!new)>(all: seq<T>, x: T, y: T, cmp: (T, T) -> int)
    requires TotalPreorder(cmp) && cmp(x, y) <= 0
    ensures Digit(all, x, cmp) <= Digit(all, y, cmp)
    ensures cmp(x, y) < 0 && x in all ==> Digit(all, x, cmp) < Digit(all, y, cmp)
    ensures cmp(x, y) == 0 ==> Digit(all, x, cmp) == Digit(all, y, cmp)
  {
    if all != [] {
      DigitOrder(all[1..], x, y, cmp);
    }
  }

  ghost function Power(base: nat, k: nat): nat {
    if k == 0 then 1 else base * Power(base, k - 1)
  }

  /** The arrangement as a number: the digits of its elements, one more than the span is long to the base. */
  ghost function Numeral<T>(all: seq<T>, s: seq<T>, cmp: (T, T) -> int): nat {
    if s == [] then 0
    else Digit(all, s[0], cmp) * Power(|all| + 1, |s| - 1) + Numeral(all, s[1..], cmp)
  }

  lemma {:induction false} NumeralBound<T>(all: seq<T>, s: seq<T>, cmp: (T, T) -> int)
    ensures Numeral(all, s, cmp) < Power(|all| + 1, |s|)
  {
    if s != [] {
      NumeralBound(all, s[1..], cmp);
      Carries(Digit(all, s[0], cmp), |all| + 1, Power(|all| + 1, |s| - 1), Numeral(all, s[1..], cmp));
    }
  }

  lemma Carries(d: nat, e: nat, p: nat, x: nat)
    requires d < e && x < p
    ensures d * p + x < e * p
  {
    MulMonotone(d + 1, e, p);
    assert (d + 1) * p == d * p + p;
  }

  /** What comes later in the order is the greater number. */
  lemma {:induction false} NumeralOrder<T(!new)>(all: seq<T>, s: seq<T>, t: seq<T>, cmp: (T, T) -> int)
    requires TotalPreorder(cmp) && |s| == |t| && LexLess(s, t, cmp) && forall i :: 0 <= i < |s| ==> s[i] in all
    ensures Numeral(all, s, cmp) < Numeral(all, t, cmp)
  {
    hide Digit, Power, TotalPreorder;
    DigitOrder(all, s[0], t[0], cmp);
    if cmp(s[0], t[0]) < 0 {
      NumeralBound(all, s[1..], cmp);
      Carries(Digit(all, s[0], cmp), Digit(all, t[0], cmp), Power(|all| + 1, |s| - 1), Numeral(all, s[1..], cmp));
    } else {
      NumeralOrder(all, s[1..], t[1..], cmp);
    }
  }

  /** The number left to climb gets smaller with every step that finds an arrangement. */
  lemma StepClimbs<T(!new)>(all: seq<T>, s: seq<T>, t: seq<T>, cmp: (T, T) -> int)
    requires TotalPreorder(cmp) && Step(s, t, true, cmp) && multiset(s) == multiset(all)
    ensures multiset(t) == multiset(all) && |s| == |t| == |all|
    ensures Numeral(all, s, cmp) < Numeral(all, t, cmp) < Power(|all| + 1, |all|)
  {
    assert |multiset(s)| == |s| && |multiset(t)| == |t| && |multiset(all)| == |all|;
    forall i | 0 <= i < |s| ensures s[i] in all {
      assert s[i] in multiset(s);
    }
    NumeralOrder(all, s, t, cmp);
    NumeralBound(all, t, cmp);
  }

  /**
   The loop the header promises for: next_permutation (or prev_permutation) called on a span in its
   first arrangement until it returns false.  It ends, has met every arrangement once, and leaves
   the span, as far as the comparator can tell, as it was.
   */
  method VisitAll<T(!new)>(a: array<T>, cmp: (T, T) -> int, asc: bool) returns (visits: nat, ghost run: seq<seq<T>>)
    requires TotalPreorder(cmp) && if asc then Sorted(a[..], cmp) else Descending(a[..], cmp)
    modifies a
    ensures visits == |run| && FullRun(run, a[..], Walk(cmp, asc)) && run[0] == old(a[..])
    ensures forall u :: multiset(u) == multiset(old(a[..])) ==> MetOnce(run, u, Walk(cmp, asc))
    ensures Alike(a[..], old(a[..]), Walk(cmp, asc))
  {
    hide Step, TotalPreorder, Sorted, Descending, RightAfter, Numeral, Power, MetOnce, Alike, Walk;
    ghost var order, all := Walk(cmp, asc), a[..];
    WalkIsPreorder(cmp, asc);
    FirstOfWalk(all, cmp, asc);
    run, visits := [all], 1;
    var found := PermuteStep(a, cmp, asc, true);
    while found
      invariant run != [] && run[0] == all && visits == |run| && multiset(run[|run| - 1]) == multiset(all)
      invariant forall k :: 0 <= k < |run| - 1 ==> Step(run[k], run[k + 1], true, order)
      invariant Step(run[|run| - 1], a[..], found, order)
      decreases Power(|all| + 1, |all|) - Numeral(all, run[|run| - 1], order)
    {
      StepClimbs(all, run[|run| - 1], a[..], order);
      run, visits := run + [a[..]], visits + 1;
      found := PermuteStep(a, cmp, asc, true);
    }
    MeetsAll(run, a[..], order);
  }

  lemma FirstOfWalk<T(!new)>(s: seq<T>, cmp: (T, T) -> int, asc: bool)
    requires TotalPreorder(cmp) && if asc then Sorted(s, cmp) else Descending(s, cmp)
    ensures Sorted(s, Walk(cmp, asc))
  {
  }

  ghost predicate MetOnce<T(!new)>(run: seq<seq<T>>, u: seq<T>, cmp: (T, T) -> int) {
    exists m :: && 0 <= m < |run| && Alike(run[m], u, cmp)
                && forall k :: 0 <= k < |run| && Alike(run[k], u, cmp) ==> k == m
  }

  lemma MeetsAll<T(!new)>(run: seq<seq<T>>, after: seq<T>, cmp: (T, T) -> int)
    requires TotalPreorder(cmp) && FullRun(run, after, cmp)
    ensures forall u :: multiset(u) == multiset(run[0]) ==> MetOnce(run, u, cmp)
    ensures Alike(after, run[0], cmp)
  {
    forall u | multiset(u) == multiset(run[0]) ensures MetOnce(run, u, cmp) {
      var _ := RunVisitsEachOnce(run, after, u, cmp);
    }
    WrapReturns(run, after, cmp);
  }

  /** The arrangement after the last is the one the run began with. */
  lemma WrapReturns<T(!new)>(run: seq<seq<T>>, after: seq<T>, cmp: (T, T) -> int)
    requires TotalPreorder(cmp) && FullRun(run, after, cmp)
    ensures Alike(after, run[0], cmp)
  {
    RunKeepsMultiset(run, after, |run| - 1, cmp);
    assert multiset(after) == multiset(run[0]);
    assert |multiset(after)| == |after| && |multiset(run[0])| == |run[0]|;
    PermutationKeepsClasses(run[0], after, cmp);
    SortedIsFirst(run[0], after, cmp);
    LexTotal(after, run[0], cmp);
  }
}
