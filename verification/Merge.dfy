/** src/algo/merge.c and the bisection of src/algo/search.c. */
module MergeRuns {
  import opened Arith
  import opened Order
  import opened Span

  // ----- bisection

  /** Whether the search for a bound passes over an element that compares as `order`. */
  predicate Passed(order: int, upper: bool) {
    if upper then order <= 0 else order < 0
  }

  /** The first index of [from, to) whose element orders after `key`, or not before it. */
  method Bound<T(!new)>(a: array<T>, from: nat, to: nat, key: T, cmp: (T, T) -> int, upper: bool)
    returns (cut: nat)
    requires from <= to <= a.Length
    requires TotalPreorder(cmp) && Sorted(a[..][from..to], cmp)
    ensures from <= cut <= to
    ensures forall k :: 0 <= k < cut - from ==> Passed(cmp(a[..][from..to][k], key), upper)
    ensures forall k :: cut - from <= k < to - from ==> !Passed(cmp(a[..][from..to][k], key), upper)
    ensures forall k :: from <= k < cut ==> if upper then cmp(a[k], key) <= 0 else cmp(a[k], key) < 0
    ensures forall k :: cut <= k < to ==> if upper then cmp(a[k], key) > 0 else cmp(a[k], key) >= 0
  {
    ghost var s := a[..][from..to];
    var lo, hi := from, to;
    while lo < hi
      invariant from <= lo <= hi <= to
      invariant forall k :: 0 <= k < lo - from ==> Passed(cmp(s[k], key), upper)
      invariant forall k :: hi - from <= k < to - from ==> !Passed(cmp(s[k], key), upper)
    {
      var mid := lo + (hi - lo) / 2;
      assert a[mid] == s[mid - from];
      if Passed(cmp(a[mid], key), upper) {
        lo := mid + 1;
      } else {
        hi := mid;
      }
    }
    cut := lo;
    forall k | from <= k < to ensures a[k] == s[k - from] {
    }
  }

  // ----- merging into another span

  method CopyRange<T>(dst: array<T>, at: nat, src: array<T>, from: nat, to: nat)
    requires from <= to <= src.Length && at + (to - from) <= dst.Length
    modifies dst
    ensures dst[..] == Splice(old(dst[..]), at, at + (to - from), old(src[..])[from..to])
  {
    ghost var d, s := dst[..], src[..];
    forall k | 0 <= k < to - from {
      dst[at + k] := src[from + k];
    }
    assert dst[..][at..at + (to - from)] == s[from..to];
    SpliceFrom(dst[..], d, at, at + (to - from));
  }

  /** The n places from `at` of one array meet no place of [from, to) of the other, which may be the same. */
  ghost predicate Clear<T>(dst: array<T>, at: nat, n: nat, src: array<T>, from: nat, to: nat) {
    from <= to <= src.Length && at + n <= dst.Length && (dst != src || at + n <= from || to <= at)
  }

  /**
   tda_span_merge: the runs are [from, to) of `l` and [from', to') of `r`, wherever they lie, and the
   output starts at `at` of `dst`, clear of both.  A comparator that is not `honest` may answer
   anything, and differently each time.
   */
  method MergeSpans<T(!new)>(dst: array<T>, at: nat, l: array<T>, from: nat, to: nat, r: array<T>, from': nat, to': nat,
                             cmp: (T, T) -> int, honest: bool)
    returns (ghost merged: seq<T>)
    requires from <= to && from' <= to'
    requires Clear(dst, at, to - from + (to' - from'), l, from, to)
             && Clear(dst, at, to - from + (to' - from'), r, from', to')
    modifies dst
    ensures |merged| == to - from + (to' - from') && dst[..] == Splice(old(dst[..]), at, at + |merged|, merged)
    ensures multiset(merged) == multiset(old(l[..])[from..to]) + multiset(old(r[..])[from'..to'])
    ensures honest ==> merged == Merge(old(l[..])[from..to], old(r[..])[from'..to'], cmp)
  {
    hide Splice, Merge, Progress;
    ghost var d, a, b := dst[..], l[..][from..to], r[..][from'..to'];
    var i, j, done := MergeHeads(dst, at, l, from, to, r, from', to', cmp, honest);
    HeadsEnd(dst[..], d, at, a, b, done, i, j, cmp, honest);
    RestOf(l[..], from, to, i);
    RestOf(r[..], from', to', j);
    EmitRests(dst, at + i + j, l, from + i, to, r, from' + j, to', d, at, done);
    merged := done + a[i..] + b[j..];
  }

  lemma RestOf<T>(s: seq<T>, from: nat, to: nat, i: nat)
    requires from + i <= to <= |s|
    ensures s[from..to][i..] == s[from + i..to] && |s[from..to][i..]| == to - from - i
  {
  }

  /** What is left of both runs, behind what was written. */
  method EmitRests<T>(dst: array<T>, write: nat, l: array<T>, from: nat, to: nat, r: array<T>, from': nat, to': nat,
                      ghost d: seq<T>, ghost at: nat, ghost done: seq<T>)
    requires from <= to <= l.Length && from' <= to' && Clear(dst, write, to - from + (to' - from'), r, from', to')
    requires |d| == dst.Length && write == at + |done| && dst[..] == Splice(d, at, write, done)
    modifies dst
    ensures dst[..] == Splice(d, at, write + (to - from + (to' - from')),
                              done + old(l[..])[from..to] + old(r[..])[from'..to'])
  {
    hide Splice;
    SpliceThrice(d, at, done, l[..][from..to], r[..][from'..to']);
    EmitRest(dst, write, l, from, to, r, from', to');
    CopyRange(dst, write + (to - from), r, from', to');
  }

  lemma SpliceThrice<T>(d: seq<T>, at: nat, p: seq<T>, q: seq<T>, r: seq<T>)
    requires at + |p| + |q| + |r| <= |d|
    ensures var x, y := at + |p|, at + |p| + |q|;
            Splice(Splice(Splice(d, at, x, p), x, y, q), y, y + |r|, r) == Splice(d, at, y + |r|, p + q + r)
  {
    hide Splice;
    SpliceTwice(d, at, at + |p|, at + |p| + |q|, p, q);
    SpliceTwice(d, at, at + |p| + |q|, at + |p| + |q| + |r|, p + q, r);
  }

  /** i and j elements of the runs are merged into what is written from `at` on. */
  ghost predicate Progress<T(!new)>(t: seq<T>, d: seq<T>, at: nat, a: seq<T>, b: seq<T>, done: seq<T>, i: nat, j: nat,
                                    cmp: (T, T) -> int, honest: bool)
  {
    && i <= |a| && j <= |b| && |done| == i + j && at + |done| <= |d| == |t| && t == Splice(d, at, at + |done|, done)
    && Merging(a + b, done, 0, i, |a|, |a| + j, |a + b|, cmp, honest)
  }

  lemma HeadsStart<T(!new)>(d: seq<T>, at: nat, a: seq<T>, b: seq<T>, cmp: (T, T) -> int, honest: bool)
    requires at <= |d|
    ensures Progress(d, d, at, a, b, [], 0, 0, cmp, honest)
  {
    hide Merging;
    MergeStart(a + b, 0, |a|, |a + b|, cmp, honest);
  }

  lemma HeadsEnd<T(!new)>(t: seq<T>, d: seq<T>, at: nat, a: seq<T>, b: seq<T>, done: seq<T>, i: nat, j: nat,
                          cmp: (T, T) -> int, honest: bool)
    requires Progress(t, d, at, a, b, done, i, j, cmp, honest) && (i == |a| || j == |b|)
    ensures i <= |a| && j <= |b| && |done| == i + j && at + |done| <= |d| && t == Splice(d, at, at + |done|, done)
    ensures multiset(done + a[i..] + b[j..]) == multiset(a) + multiset(b)
    ensures honest ==> done + a[i..] + b[j..] == Merge(a, b, cmp)
  {
    hide Merging, Merge;
    var s := a + b;
    assert s[i..|a|] == a[i..] && s[|a| + j..|s|] == b[j..] && s[0..|a|] == a && s[|a|..|s|] == b && s[0..|s|] == s;
    MergeEnd(s, done, 0, i, |a|, |a| + j, |s|, cmp, honest);
  }

  /** What is left of a run, written out; another run stays as it is. */
  method EmitRest<T>(dst: array<T>, write: nat, src: array<T>, from: nat, to: nat, other: array<T>, ghost x: nat,
                     ghost y: nat)
    requires from <= to <= src.Length && Clear(dst, write, to - from, other, x, y)
    modifies dst
    ensures dst[..] == Splice(old(dst[..]), write, write + (to - from), old(src[..])[from..to])
    ensures other[..][x..y] == old(other[..])[x..y]
  {
    hide Splice;
    SpliceApartIf(dst[..], write, write + (to - from), src[..][from..to], x, y);
    CopyRange(dst, write, src, from, to);
  }

  /** The loop of the merge: emits the head that goes first until one run is used up. */
  method MergeHeads<T(!new)>(dst: array<T>, at: nat, l: array<T>, from: nat, to: nat, r: array<T>, from': nat, to': nat,
                             cmp: (T, T) -> int, honest: bool)
    returns (i: nat, j: nat, ghost done: seq<T>)
    requires from <= to && from' <= to'
    requires Clear(dst, at, to - from + (to' - from'), l, from, to)
             && Clear(dst, at, to - from + (to' - from'), r, from', to')
    modifies dst
    ensures i <= to - from && j <= to' - from' && (i == to - from || j == to' - from')
    ensures l[..][from..to] == old(l[..])[from..to] && r[..][from'..to'] == old(r[..])[from'..to']
    ensures Progress(dst[..], old(dst[..]), at, old(l[..])[from..to], old(r[..])[from'..to'], done, i, j, cmp, honest)
  {
    hide Progress;
    ghost var d, a, b := dst[..], l[..][from..to], r[..][from'..to'];
    i, j, done := 0, 0, [];
    HeadsStart(d, at, a, b, cmp, honest);
    while i < to - from && j < to' - from'
      invariant i <= to - from && j <= to' - from' && l[..][from..to] == a && r[..][from'..to'] == b
      invariant Progress(dst[..], d, at, a, b, done, i, j, cmp, honest)
    {
      var left;
      left, done := EmitHead(dst, at, l, from, to, i, r, from', to', j, cmp, honest, d, a, b, done);
      if left {
        i := i + 1;
      } else {
        j := j + 1;
      }
    }
  }

  /** The head that goes first, written out. */
  method EmitHead<T(!new)>(dst: array<T>, at: nat, l: array<T>, from: nat, to: nat, i: nat,
                           r: array<T>, from': nat, to': nat, j: nat, cmp: (T, T) -> int, honest: bool,
                           ghost d: seq<T>, ghost a: seq<T>, ghost b: seq<T>, ghost done: seq<T>)
    returns (left: bool, ghost done': seq<T>)
    requires from + i < to && from' + j < to'
    requires Clear(dst, at + i + j, 1, l, from, to) && Clear(dst, at + i + j, 1, r, from', to')
    requires l[..][from..to] == a && r[..][from'..to'] == b && Progress(dst[..], d, at, a, b, done, i, j, cmp, honest)
    modifies dst
    ensures l[..][from..to] == a && r[..][from'..to'] == b
    ensures Progress(dst[..], d, at, a, b, done', if left then i + 1 else i, if left then j else j + 1, cmp, honest)
  {
    hide Progress;
    var lhs, rhs := l[from + i], r[from' + j];
    assert lhs == a[i] && rhs == b[j];
    var order := Ask(cmp, honest, rhs, lhs);
    left := order >= 0;
    var x := if left then lhs else rhs;
    HeadTaken(dst[..], d, at, a, b, done, i, j, cmp, honest, left);
    Emit(dst, at + i + j, x, l, from, to, r, from', to');
    done' := done + [x];
  }

  lemma HeadTaken<T(!new)>(t: seq<T>, d: seq<T>, at: nat, a: seq<T>, b: seq<T>, done: seq<T>, i: nat, j: nat,
                           cmp: (T, T) -> int, honest: bool, left: bool)
    requires Progress(t, d, at, a, b, done, i, j, cmp, honest) && i < |a| && j < |b| && at + i + j < |t|
    requires honest ==> (left <==> cmp(b[j], a[i]) >= 0)
    ensures var x := if left then a[i] else b[j];
            Progress(t[at + i + j := x], d, at, a, b, done + [x], if left then i + 1 else i, if left then j else j + 1,
                     cmp, honest)
  {
    hide Merging, Splice;
    var x := if left then a[i] else b[j];
    assert (a + b)[i] == a[i] && (a + b)[|a| + j] == b[j];
    MergeTake(a + b, done, 0, i, |a|, |a| + j, |a + b|, cmp, honest, left);
    SpliceOneMore(d, at, done, x);
  }

  method Emit<T>(dst: array<T>, write: nat, x: T, l: array<T>, ghost from: nat, ghost to: nat,
                 r: array<T>, ghost from': nat, ghost to': nat)
    requires Clear(dst, write, 1, l, from, to) && Clear(dst, write, 1, r, from', to')
    modifies dst
    ensures dst[..] == old(dst[..])[write := x]
    ensures l[..][from..to] == old(l[..])[from..to] && r[..][from'..to'] == old(r[..])[from'..to']
  {
    dst[write] := x;
  }

  lemma SpliceOneMore<T>(d: seq<T>, at: nat, done: seq<T>, x: T)
    requires at + |done| < |d|
    ensures Splice(d, at, at + |done|, done)[at + |done| := x] == Splice(d, at, at + |done| + 1, done + [x])
  {
  }

  /** The output so far and what is left of both runs still make up the merge. */
  ghost predicate Merging<T(!new)>(s: seq<T>, done: seq<T>, lo: nat, i: nat, mid: nat, j: nat, hi: nat,
                             cmp: (T, T) -> int, honest: bool)
    requires lo <= i <= mid <= j <= hi <= |s|
  {
    && multiset(done) + multiset(s[i..mid]) + multiset(s[j..hi]) == multiset(s[lo..hi])
    && (honest ==> Merge(s[lo..mid], s[mid..hi], cmp) == done + Merge(s[i..mid], s[j..hi], cmp))
  }

  lemma MergeStart<T(!new)>(s: seq<T>, lo: nat, mid: nat, hi: nat, cmp: (T, T) -> int, honest: bool)
    requires lo <= mid <= hi <= |s|
    ensures Merging(s, [], lo, lo, mid, mid, hi, cmp, honest)
  {
    assert s[lo..hi] == s[lo..mid] + s[mid..hi];
  }

  lemma MergeTakeLeft<T(!new)>(s: seq<T>, done: seq<T>, lo: nat, i: nat, mid: nat, j: nat, hi: nat,
                         cmp: (T, T) -> int, honest: bool)
    requires lo <= i < mid <= j < hi <= |s| && Merging(s, done, lo, i, mid, j, hi, cmp, honest)
    requires honest ==> cmp(s[j], s[i]) >= 0
    ensures Merging(s, done + [s[i]], lo, i + 1, mid, j, hi, cmp, honest)
  {
    var l, r := s[i..mid], s[j..hi];
    assert l == [s[i]] + s[i + 1..mid];
    MoveHead(done, s[i], s[i + 1..mid]);
    if honest {
      assert Merge(l, r, cmp) == [s[i]] + Merge(s[i + 1..mid], r, cmp);
    }
  }

  lemma MergeTakeRight<T(!new)>(s: seq<T>, done: seq<T>, lo: nat, i: nat, mid: nat, j: nat, hi: nat,
                          cmp: (T, T) -> int, honest: bool)
    requires lo <= i < mid <= j < hi <= |s| && Merging(s, done, lo, i, mid, j, hi, cmp, honest)
    requires honest ==> cmp(s[j], s[i]) < 0
    ensures Merging(s, done + [s[j]], lo, i, mid, j + 1, hi, cmp, honest)
  {
    var l, r := s[i..mid], s[j..hi];
    assert r == [s[j]] + s[j + 1..hi];
    MoveHead(done, s[j], s[j + 1..hi]);
    Regroup(multiset(done), multiset{s[j]}, multiset(l), multiset(s[j + 1..hi]));
    if honest {
      assert Merge(l, r, cmp) == [s[j]] + Merge(l, s[j + 1..hi], cmp);
    }
  }

  lemma MergeTake<T(!new)>(s: seq<T>, done: seq<T>, lo: nat, i: nat, mid: nat, j: nat, hi: nat,
                          cmp: (T, T) -> int, honest: bool, left: bool)
    requires lo <= i < mid <= j < hi <= |s| && Merging(s, done, lo, i, mid, j, hi, cmp, honest)
    requires honest ==> (left <==> cmp(s[j], s[i]) >= 0)
    ensures Merging(s, done + [if left then s[i] else s[j]], lo, if left then i + 1 else i, mid,
                    if left then j else j + 1, hi, cmp, honest)
  {
    hide Merging;
    if left {
      MergeTakeLeft(s, done, lo, i, mid, j, hi, cmp, honest);
    } else {
      MergeTakeRight(s, done, lo, i, mid, j, hi, cmp, honest);
    }
  }

  lemma Regroup<T>(d: multiset<T>, x: multiset<T>, l: multiset<T>, r: multiset<T>)
    ensures d + x + l + r == d + l + (x + r)
  {
  }

  lemma MoveHead<T>(done: seq<T>, x: T, rest: seq<T>)
    ensures multiset(done + [x]) + multiset(rest) == multiset(done) + multiset([x] + rest)
  {
  }

  lemma MergeEnd<T(!new)>(s: seq<T>, done: seq<T>, lo: nat, i: nat, mid: nat, j: nat, hi: nat,
                          cmp: (T, T) -> int, honest: bool)
    requires lo <= i <= mid <= j <= hi <= |s| && Merging(s, done, lo, i, mid, j, hi, cmp, honest)
    requires i == mid || j == hi
    ensures multiset(done + s[i..mid] + s[j..hi]) == multiset(s[lo..hi])
    ensures honest ==> done + s[i..mid] + s[j..hi] == Merge(s[lo..mid], s[mid..hi], cmp)
  {
  }

  // ----- merging in place, without memory

  /** A bound on the recursion: a call on more than two elements passes on at most (3n + 2) / 4. */
  function DepthBound(n: nat): (d: nat)
    ensures d >= 1
    decreases n
  {
    if n <= 2 then 1 else 1 + DepthBound((3 * n + 2) / 4)
  }

  lemma {:induction false} DepthBoundMonotone(m: nat, n: nat)
    requires m <= n
    ensures DepthBound(m) <= DepthBound(n)
    decreases n
  {
    if n > 2 && m > 2 {
      DepthBoundMonotone((3 * m + 2) / 4, (3 * n + 2) / 4);
    }
  }

  lemma DepthBase(n: nat)
    requires n <= 2
    ensures DepthBound(n) == 1
  {
  }

  lemma DepthStep(n: nat)
    requires n > 2
    ensures DepthBound(n) == 1 + DepthBound((3 * n + 2) / 4)
  {
  }

  /** Three levels halve the length, so the depth is logarithmic. */
  lemma {:induction false} DepthIsLogarithmic(n: nat)
    requires n >= 1
    ensures DepthBound(n) <= 3 * Log2(n) + 1
    decreases n
  {
    hide DepthBound;
    if n >= 16 {
      var n1 := (3 * n + 2) / 4;
      var n2 := (3 * n1 + 2) / 4;
      var n3 := (3 * n2 + 2) / 4;
      assert n1 > 2 && n2 > 2 && 64 * n3 <= 27 * n + 74;
      DepthStep(n);
      DepthStep(n1);
      DepthStep(n2);
      DepthBoundMonotone(n3, n / 2);
      DepthIsLogarithmic(n / 2);
    } else {
      SmallDepths();
      DepthBoundMonotone(n, if n <= 1 then 1 else if n <= 3 then 3 else if n <= 7 then 7 else 15);
      DepthBase(1);
      assert n >= 2 ==> Log2(n) == 1 + Log2(n / 2);
      assert n >= 4 ==> Log2(n / 2) == 1 + Log2(n / 4);
      assert n >= 8 ==> Log2(n / 4) == 1 + Log2(n / 8);
    }
  }

  lemma SmallDepths()
    ensures DepthBound(3) == 2 && DepthBound(7) == 5 && DepthBound(15) == 8
  {
    hide DepthBound;
    DepthBase(2);
    DepthStep(3);
    DepthStep(4);
    DepthStep(5);
    DepthStep(6);
    DepthStep(7);
    DepthStep(8);
    DepthStep(11);
    DepthStep(15);
  }

  /** The cuts of merge_in_place: nothing before them has to follow anything after them. */
  ghost predicate CutsApart<T(!new)>(l: seq<T>, lc: nat, r: seq<T>, rc: nat, cmp: (T, T) -> int)
    requires lc <= |l| && rc <= |r|
  {
    && (forall i, j :: 0 <= i < lc && rc <= j < |r| ==> cmp(l[i], r[j]) <= 0)
    && (forall i, j :: lc <= i < |l| && 0 <= j < rc ==> cmp(r[j], l[i]) < 0)
  }

  /** Cuts the longer run at its middle and bisects that element in the other one. */
  method ChooseCuts<T(!new)>(a: array<T>, lo: nat, mid: nat, hi: nat, cmp: (T, T) -> int)
    returns (leftCut: nat, rightCut: nat)
    requires lo < mid < hi <= a.Length && TotalPreorder(cmp)
    requires Sorted(a[..][lo..mid], cmp) && Sorted(a[..][mid..hi], cmp)
    ensures lo <= leftCut <= mid <= rightCut <= hi
    ensures if mid - lo > hi - mid then leftCut == lo + (mid - lo) / 2 else rightCut == mid + (hi - mid) / 2
    ensures CutsApart(a[..][lo..mid], leftCut - lo, a[..][mid..hi], rightCut - mid, cmp)
  {
    hide Sorted, TotalPreorder, CutsApart;
    ghost var s := a[..];
    ghost var l, r := s[lo..mid], s[mid..hi];
    if mid - lo > hi - mid {
      leftCut := lo + (mid - lo) / 2;
      rightCut := Bound(a, mid, hi, a[leftCut], cmp, false);
      assert a[..] == s && a[leftCut] == l[leftCut - lo];
      CutAtLeft(l, leftCut - lo, r, rightCut - mid, cmp);
    } else {
      rightCut := mid + (hi - mid) / 2;
      leftCut := Bound(a, lo, mid, a[rightCut], cmp, true);
      assert a[..] == s && a[rightCut] == r[rightCut - mid];
      CutAtRight(l, leftCut - lo, r, rightCut - mid, cmp);
    }
  }

  lemma CutAtLeft<T(!new)>(l: seq<T>, lc: nat, r: seq<T>, rc: nat, cmp: (T, T) -> int)
    requires TotalPreorder(cmp) && Sorted(l, cmp) && lc < |l| && rc <= |r|
    requires forall k :: 0 <= k < rc ==> cmp(r[k], l[lc]) < 0
    requires forall k :: rc <= k < |r| ==> cmp(r[k], l[lc]) >= 0
    ensures CutsApart(l, lc, r, rc, cmp)
  {
    assert forall i :: 0 <= i < lc ==> cmp(l[i], l[lc]) <= 0;
    assert forall i :: lc <= i < |l| ==> cmp(l[lc], l[i]) <= 0;
  }

  lemma CutAtRight<T(!new)>(l: seq<T>, lc: nat, r: seq<T>, rc: nat, cmp: (T, T) -> int)
    requires TotalPreorder(cmp) && Sorted(r, cmp) && lc <= |l| && rc < |r|
    requires forall k :: 0 <= k < lc ==> cmp(l[k], r[rc]) <= 0
    requires forall k :: lc <= k < |l| ==> cmp(l[k], r[rc]) > 0
    ensures CutsApart(l, lc, r, rc, cmp)
  {
    assert forall j :: 0 <= j < rc ==> cmp(r[j], r[rc]) <= 0;
    assert forall j :: rc <= j < |r| ==> cmp(r[rc], r[j]) <= 0;
  }

  /** merge_in_place; every nested call gives up one of the `depth` levels. */
  method MergeInPlace<T(!new)>(a: array<T>, lo: nat, mid: nat, hi: nat, cmp: (T, T) -> int, ghost depth: nat)
    requires lo <= mid <= hi <= a.Length && TotalPreorder(cmp) && DepthBound(hi - lo) <= depth
    requires Sorted(a[..][lo..mid], cmp) && Sorted(a[..][mid..hi], cmp)
    modifies a
    ensures a[..] == Splice(old(a[..]), lo, hi, Merge(old(a[..])[lo..mid], old(a[..])[mid..hi], cmp))
    decreases depth
  {
    hide Sorted, TotalPreorder, CutsApart, DepthBound, Merge, Splice;
    ghost var s := a[..];
    ghost var l, r := s[lo..mid], s[mid..hi];
    if mid == lo || mid == hi {
      MergeNothing(s, lo, mid, hi, cmp);
      return;
    }
    if hi - lo == 2 {
      MergeTwo(a, lo, cmp);
      return;
    }
    var leftCut, rightCut := ChooseCuts(a, lo, mid, hi, cmp);
    assert a[..] == s;
    var newMid := leftCut + (rightCut - mid);
    Rotate(a, leftCut, mid, rightCut);
    LowRuns(s, lo, leftCut, mid, rightCut, hi, cmp);
    DepthOfHalves(hi - lo, newMid - lo);
    MergeInPlace(a, lo, leftCut, newMid, cmp, depth - 1);
    HighRuns(s, lo, leftCut, mid, rightCut, hi, cmp);
    MergeInPlace(a, newMid, rightCut, hi, cmp, depth - 1);
    BothMerged(s, lo, leftCut, mid, rightCut, hi, cmp);
  }

  /** `s` once the pieces between the cuts have changed places. */
  ghost function InnerSwapped<T>(s: seq<T>, leftCut: nat, mid: nat, rightCut: nat): (t: seq<T>)
    requires leftCut <= mid <= rightCut <= |s|
    ensures |t| == |s|
  {
    Splice(s, leftCut, rightCut, s[mid..rightCut] + s[leftCut..mid])
  }

  /** Then the four pieces lie left-low, right-low, left-high, right-high. */
  lemma FourPieces<T>(s: seq<T>, lo: nat, leftCut: nat, mid: nat, rightCut: nat, hi: nat)
    requires lo <= leftCut <= mid <= rightCut <= hi <= |s|
    ensures var t, cut := InnerSwapped(s, leftCut, mid, rightCut), leftCut + (rightCut - mid);
            && t[lo..leftCut] == s[lo..mid][..leftCut - lo]
            && t[leftCut..cut] == s[mid..hi][..rightCut - mid]
            && t[cut..rightCut] == s[lo..mid][leftCut - lo..]
            && t[rightCut..hi] == s[mid..hi][rightCut - mid..]
  {
    hide Splice;
    var inner := s[mid..rightCut] + s[leftCut..mid];
    SpliceApart(s, leftCut, rightCut, inner, lo, leftCut);
    SpliceApart(s, leftCut, rightCut, inner, rightCut, hi);
    SpliceSlices(s, leftCut, rightCut, inner);
    var t := InnerSwapped(s, leftCut, mid, rightCut);
    SliceOfSlice(t, leftCut, rightCut, 0, rightCut - mid);
    SliceOfSlice(t, leftCut, rightCut, rightCut - mid, rightCut - leftCut);
    SliceOfSlice(s, lo, mid, 0, leftCut - lo);
    SliceOfSlice(s, lo, mid, leftCut - lo, mid - lo);
    SliceOfSlice(s, mid, hi, 0, rightCut - mid);
    SliceOfSlice(s, mid, hi, rightCut - mid, hi - mid);
  }

  ghost predicate Cut<T(!new)>(s: seq<T>, lo: nat, leftCut: nat, mid: nat, rightCut: nat, hi: nat,
                               cmp: (T, T) -> int)
  {
    && lo <= leftCut <= mid <= rightCut <= hi <= |s|
    && TotalPreorder(cmp) && Sorted(s[lo..mid], cmp) && Sorted(s[mid..hi], cmp)
    && CutsApart(s[lo..mid], leftCut - lo, s[mid..hi], rightCut - mid, cmp)
  }

  lemma LowRuns<T(!new)>(s: seq<T>, lo: nat, leftCut: nat, mid: nat, rightCut: nat, hi: nat, cmp: (T, T) -> int)
    requires Cut(s, lo, leftCut, mid, rightCut, hi, cmp)
    ensures var t, cut := InnerSwapped(s, leftCut, mid, rightCut), leftCut + (rightCut - mid);
            Sorted(t[lo..leftCut], cmp) && Sorted(t[leftCut..cut], cmp)
  {
    hide InnerSwapped;
    FourPieces(s, lo, leftCut, mid, rightCut, hi);
    HalvesSorted(s[lo..mid], leftCut - lo, cmp);
    HalvesSorted(s[mid..hi], rightCut - mid, cmp);
  }

  /** `s` once the low halves are merged too. */
  ghost function LowMerged<T>(s: seq<T>, lo: nat, leftCut: nat, mid: nat, rightCut: nat,
                              cmp: (T, T) -> int): (u: seq<T>)
    requires lo <= leftCut <= mid <= rightCut <= |s|
    ensures |u| == |s|
  {
    var t, cut := InnerSwapped(s, leftCut, mid, rightCut), leftCut + (rightCut - mid);
    Splice(t, lo, cut, Merge(t[lo..leftCut], t[leftCut..cut], cmp))
  }

  lemma HighPieces<T>(s: seq<T>, lo: nat, leftCut: nat, mid: nat, rightCut: nat, hi: nat, cmp: (T, T) -> int)
    requires lo <= leftCut <= mid <= rightCut <= hi <= |s|
    ensures var u, cut := LowMerged(s, lo, leftCut, mid, rightCut, cmp), leftCut + (rightCut - mid);
            u[cut..rightCut] == s[lo..mid][leftCut - lo..] && u[rightCut..hi] == s[mid..hi][rightCut - mid..]
  {
    hide InnerSwapped, Splice;
    var t, cut := InnerSwapped(s, leftCut, mid, rightCut), leftCut + (rightCut - mid);
    var m1 := Merge(t[lo..leftCut], t[leftCut..cut], cmp);
    FourPieces(s, lo, leftCut, mid, rightCut, hi);
    SpliceApart(t, lo, cut, m1, cut, rightCut);
    SpliceApart(t, lo, cut, m1, rightCut, hi);
  }

  lemma HighRuns<T(!new)>(s: seq<T>, lo: nat, leftCut: nat, mid: nat, rightCut: nat, hi: nat, cmp: (T, T) -> int)
    requires Cut(s, lo, leftCut, mid, rightCut, hi, cmp)
    ensures var u, cut := LowMerged(s, lo, leftCut, mid, rightCut, cmp), leftCut + (rightCut - mid);
            Sorted(u[cut..rightCut], cmp) && Sorted(u[rightCut..hi], cmp)
  {
    hide LowMerged;
    HighPieces(s, lo, leftCut, mid, rightCut, hi, cmp);
    HalvesSorted(s[lo..mid], leftCut - lo, cmp);
    HalvesSorted(s[mid..hi], rightCut - mid, cmp);
  }

  /** Merging the high halves as well leaves the merge of the two whole runs. */
  lemma BothMerged<T(!new)>(s: seq<T>, lo: nat, leftCut: nat, mid: nat, rightCut: nat, hi: nat, cmp: (T, T) -> int)
    requires Cut(s, lo, leftCut, mid, rightCut, hi, cmp)
    ensures var u, cut := LowMerged(s, lo, leftCut, mid, rightCut, cmp), leftCut + (rightCut - mid);
            Splice(u, cut, hi, Merge(u[cut..rightCut], u[rightCut..hi], cmp))
            == Splice(s, lo, hi, Merge(s[lo..mid], s[mid..hi], cmp))
  {
    hide InnerSwapped, Splice, Merge, Sorted, CutsApart, TotalPreorder;
    var t, cut := InnerSwapped(s, leftCut, mid, rightCut), leftCut + (rightCut - mid);
    var l, r := s[lo..mid], s[mid..hi];
    var lc, rc := leftCut - lo, rightCut - mid;
    var m1, m2 := Merge(l[..lc], r[..rc], cmp), Merge(l[lc..], r[rc..], cmp);
    FourPieces(s, lo, leftCut, mid, rightCut, hi);
    HighPieces(s, lo, leftCut, mid, rightCut, hi, cmp);
    SpliceTwice(t, lo, cut, hi, m1, m2);
    MergeCut(l, lc, r, rc, cmp);
    InnerOver(s, leftCut, mid, rightCut, lo, hi, m1 + m2);
  }

  lemma InnerOver<T>(s: seq<T>, leftCut: nat, mid: nat, rightCut: nat, lo: nat, hi: nat, q: seq<T>)
    requires lo <= leftCut <= mid <= rightCut <= hi <= |s| && |q| == hi - lo
    ensures Splice(InnerSwapped(s, leftCut, mid, rightCut), lo, hi, q) == Splice(s, lo, hi, q)
  {
    SpliceOver(s, leftCut, rightCut, s[mid..rightCut] + s[leftCut..mid], lo, hi, q);
  }

  /** Two parts of at most (3n + 2) / 4 elements each leave room for one level less. */
  lemma DepthOfHalves(n: nat, m: nat)
    requires 2 < n && m <= (3 * n + 2) / 4 && n - m <= (3 * n + 2) / 4 && m <= n
    ensures 1 + DepthBound(m) <= DepthBound(n) && 1 + DepthBound(n - m) <= DepthBound(n)
  {
    DepthBoundMonotone(m, (3 * n + 2) / 4);
    DepthBoundMonotone(n - m, (3 * n + 2) / 4);
  }

  lemma MergeNothing<T>(s: seq<T>, lo: nat, mid: nat, hi: nat, cmp: (T, T) -> int)
    requires lo <= mid <= hi <= |s| && (mid == lo || mid == hi)
    ensures s == Splice(s, lo, hi, Merge(s[lo..mid], s[mid..hi], cmp))
  {
  }

  method MergeTwo<T(!new)>(a: array<T>, lo: nat, cmp: (T, T) -> int)
    requires lo + 2 <= a.Length
    modifies a
    ensures a[..] == Splice(old(a[..]), lo, lo + 2,
                            Merge(old(a[..])[lo..lo + 1], old(a[..])[lo + 1..lo + 2], cmp))
  {
    ghost var s := a[..];
    if cmp(a[lo + 1], a[lo]) < 0 {
      a[lo], a[lo + 1] := a[lo + 1], a[lo];
    }
    ghost var l, r := s[lo..lo + 1], s[lo + 1..lo + 2];
    assert l == [s[lo]] && r == [s[lo + 1]];
    assert a[..][lo..lo + 2] == Merge(l, r, cmp);
    SpliceFrom(a[..], s, lo, lo + 2);
  }

  lemma HalvesSorted<T(!new)>(s: seq<T>, c: nat, cmp: (T, T) -> int)
    requires c <= |s| && Sorted(s, cmp)
    ensures Sorted(s[..c], cmp) && Sorted(s[c..], cmp)
  {
  }

  lemma MergeCut<T(!new)>(l: seq<T>, lc: nat, r: seq<T>, rc: nat, cmp: (T, T) -> int)
    requires TotalPreorder(cmp) && Sorted(l, cmp) && Sorted(r, cmp)
    requires lc <= |l| && rc <= |r| && CutsApart(l, lc, r, rc, cmp)
    ensures Merge(l, r, cmp) == Merge(l[..lc], r[..rc], cmp) + Merge(l[lc..], r[rc..], cmp)
  {
    assert l == l[..lc] + l[lc..] && r == r[..rc] + r[rc..];
    MergeByCuts(l[..lc], l[lc..], r[..rc], r[rc..], cmp);
  }

  // ----- merging in place, with the shorter run copied out

  /** merge_forward: the left run is in `parked`, and the span is filled from the front. */
  method MergeForward<T(!new)>(a: array<T>, lo: nat, mid: nat, hi: nat, cmp: (T, T) -> int, parked: array<T>)
    requires a != parked && lo <= mid <= hi <= a.Length && parked[..] == a[..][lo..mid]
    modifies a
    ensures a[..] == Splice(old(a[..]), lo, hi, Merge(old(a[..])[lo..mid], old(a[..])[mid..hi], cmp))
  {
    hide Merging, FrontFilled, Splice, Merge;
    ghost var s := a[..];
    var i, r, done := ForwardHeads(a, lo, mid, hi, cmp, parked);
    ParkedRest(parked[..], s, lo, mid, i);
    ForwardDone(a[..], s, lo, i, mid, r, hi, done, cmp);
    CopyRange(a, i + r - mid, parked, i - lo, parked.Length);
  }

  lemma ParkedRest<T>(parked: seq<T>, s: seq<T>, from: nat, to: nat, i: nat)
    requires from <= i <= to <= |s| && parked == s[from..to]
    ensures |parked| == to - from && parked[i - from..|parked|] == s[i..to]
  {
  }

  lemma ForwardDone<T(!new)>(t: seq<T>, s: seq<T>, lo: nat, i: nat, mid: nat, r: nat, hi: nat, done: seq<T>,
                             cmp: (T, T) -> int)
    requires lo <= i <= mid <= r <= hi <= |s| == |t| && (i == mid || r == hi) && |done| == i + r - mid - lo
    requires Merging(s, done, lo, i, mid, r, hi, cmp, true) && FrontFilled(t, s, done, lo, i + r - mid, r)
    ensures Splice(t, i + r - mid, r, s[i..mid]) == Splice(s, lo, hi, Merge(s[lo..mid], s[mid..hi], cmp))
  {
    hide Merging, FrontFilled, Splice, Merge;
    ForwardEnd(t, s, lo, i + r - mid, r, hi, done, s[i..mid]);
    MergeEnd(s, done, lo, i, mid, r, hi, cmp, true);
  }

  /** The front holds what was merged, and everything outside [lo, r) what it held at first. */
  ghost predicate FrontFilled<T>(t: seq<T>, s: seq<T>, done: seq<T>, lo: nat, write: nat, r: nat)
    requires lo <= write <= r <= |s| == |t|
  {
    t[lo..write] == done && forall k :: 0 <= k < lo || r <= k < |s| ==> t[k] == s[k]
  }

  lemma FrontStep<T>(t: seq<T>, s: seq<T>, done: seq<T>, lo: nat, write: nat, r: nat, x: T, r': nat)
    requires lo <= write < r <= r' <= |s| == |t| && FrontFilled(t, s, done, lo, write, r)
    ensures FrontFilled(t[write := x], s, done + [x], lo, write + 1, r')
  {
  }

  lemma Parked<T>(parked: seq<T>, s: seq<T>, from: nat, to: nat, i: nat)
    requires from <= i < to <= |s| && parked == s[from..to]
    ensures parked[i - from] == s[i]
  {
  }

  method ForwardHeads<T(!new)>(a: array<T>, lo: nat, mid: nat, hi: nat, cmp: (T, T) -> int, parked: array<T>)
    returns (i: nat, r: nat, ghost done: seq<T>)
    requires a != parked && lo <= mid <= hi <= a.Length && parked[..] == a[..][lo..mid]
    modifies a
    ensures lo <= i <= mid <= r <= hi && (i == mid || r == hi) && |done| == i + r - mid - lo
    ensures Merging(old(a[..]), done, lo, i, mid, r, hi, cmp, true)
    ensures FrontFilled(a[..], old(a[..]), done, lo, i + r - mid, r)
  {
    hide Merging, FrontFilled;
    ghost var s := a[..];
    var write := lo;
    i, r, done := lo, mid, [];
    MergeStart(s, lo, mid, hi, cmp, true);
    FrontStart(s, lo, mid);
    while i < mid && r < hi
      invariant lo <= i <= mid <= r <= hi && write == i + r - mid == lo + |done| && parked[..] == s[lo..mid]
      invariant FrontFilled(a[..], s, done, lo, write, r) && Merging(s, done, lo, i, mid, r, hi, cmp, true)
    {
      Parked(parked[..], s, lo, mid, i);
      StillThere(a[..], s, done, lo, write, r);
      var left;
      left, done := FillFront(a, write, parked[i - lo], a[r], cmp, s, lo, i, mid, r, hi, done);
      write := write + 1;
      if left {
        i := i + 1;
      } else {
        r := r + 1;
      }
    }
  }

  /** The head that goes first, written where nothing is left to be read. */
  method FillFront<T(!new)>(a: array<T>, write: nat, lhs: T, rhs: T, cmp: (T, T) -> int, ghost s: seq<T>,
                            ghost lo: nat, ghost i: nat, ghost mid: nat, ghost r: nat, ghost hi: nat,
                            ghost done: seq<T>)
    returns (left: bool, ghost done': seq<T>)
    requires lo <= i < mid <= r < hi <= |s| == a.Length && lhs == s[i] && rhs == s[r]
    requires write == i + r - mid == lo + |done|
    requires FrontFilled(a[..], s, done, lo, write, r) && Merging(s, done, lo, i, mid, r, hi, cmp, true)
    modifies a
    ensures |done'| == |done| + 1 && FrontFilled(a[..], s, done', lo, write + 1, if left then r else r + 1)
    ensures Merging(s, done', lo, if left then i + 1 else i, mid, if left then r else r + 1, hi, cmp, true)
  {
    hide Merging, FrontFilled;
    ghost var t := a[..];
    left := cmp(rhs, lhs) >= 0;
    var x := if left then lhs else rhs;
    MergeTake(s, done, lo, i, mid, r, hi, cmp, true, left);
    FrontStep(t, s, done, lo, write, r, x, if left then r else r + 1);
    a[write] := x;
    assert a[..] == t[write := x];
    done' := done + [x];
  }

  lemma FrontStart<T>(s: seq<T>, lo: nat, mid: nat)
    requires lo <= mid <= |s|
    ensures FrontFilled(s, s, [], lo, lo, mid)
  {
  }

  lemma StillThere<T>(t: seq<T>, s: seq<T>, done: seq<T>, lo: nat, write: nat, r: nat)
    requires lo <= write <= r < |s| == |t| && FrontFilled(t, s, done, lo, write, r)
    ensures t[r] == s[r]
  {
  }

  lemma ForwardEnd<T>(t: seq<T>, s: seq<T>, lo: nat, write: nat, r: nat, hi: nat, done: seq<T>, rest: seq<T>)
    requires lo <= write <= r <= hi <= |s| == |t| && |done| == write - lo && |rest| == r - write
    requires FrontFilled(t, s, done, lo, write, r)
    ensures Splice(t, write, r, rest) == Splice(s, lo, hi, done + rest + s[r..hi])
  {
    var u := Splice(t, write, r, rest);
    assert u[..lo] == s[..lo];
    assert u[lo..r] == done + rest by {
      assert u[lo..write] == done && u[write..r] == rest;
    }
    assert u[r..] == s[r..];
    assert s[r..] == s[r..hi] + s[hi..];
    assert u == u[..lo] + u[lo..r] + u[r..];
  }

  /** What is left of both runs, merged, still comes before what was placed at the back. */
  ghost predicate MergingBack<T(!new)>(s: seq<T>, tail: seq<T>, lo: nat, l: nat, mid: nat, r: nat, hi: nat,
                                       cmp: (T, T) -> int)
    requires lo <= l <= mid <= r <= hi <= |s|
  {
    Merge(s[lo..mid], s[mid..hi], cmp) == Merge(s[lo..l], s[mid..r], cmp) + tail
  }

  lemma BackTake<T(!new)>(s: seq<T>, tail: seq<T>, lo: nat, l: nat, mid: nat, r: nat, hi: nat, cmp: (T, T) -> int)
    requires lo < l <= mid < r <= hi <= |s| && TotalPreorder(cmp)
    requires Sorted(s[lo..mid], cmp) && Sorted(s[mid..hi], cmp) && MergingBack(s, tail, lo, l, mid, r, hi, cmp)
    ensures var left := cmp(s[r - 1], s[l - 1]) < 0;
            MergingBack(s, [if left then s[l - 1] else s[r - 1]] + tail, lo, if left then l - 1 else l, mid,
                        if left then r else r - 1, hi, cmp)
  {
    hide Sorted, TotalPreorder, Merge;
    var a, b := s[lo..l], s[mid..r];
    var a', b' := s[lo..l - 1], s[mid..r - 1];
    LastOff(s, lo, l);
    LastOff(s, mid, r);
    PrefixSorted(s, lo, l, mid, cmp);
    PrefixSorted(s, mid, r, hi, cmp);
    assert Merge(s[lo..mid], s[mid..hi], cmp) == Merge(a, b, cmp) + tail;
    if cmp(s[r - 1], s[l - 1]) < 0 {
      MergeEndsLeft(a', s[l - 1], b, cmp);
      assert (Merge(a', b, cmp) + [s[l - 1]]) + tail == Merge(a', b, cmp) + ([s[l - 1]] + tail);
    } else {
      NotAfter(s[l - 1], s[r - 1], cmp);
      MergeEndsRight(a, b', s[r - 1], cmp);
      assert (Merge(a, b', cmp) + [s[r - 1]]) + tail == Merge(a, b', cmp) + ([s[r - 1]] + tail);
    }
  }

  lemma LastOff<T>(s: seq<T>, lo: nat, hi: nat)
    requires lo < hi <= |s|
    ensures s[lo..hi] == s[lo..hi - 1] + [s[hi - 1]]
  {
  }

  lemma NotAfter<T(!new)>(x: T, y: T, cmp: (T, T) -> int)
    requires TotalPreorder(cmp) && cmp(y, x) >= 0
    ensures cmp(x, y) <= 0
  {
  }

  lemma PrefixSorted<T(!new)>(s: seq<T>, lo: nat, c: nat, hi: nat, cmp: (T, T) -> int)
    requires lo <= c <= hi <= |s| && Sorted(s[lo..hi], cmp)
    ensures Sorted(s[lo..c], cmp)
  {
    SliceOfSlice(s, lo, hi, 0, c - lo);
    HalvesSorted(s[lo..hi], c - lo, cmp);
  }

  /** merge_backward: the right run is in `parked`, and the span is filled from the back. */
  method MergeBackward<T(!new)>(a: array<T>, lo: nat, mid: nat, hi: nat, cmp: (T, T) -> int, parked: array<T>)
    requires a != parked && lo <= mid <= hi <= a.Length && parked[..] == a[..][mid..hi] && TotalPreorder(cmp)
    requires Sorted(a[..][lo..mid], cmp) && Sorted(a[..][mid..hi], cmp)
    modifies a
    ensures a[..] == Splice(old(a[..]), lo, hi, Merge(old(a[..])[lo..mid], old(a[..])[mid..hi], cmp))
  {
    hide MergingBack, BackFilled, Splice, Sorted, TotalPreorder, Merge;
    ghost var s := a[..];
    var l, r, tail := BackwardHeads(a, lo, mid, hi, cmp, parked);
    ParkedFront(parked[..], s, mid, hi, r);
    BackwardEnd(a[..], s, lo, l, mid, r, hi, tail, cmp);
    CopyRange(a, lo, parked, 0, r - mid);
  }

  lemma ParkedFront<T>(parked: seq<T>, s: seq<T>, from: nat, to: nat, r: nat)
    requires from <= r <= to <= |s| && parked == s[from..to]
    ensures |parked| == to - from && parked[0..r - from] == s[from..r]
  {
  }

  /** The back holds what was merged, and everything outside [l, hi) what it held at first. */
  ghost predicate BackFilled<T>(t: seq<T>, s: seq<T>, tail: seq<T>, l: nat, write: nat, hi: nat)
    requires l <= write <= hi <= |s| == |t|
  {
    t[write..hi] == tail && forall k :: 0 <= k < l || hi <= k < |s| ==> t[k] == s[k]
  }

  lemma BackStep<T>(t: seq<T>, s: seq<T>, tail: seq<T>, l: nat, write: nat, hi: nat, x: T, l': nat)
    requires l' <= l < write <= hi <= |s| == |t| && BackFilled(t, s, tail, l, write, hi)
    ensures BackFilled(t[write - 1 := x], s, [x] + tail, l', write - 1, hi)
  {
  }

  lemma StillBehind<T>(t: seq<T>, s: seq<T>, tail: seq<T>, l: nat, write: nat, hi: nat)
    requires 0 < l <= write <= hi <= |s| == |t| && BackFilled(t, s, tail, l, write, hi)
    ensures t[l - 1] == s[l - 1]
  {
  }

  method BackwardHeads<T(!new)>(a: array<T>, lo: nat, mid: nat, hi: nat, cmp: (T, T) -> int, parked: array<T>)
    returns (l: nat, r: nat, ghost tail: seq<T>)
    requires a != parked && lo <= mid <= hi <= a.Length && parked[..] == a[..][mid..hi] && TotalPreorder(cmp)
    requires Sorted(a[..][lo..mid], cmp) && Sorted(a[..][mid..hi], cmp)
    modifies a
    ensures lo <= l <= mid <= r <= hi && (l == lo || r == mid) && l + r - mid + |tail| == hi
    ensures BackFilled(a[..], old(a[..]), tail, l, l + r - mid, hi)
    ensures MergingBack(old(a[..]), tail, lo, l, mid, r, hi, cmp)
  {
    hide MergingBack, BackFilled, Sorted, TotalPreorder;
    ghost var s := a[..];
    var write := hi;
    l, r, tail := mid, hi, [];
    BackStart(s, lo, mid, hi, cmp);
    while l > lo && r > mid
      invariant lo <= l <= mid <= r <= hi && write == l + r - mid == hi - |tail| && parked[..] == s[mid..hi]
      invariant BackFilled(a[..], s, tail, l, write, hi) && MergingBack(s, tail, lo, l, mid, r, hi, cmp)
    {
      ghost var t := a[..];
      Parked(parked[..], s, mid, hi, r - 1);
      StillBehind(t, s, tail, l, write, hi);
      var lhs, rhs := a[l - 1], parked[r - 1 - mid];
      assert l < write;  // the write position never reaches an element still to be read
      var left := cmp(rhs, lhs) < 0;
      var x := if left then lhs else rhs;
      a[write - 1] := x;
      assert a[..] == t[write - 1 := x];
      BackTake(s, tail, lo, l, mid, r, hi, cmp);
      BackStep(t, s, tail, l, write, hi, x, if left then l - 1 else l);
      tail, write := [x] + tail, write - 1;
      l, r := if left then l - 1 else l, if left then r else r - 1;
    }
  }

  lemma BackStart<T(!new)>(s: seq<T>, lo: nat, mid: nat, hi: nat, cmp: (T, T) -> int)
    requires lo <= mid <= hi <= |s|
    ensures MergingBack(s, [], lo, mid, mid, hi, hi, cmp) && BackFilled(s, s, [], mid, hi, hi)
  {
  }

  lemma BackwardEnd<T(!new)>(t: seq<T>, s: seq<T>, lo: nat, l: nat, mid: nat, r: nat, hi: nat, tail: seq<T>,
                             cmp: (T, T) -> int)
    requires lo <= l <= mid <= r <= hi <= |s| == |t| && (l == lo || r == mid) && l + r - mid + |tail| == hi
    requires BackFilled(t, s, tail, l, l + r - mid, hi)
    requires MergingBack(s, tail, lo, l, mid, r, hi, cmp)
    ensures Splice(t, lo, lo + (r - mid), s[mid..r]) == Splice(s, lo, hi, Merge(s[lo..mid], s[mid..hi], cmp))
  {
    hide Splice;
    var w := lo + (r - mid);
    var u := Splice(t, lo, w, s[mid..r]);
    SpliceSlices(t, lo, w, s[mid..r]);
    SpliceApart(t, lo, w, s[mid..r], hi, |t|);
    SpliceApart(t, lo, w, s[mid..r], 0, lo);
    if l == lo {
      SpliceApart(t, lo, w, s[mid..r], w, hi);
      Filled(u, s, lo, w, hi, s[mid..r], tail);
    } else {
      SpliceApart(t, lo, lo, s[mid..r], lo, l);
      SpliceApart(t, lo, lo, s[mid..r], l, hi);
      assert t[lo..l] == s[lo..l];
      Filled(u, s, lo, l, hi, s[lo..l], tail);
    }
  }

  lemma Filled<T>(u: seq<T>, s: seq<T>, lo: nat, cut: nat, hi: nat, head: seq<T>, tail: seq<T>)
    requires lo <= cut <= hi <= |s| == |u| && u[lo..cut] == head && u[cut..hi] == tail
    requires u[..lo] == s[..lo] && u[hi..] == s[hi..]
    ensures u == Splice(s, lo, hi, head + tail)
  {
    assert u == u[..lo] + (u[lo..cut] + u[cut..hi]) + u[hi..];
  }

  /**
   tda_span_inplace_merge.  `buffer` says whether an allocator was passed and served the
   buffer; the result does not depend on it.
   */
  method InplaceMerge<T(!new)>(a: array<T>, lo: nat, mid: nat, hi: nat, cmp: (T, T) -> int, buffer: bool)
    requires lo <= mid <= hi <= a.Length && TotalPreorder(cmp)
    requires Sorted(a[..][lo..mid], cmp) && Sorted(a[..][mid..hi], cmp)
    modifies a
    ensures a[..] == Splice(old(a[..]), lo, hi, Merge(old(a[..])[lo..mid], old(a[..])[mid..hi], cmp))
    ensures StableSortOf(a[..][lo..hi], old(a[..])[lo..hi], cmp)
  {
    hide Sorted, TotalPreorder, Splice, Merge;
    ghost var s := a[..];
    MergedIsStable(s, lo, mid, hi, cmp);
    if mid == lo || mid == hi {
      MergeNothing(s, lo, mid, hi, cmp);
    } else if !buffer {
      MergeInPlace(a, lo, mid, hi, cmp, DepthBound(hi - lo));
    } else if mid - lo <= hi - mid {
      var buf := Park(a, lo, mid);
      MergeForward(a, lo, mid, hi, cmp, buf);
    } else {
      var buf := Park(a, mid, hi);
      MergeBackward(a, lo, mid, hi, cmp, buf);
    }
  }

  method Park<T>(a: array<T>, from: nat, to: nat) returns (buf: array<T>)
    requires from <= to <= a.Length
    ensures fresh(buf) && buf[..] == a[..][from..to]
    ensures a[..] == old(a[..])
  {
    buf := new T[to - from](i requires 0 <= i < to - from reads a => a[from + i]);
  }

  lemma MergedIsStable<T(!new)>(s: seq<T>, lo: nat, mid: nat, hi: nat, cmp: (T, T) -> int)
    requires lo <= mid <= hi <= |s| && TotalPreorder(cmp)
    requires Sorted(s[lo..mid], cmp) && Sorted(s[mid..hi], cmp)
    ensures var t := Splice(s, lo, hi, Merge(s[lo..mid], s[mid..hi], cmp));
            StableSortOf(t[lo..hi], s[lo..hi], cmp)
  {
    hide StableSortOf, Splice, Sorted, TotalPreorder, Merge;
    MergeIsStable(s[lo..mid], s[mid..hi], cmp);
    SpliceSlices(s, lo, hi, Merge(s[lo..mid], s[mid..hi], cmp));
    assert s[lo..hi] == s[lo..mid] + s[mid..hi];
  }
}
