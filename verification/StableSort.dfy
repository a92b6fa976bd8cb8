/** tda_span_sort_stable of src/algo/sort.c: a bottom-up merge sort between two buffers. */
module StableSort {
  import opened Arith
  import opened Core
  import opened Order
  import opened Span
  import opened MergeRuns

  /** Where the run of `width` that starts at `i` ends in a span of `n`. */
  function RunEnd(i: nat, width: nat, n: nat): (e: nat)
    ensures e <= n
  {
    if i + width < n then i + width else n
  }

  /** The run of `width` at `i` holds what it held at first, stably sorted. */
  ghost predicate RunSorted<T(!new)>(t: seq<T>, s: seq<T>, i: nat, width: nat, cmp: (T, T) -> int)
    requires |t| == |s| && i <= |t|
  {
    StableSortOf(t[i..RunEnd(i, width, |t|)], s[i..RunEnd(i, width, |t|)], cmp)
  }

  /** So does every run that starts before `upto`. */
  ghost predicate Runs<T(!new)>(t: seq<T>, s: seq<T>, width: nat, upto: nat, cmp: (T, T) -> int)
    requires |t| == |s| && width > 0
  {
    forall i :: 0 <= i < upto && i < |t| && i % width == 0 ==> RunSorted(t, s, i, width, cmp)
  }

  lemma SingleRuns<T(!new)>(s: seq<T>, cmp: (T, T) -> int)
    ensures Runs(s, s, 1, |s|, cmp)
  {
  }

  /** Two neighbouring sorted runs merge into one sorted run of twice the width. */
  lemma RunsMerge<T(!new)>(t: seq<T>, s: seq<T>, i: nat, mid: nat, end: nat, cmp: (T, T) -> int)
    requires |t| == |s| && i <= mid <= end <= |s| && TotalPreorder(cmp)
    requires StableSortOf(t[i..mid], s[i..mid], cmp) && StableSortOf(t[mid..end], s[mid..end], cmp)
    ensures StableSortOf(Merge(t[i..mid], t[mid..end], cmp), s[i..end], cmp)
  {
    hide Sorted, SamePeers, TotalPreorder;
    MergeIsStable(t[i..mid], t[mid..end], cmp);
    SamePeersConcat(t[i..mid], s[i..mid], t[mid..end], s[mid..end], cmp);
    assert s[i..end] == s[i..mid] + s[mid..end];
    StableTransitive(Merge(t[i..mid], t[mid..end], cmp), t[i..mid] + t[mid..end], s[i..end], cmp);
  }

  /** A pair of runs starts at `i`. */
  predicate AtPair(i: nat, width: nat)
    requires width > 0
  {
    i % (2 * width) == 0
  }

  /** The next pair starts two runs on. */
  lemma NextPair(i: nat, width: nat)
    requires width > 0 && AtPair(i, width)
    ensures AtPair(i + 2 * width, width)
  {
    Doubled(i, width);
  }

  lemma Doubled(i: nat, width: nat)
    requires width > 0 && i % (2 * width) == 0
    ensures i % width == 0 && (i + width) % width == 0 && (i + 2 * width) % (2 * width) == 0
  {
    var q := i / (2 * width);
    assert i == (2 * q) * width;
    assert i + width == (2 * q + 1) * width;
    assert i + 2 * width == (q + 1) * (2 * width);
    Multiple(2 * q, width);
    Multiple(2 * q + 1, width);
    Multiple(q + 1, 2 * width);
  }

  /** One step of a pass: the pair of runs at `i` of `t` goes, merged, into `d`. */
  lemma PassStep<T(!new)>(d: seq<T>, t: seq<T>, s: seq<T>, i: nat, width: nat, merged: seq<T>, cmp: (T, T) -> int)
    requires |d| == |t| == |s| && 0 < width && i < |s| && AtPair(i, width) && TotalPreorder(cmp)
    requires Runs(t, s, width, |s|, cmp) && Runs(d, s, 2 * width, i, cmp)
    requires var mid, end := RunEnd(i, width, |s|), RunEnd(i, 2 * width, |s|);
             merged == Merge(t[i..mid], t[mid..end], cmp)
    ensures Runs(Splice(d, i, RunEnd(i, 2 * width, |s|), merged), s, 2 * width, i + 2 * width, cmp)
  {
    hide Splice, StableSortOf, TotalPreorder, Merge;
    var n := |s|;
    var mid, end := RunEnd(i, width, n), RunEnd(i, 2 * width, n);
    var d' := Splice(d, i, end, merged);
    SpliceSlices(d, i, end, merged);
    Doubled(i, width);
    assert RunSorted(t, s, i, width, cmp);
    if mid < n {
      assert RunSorted(t, s, mid, width, cmp);
    } else {
      EmptyIsStable(t[mid..end], s[mid..end], cmp);
    }
    RunsMerge(t, s, i, mid, end, cmp);
    forall j | 0 <= j < i + 2 * width && j < n && j % (2 * width) == 0 ensures RunSorted(d', s, j, 2 * width, cmp) {
      MultiplesApart(j, i, 2 * width);
      if j < i {
        SpliceApart(d, i, end, merged, j, j + 2 * width);
        assert RunSorted(d, s, j, 2 * width, cmp);
      }
    }
  }

  lemma EmptyIsStable<T(!new)>(r: seq<T>, s: seq<T>, cmp: (T, T) -> int)
    requires r == [] && s == []
    ensures StableSortOf(r, s, cmp)
  {
  }

  /** One run as wide as the span is the span, stably sorted. */
  lemma OneRun<T(!new)>(t: seq<T>, s: seq<T>, width: nat, cmp: (T, T) -> int)
    requires |t| == |s| && 0 < |s| <= width && Runs(t, s, width, |s|, cmp)
    ensures StableSortOf(t, s, cmp)
  {
    assert 0 % width == 0;
    assert RunSorted(t, s, 0, width, cmp);
    assert t[0..|t|] == t && s[0..|s|] == s;
  }

  /** An addition in size_t: every call is a proof that it does not wrap. */
  function SizeSum(x: nat, y: nat): nat
    requires x + y <= SIZE_MAX
  {
    x + y
  }

  /** What was merged so far is what the runs before held. */
  ghost predicate SameUpTo<T>(d: seq<T>, t: seq<T>, n: nat)
    requires n <= |d| && n <= |t|
  {
    multiset(d[..n]) == multiset(t[..n])
  }

  /** The pair of runs at `i`, merged; `end` is where it ends. */
  method MergePair<T(!new)>(dst: array<T>, src: array<T>, i: nat, width: nat, cmp: (T, T) -> int, honest: bool,
                            ghost s: seq<T>)
    returns (ghost end: nat)
    requires dst != src && dst.Length == src.Length == |s| && 0 < width && i < |s| && AtPair(i, width)
    requires i + 2 * width < 2 * |s| <= SIZE_MAX + 1
    requires SameUpTo(dst[..], src[..], i)
    requires honest ==> TotalPreorder(cmp) && Runs(src[..], s, width, |s|, cmp) && Runs(dst[..], s, 2 * width, i, cmp)
    modifies dst
    ensures src[..] == old(src[..]) && end == RunEnd(i, 2 * width, |s|)
    ensures SameUpTo(dst[..], src[..], end)
    ensures honest ==> Runs(dst[..], s, 2 * width, i + 2 * width, cmp)
  {
    hide Runs, TotalPreorder, Splice, Merge, AtPair, SameUpTo;
    ghost var d, t := dst[..], src[..];
    var n := src.Length;
    var mid := if SizeSum(i, width) < n then SizeSum(i, width) else n;
    var to := if SizeSum(i, SizeSum(width, width)) < n then SizeSum(i, SizeSum(width, width)) else n;
    var merged := MergeSpans(dst, i, src, i, mid, src, mid, to, cmp, honest);
    assert t[i..to] == t[i..mid] + t[mid..to];
    PassMultiset(d, t, i, to, merged);
    if honest {
      PassStep(d, t, s, i, width, merged, cmp);
    }
    end := to;
  }

  /**
   One pass over the span: merges the runs of `width` of `src` pairwise into `dst`.
   */
  method Pass<T(!new)>(dst: array<T>, src: array<T>, width: nat, cmp: (T, T) -> int, honest: bool, ghost s: seq<T>)
    requires dst != src && dst.Length == src.Length == |s| && 0 < width < |s| && 2 * |s| <= SIZE_MAX + 1
    requires honest ==> TotalPreorder(cmp) && Runs(src[..], s, width, |s|, cmp)
    modifies dst
    ensures multiset(dst[..]) == multiset(src[..]) && src[..] == old(src[..])
    ensures honest ==> Runs(dst[..], s, 2 * width, |s|, cmp)
  {
    hide Runs, TotalPreorder, Splice, Merge, AtPair, SameUpTo;
    var n := src.Length;
    ghost var t := src[..];
    var i := 0;
    PassStart(dst[..], t, s, width, cmp);
    while i < n
      invariant AtPair(i, width) && i <= n - 1 + 2 * width && (i == 0 || 2 * width <= i)
      invariant SameUpTo(dst[..], t, RunEnd(i, 0, n))
      invariant honest ==> Runs(dst[..], s, 2 * width, i, cmp)
      invariant src[..] == t
    {
      ghost var _ := MergePair(dst, src, i, width, cmp, honest, s);
      NextPair(i, width);
      i := SizeSum(i, SizeSum(width, width));
    }
    SameWhole(dst[..], t);
    RunsAll(dst[..], s, 2 * width, i, cmp);
  }

  lemma PassStart<T(!new)>(d: seq<T>, t: seq<T>, s: seq<T>, width: nat, cmp: (T, T) -> int)
    requires |d| == |t| == |s| && width > 0
    ensures Runs(d, s, 2 * width, 0, cmp) && AtPair(0, width) && SameUpTo(d, t, 0)
  {
  }

  lemma SameWhole<T>(d: seq<T>, t: seq<T>)
    requires |d| == |t| && SameUpTo(d, t, |t|)
    ensures multiset(d) == multiset(t)
  {
    assert d[..|t|] == d && t[..|t|] == t;
  }

  lemma RunsAll<T(!new)>(d: seq<T>, s: seq<T>, width: nat, i: nat, cmp: (T, T) -> int)
    requires |d| == |s| && width > 0 && i >= |s|
    ensures Runs(d, s, width, i, cmp) ==> Runs(d, s, width, |s|, cmp)
  {
  }

  lemma PassMultiset<T>(d: seq<T>, t: seq<T>, i: nat, end: nat, merged: seq<T>)
    requires |d| == |t| && i <= end <= |d| && |merged| == end - i
    requires SameUpTo(d, t, i) && multiset(merged) == multiset(t[i..end])
    ensures SameUpTo(Splice(d, i, end, merged), t, end)
  {
    assert Splice(d, i, end, merged)[..end] == d[..i] + merged;
    assert t[..end] == t[..i] + t[i..end];
  }

  /**
   tda_span_sort_stable.  `memory` says whether the allocator served the buffer; span and buffer
   then share the address space, and no index or width the passes compute wraps around.
   */
  method SortStable<T(!new)>(a: array<T>, cmp: (T, T) -> int, honest: bool, memory: bool) returns (status: Status)
    requires honest ==> TotalPreorder(cmp)
    requires memory ==> 2 * a.Length <= SIZE_MAX + 1
    modifies a
    ensures status == NoMem <==> a.Length >= 2 && !memory
    ensures status == NoMem ==> a[..] == old(a[..])
    ensures multiset(a[..]) == multiset(old(a[..]))
    ensures status == Ok && honest ==> StableSortOf(a[..], old(a[..]), cmp)
  {
    ghost var s := a[..];
    if a.Length < 2 {
      return Ok;
    }
    if !memory {
      return NoMem;
    }
    hide Runs, TotalPreorder, StableSortOf;
    var buf := Park(a, 0, a.Length);
    var src := Passes(a, buf, cmp, honest);
    if src != a {
      ghost var sorted := src[..];
      CopyRange(a, 0, src, 0, a.Length);
      assert a[..] == sorted;
    }
    status := Ok;
  }

  /** The passes, to and fro between the span and the buffer; `src` is where the last one went. */
  method Passes<T(!new)>(a: array<T>, buf: array<T>, cmp: (T, T) -> int, honest: bool) returns (src: array<T>)
    requires a != buf && 2 <= a.Length == buf.Length && 2 * a.Length <= SIZE_MAX + 1 && (honest ==> TotalPreorder(cmp))
    modifies a, buf
    ensures (src == a || src == buf) && multiset(src[..]) == multiset(old(a[..]))
    ensures honest ==> StableSortOf(src[..], old(a[..]), cmp)
  {
    hide Runs, TotalPreorder, StableSortOf;
    ghost var s := a[..];
    var dst := buf;
    src := a;
    var width := 1;
    SingleRuns(s, cmp);
    while width < a.Length
      invariant 0 < width && ((src == a && dst == buf) || (src == buf && dst == a))
      invariant multiset(src[..]) == multiset(s)
      invariant honest ==> Runs(src[..], s, width, |s|, cmp)
    {
      Pass(dst, src, width, cmp, honest, s);
      src, dst := dst, src;
      width := SizeSum(width, width);
    }
    if honest {
      OneRun(src[..], s, width, cmp);
    }
  }
}
