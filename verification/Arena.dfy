/** src/alloc/arena.c: one block handed out front to back, with marks to rewind to. */
module Arenas {
  import opened Arith
  import opened Ring
  import opened Core

  // ----- padding up to an alignment

  /** tda_align_pad: the negated address, in 64-bit arithmetic, under the mask of the alignment. */
  function AlignPad(addr: nat, align: nat): nat
    requires align > 0
  {
    And((0 - addr) % Pow2(64), align - 1)
  }

  /** The padding leads to the first address at or after `addr` that the alignment divides. */
  lemma PadIsLeast(addr: nat, align: nat)
    requires IsAlign(align)
    ensures AlignPad(addr, align) < align && (addr + AlignPad(addr, align)) % align == 0
    ensures forall a: nat :: a >= addr && a % align == 0 ==> addr + AlignPad(addr, align) <= a
  {
    hide AlignPad, Pow2;
    var k: nat :| k < 64 && align == Pow2(k);
    PadIs(addr, k);
    var pad := AlignPad(addr, align);
    forall a: nat | a >= addr && a % align == 0 ensures addr + pad <= a {
      MultiplesApart(addr + pad, a, align);
    }
  }

  lemma PadIs(addr: nat, k: nat)
    requires k < 64
    ensures AlignPad(addr, Pow2(k)) < Pow2(k) && (addr + AlignPad(addr, Pow2(k))) % Pow2(k) == 0
  {
    hide Pow2, And;
    Pow2Divides(k, 64);
    PadRemainder(addr, Pow2(k), Pow2(64 - k), Pow2(64), k);
  }

  lemma PadRemainder(addr: nat, m: nat, n: nat, all: nat, k: nat)
    requires m > 0 && all > 0 && all == n * m && m == Pow2(k)
    ensures And((0 - addr) % all, m - 1) < m && (addr + And((0 - addr) % all, m - 1)) % m == 0
  {
    hide Pow2, And;
    MaskIsRemainder((0 - addr) % all, k);
    NegatedRemainder(addr, m, n, all);
  }

  lemma NegatedRemainder(addr: nat, m: nat, n: nat, all: nat)
    requires m > 0 && all > 0 && all == n * m
    ensures (addr + ((0 - addr) % all) % m) % m == 0
  {
    var x, q := (0 - addr) % all, (0 - addr) / all;
    var r, p := x % m, x / m;
    assert 0 - addr == q * all + x && x == p * m + r;
    assert q * all == (q * n) * m;
    assert addr + r == (0 - q * n - p) * m;
    DivModIs(addr + r, m, 0 - q * n - p, 0);
  }

  /** An aligned place for a block at or above `from`. */
  predicate Aligned(base: nat, align: nat, from: nat, s: nat)
    requires align > 0
  {
    s >= from && (base + s) % align == 0
  }

  lemma FirstAligned(base: nat, align: nat, from: nat)
    requires IsAlign(align)
    ensures Aligned(base, align, from, from + AlignPad(base + from, align))
    ensures forall s: nat :: Aligned(base, align, from, s) ==> from + AlignPad(base + from, align) <= s
  {
    hide AlignPad, IsAlign;
    PadIsLeast(base + from, align);
    assert base + from + AlignPad(base + from, align) == base + (from + AlignPad(base + from, align));
    forall s: nat | Aligned(base, align, from, s) ensures from + AlignPad(base + from, align) <= s {
      assert base + s >= base + from;
    }
  }

  // ----- what is live

  datatype Block = Block(start: nat, size: nat, align: nat)
  {
    function End(): nat { start + size }
  }

  datatype Mark = Mark(offset: nat, floor: nat)

  /** A mark and the number of blocks made before it. */
  datatype Taken = Taken(mark: Mark, before: nat)

  predicate Fits(b: Block, base: nat, offset: nat) {
    b.size > 0 && b.align > 0 && b.End() <= offset && (base + b.start) % b.align == 0
  }

  predicate Disjoint(b: Block, c: Block) {
    b.End() <= c.start || c.End() <= b.start
  }

  /** Blocks by the order of their making: aligned, below the offset and pairwise disjoint. */
  ghost predicate Sound(live: map<nat, Block>, base: nat, offset: nat) {
    && (forall n :: n in live ==> Fits(live[n], base, offset))
    && (forall n, m :: n in live && m in live && n != m ==> Disjoint(live[n], live[m]))
  }

  /** The floor a mark restores: the offset of the mark before it. */
  function FloorBelow(marks: seq<Taken>, k: nat): nat
    requires k <= |marks|
  {
    if k == 0 then 0 else marks[k - 1].mark.offset
  }

  /** The marks not yet rewound nest, and none lies past the offset. */
  ghost predicate Nested(marks: seq<Taken>, offset: nat, floor: nat) {
    && floor == FloorBelow(marks, |marks|) <= offset
    && (forall k :: 0 <= k < |marks| ==> marks[k].mark.floor == FloorBelow(marks, k) <= marks[k].mark.offset)
    && (forall k :: 0 <= k < |marks| ==> marks[k].mark.offset <= floor)
  }

  /** Blocks made before a mark end at or below it; blocks made after start at or above it. */
  predicate Split(b: Block, n: nat, t: Taken) {
    if n < t.before then b.End() <= t.mark.offset else t.mark.offset <= b.start
  }

  ghost predicate Separated(live: map<nat, Block>, marks: seq<Taken>) {
    forall n, k :: n in live && 0 <= k < |marks| ==> Split(live[n], n, marks[k])
  }

  ghost predicate MadeBefore(live: map<nat, Block>, marks: seq<Taken>, next: nat) {
    && (forall n :: n in live ==> n < next)
    && (forall k :: 0 <= k < |marks| ==> marks[k].before <= next)
  }

  /** What a rewind leaves: the blocks made before the mark. */
  function OlderThan(live: map<nat, Block>, t: Taken): map<nat, Block> {
    map n | n in live && n < t.before :: live[n]
  }

  /** Marks nest: each lies at or above the ones before it. */
  lemma {:induction false} MarksAscend(marks: seq<Taken>, j: nat, k: nat, offset: nat, floor: nat)
    requires Nested(marks, offset, floor) && j <= k < |marks|
    ensures marks[j].mark.offset <= marks[k].mark.offset
    decreases k
  {
    if j < k {
      MarksAscend(marks, j, k - 1, offset, floor);
      assert marks[k].mark.floor == FloorBelow(marks, k);
    }
  }

  /** The step behind the rewind: the older blocks lie whole below the mark, and the marks below it still nest. */
  lemma RewindKeeps(live: map<nat, Block>, marks: seq<Taken>, base: nat, offset: nat, floor: nat, k: nat)
    requires Sound(live, base, offset) && Nested(marks, offset, floor) && Separated(live, marks) && k < |marks|
    ensures var t := marks[k];
            && Sound(OlderThan(live, t), base, t.mark.offset) && Nested(marks[..k], t.mark.offset, t.mark.floor)
            && Separated(OlderThan(live, t), marks[..k]) && t.mark.offset <= offset
  {
    var t, older := marks[k], OlderThan(live, marks[k]);
    forall n | n in older ensures Fits(older[n], base, t.mark.offset) {
      assert Split(live[n], n, t);
    }
    assert FloorBelow(marks[..k], k) == FloorBelow(marks, k);
    forall j | 0 <= j < k
      ensures marks[..k][j].mark.floor == FloorBelow(marks[..k], j) <= marks[j].mark.offset
      ensures marks[j].mark.offset <= t.mark.floor
    {
      assert FloorBelow(marks[..k], j) == FloorBelow(marks, j);
      MarksAscend(marks, j, k - 1, offset, floor);
    }
  }

  lemma AllocKeeps(live: map<nat, Block>, marks: seq<Taken>, base: nat, offset: nat, floor: nat, next: nat, b: Block)
    requires Sound(live, base, offset) && Nested(marks, offset, floor) && Separated(live, marks)
    requires MadeBefore(live, marks, next)
    requires b.size > 0 && b.align > 0 && Aligned(base, b.align, offset, b.start)
    ensures Sound(live[next := b], base, b.End()) && Nested(marks, b.End(), floor)
    ensures Separated(live[next := b], marks) && MadeBefore(live[next := b], marks, next + 1) && next !in live
  {
    var l := live[next := b];
    forall n | n in l ensures Fits(l[n], base, b.End()) {
      assert n != next ==> Fits(live[n], base, offset);
    }
    forall n, m | n in l && m in l && n != m ensures Disjoint(l[n], l[m]) {
      assert n != next ==> Fits(live[n], base, offset);
      assert m != next ==> Fits(live[m], base, offset);
    }
  }

  /** Nothing lies above the last block, so it may take any new end above its start. */
  lemma LastResizeKeeps(live: map<nat, Block>, marks: seq<Taken>, base: nat, offset: nat, floor: nat, n: nat, size: nat)
    requires Sound(live, base, offset) && Nested(marks, offset, floor) && Separated(live, marks)
    requires n in live && live[n].End() == offset && floor <= live[n].start && size > 0
    ensures var l := live[n := live[n].(size := size)];
            && Sound(l, base, live[n].start + size) && Nested(marks, live[n].start + size, floor) && Separated(l, marks)
  {
    var b := live[n];
    var l := live[n := b.(size := size)];
    forall m | m in live && m != n ensures live[m].End() <= b.start {
      assert Fits(live[m], base, offset) && Disjoint(live[n], live[m]);
    }
    forall m | m in l ensures Fits(l[m], base, b.start + size) {
      assert Fits(live[m], base, offset);
    }
    forall m, k | m in l && 0 <= k < |marks| ensures Split(l[m], m, marks[k]) {
      assert Split(live[m], m, marks[k]) && Fits(live[m], base, offset);
    }
  }

  lemma ShrinkKeeps(live: map<nat, Block>, marks: seq<Taken>, base: nat, offset: nat, n: nat, size: nat)
    requires Sound(live, base, offset) && Separated(live, marks)
    requires n in live && 0 < size <= live[n].size
    ensures var l := live[n := live[n].(size := size)]; Sound(l, base, offset) && Separated(l, marks)
  {
    var l := live[n := live[n].(size := size)];
    forall m | m in l ensures Fits(l[m], base, offset) {
      assert Fits(live[m], base, offset);
    }
    forall m, o | m in l && o in l && m != o ensures Disjoint(l[m], l[o]) {
      assert Disjoint(live[m], live[o]);
    }
    forall m, k | m in l && 0 <= k < |marks| ensures Split(l[m], m, marks[k]) {
      assert Split(live[m], m, marks[k]);
    }
  }

  lemma MarkKeeps(live: map<nat, Block>, marks: seq<Taken>, base: nat, offset: nat, floor: nat, next: nat)
    requires Sound(live, base, offset) && Nested(marks, offset, floor) && Separated(live, marks)
    requires MadeBefore(live, marks, next)
    ensures var m := marks + [Taken(Mark(offset, floor), next)];
            Nested(m, offset, offset) && Separated(live, m) && MadeBefore(live, m, next)
  {
    var m := marks + [Taken(Mark(offset, floor), next)];
    forall k | 0 <= k < |m| ensures m[k].mark.floor == FloorBelow(m, k) <= m[k].mark.offset <= offset {
      assert k < |marks| ==> m[k] == marks[k] && FloorBelow(m, k) == FloorBelow(marks, k);
    }
    forall n, k | n in live && 0 <= k < |m| ensures Split(live[n], n, m[k]) {
      assert Fits(live[n], base, offset);
    }
  }

  // ----- runs

  /** The arena as its client knows it. */
  datatype State = State(base: nat, cap: nat, offset: nat, floor: nat, live: map<nat, Block>, marks: seq<Taken>,
                         next: nat)

  datatype Op = OpAlloc(block: Block) | OpResize(n: nat, size: nat) | OpFree(n: nat)
              | OpMark | OpRewind(k: nat) | OpReset

  ghost predicate Inv(s: State) {
    && 0 < s.cap <= SIZE_MAX && s.floor <= s.offset <= s.cap
    && Sound(s.live, s.base, s.offset) && Nested(s.marks, s.offset, s.floor)
    && Separated(s.live, s.marks) && MadeBefore(s.live, s.marks, s.next)
  }

  /** The last block, unless it starts under the floor: the one that may grow in place. */
  predicate Loose(s: State, b: Block) {
    b.End() == s.offset && b.start >= s.floor
  }

  /** What the arena grants, and what a client that uses the marks as a stack asks of it. */
  predicate Legal(s: State, op: Op) {
    match op
    case OpAlloc(b) => b.size > 0 && b.align > 0 && Aligned(s.base, b.align, s.offset, b.start) && b.End() <= s.cap
    case OpResize(n, size) =>
      && n in s.live && size > 0
      && (size <= s.live[n].size || (Loose(s, s.live[n]) && s.live[n].start + size <= s.cap))
    case OpFree(n) => n in s.live
    case OpRewind(k) => k < |s.marks|
    case _ => true
  }

  function Apply(s: State, op: Op): State
    requires Legal(s, op)
  {
    match op
    case OpAlloc(b) => s.(offset := b.End(), live := s.live[s.next := b], next := s.next + 1)
    case OpResize(n, size) =>
      var b := s.live[n].(size := size);
      s.(offset := if Loose(s, s.live[n]) then b.End() else s.offset, live := s.live[n := b])
    case OpFree(n) => s.(live := s.live - {n})
    case OpMark => s.(floor := s.offset, marks := s.marks + [Taken(Mark(s.offset, s.floor), s.next)])
    case OpRewind(k) =>
      var t := s.marks[k];
      s.(offset := t.mark.offset, floor := t.mark.floor, live := OlderThan(s.live, t), marks := s.marks[..k])
    case OpReset => s.(offset := 0, floor := 0, live := map[], marks := [])
  }

  /** Every step keeps the blocks aligned, disjoint and below the offset, and the marks nested. */
  lemma ApplyKeeps(s: State, op: Op)
    requires Inv(s) && Legal(s, op)
    ensures Inv(Apply(s, op))
  {
    match op
    case OpAlloc(b) => AllocKeeps(s.live, s.marks, s.base, s.offset, s.floor, s.next, b);
    case OpResize(n, size) =>
      if Loose(s, s.live[n]) {
        LastResizeKeeps(s.live, s.marks, s.base, s.offset, s.floor, n, size);
      } else {
        ShrinkKeeps(s.live, s.marks, s.base, s.offset, n, size);
      }
    case OpMark => MarkKeeps(s.live, s.marks, s.base, s.offset, s.floor, s.next);
    case OpRewind(k) => RewindKeeps(s.live, s.marks, s.base, s.offset, s.floor, k);
    case _ =>
  }

  ghost predicate LegalRun(s: State, ops: seq<Op>)
    decreases |ops|
  {
    ops == [] || (Legal(s, ops[0]) && LegalRun(Apply(s, ops[0]), ops[1..]))
  }

  ghost function Ran(s: State, ops: seq<Op>): State
    requires LegalRun(s, ops)
    decreases |ops|
  {
    if ops == [] then s else Ran(Apply(s, ops[0]), ops[1..])
  }

  lemma {:induction false} RunKeeps(s: State, ops: seq<Op>)
    requires Inv(s) && LegalRun(s, ops)
    ensures Inv(Ran(s, ops))
    decreases |ops|
  {
    hide Inv, Legal, Apply;
    if ops != [] {
      ApplyKeeps(s, ops[0]);
      RunKeeps(Apply(s, ops[0]), ops[1..]);
    }
  }

  /** The run stays inside the scope of mark k: no rewind to it or to an older one, no reset. */
  predicate Within(op: Op, k: nat) {
    match op
    case OpRewind(j) => j > k
    case OpReset => false
    case _ => true
  }

  predicate Frees(ops: seq<Op>, n: nat) {
    exists i :: 0 <= i < |ops| && ops[i] == OpFree(n)
  }

  /** Block n is where it was and has not grown. */
  predicate Stays(was: map<nat, Block>, now: map<nat, Block>, n: nat) {
    n in was && n in now && now[n].start == was[n].start && now[n].align == was[n].align && now[n].size <= was[n].size
  }

  /** What a run inside the scope of mark k does to the marks up to k and to the blocks made before k. */
  ghost predicate ScopeKept(s: State, u: State, k: nat, ops: seq<Op>)
    requires k < |s.marks|
  {
    && k < |u.marks| && u.marks[..k + 1] == s.marks[..k + 1]
    && (forall n :: n in u.live && n < s.marks[k].before ==> Stays(s.live, u.live, n))
    && (forall n :: n in s.live && n < s.marks[k].before && !Frees(ops, n) ==> n in u.live)
  }

  lemma StepInScope(s: State, op: Op, k: nat)
    requires Inv(s) && Legal(s, op) && k < |s.marks| && Within(op, k)
    ensures ScopeKept(s, Apply(s, op), k, [op])
  {
    var u := Apply(s, op);
    match op
    case OpResize(n, size) =>
      assert Split(s.live[n], n, s.marks[k]) && Fits(s.live[n], s.base, s.offset);
    case OpFree(n) =>
      assert [op][0] == OpFree(n);
    case OpRewind(j) =>
      assert u.marks[..k + 1] == s.marks[..k + 1];
      RewoundLater(s.live, s.marks, s.base, s.offset, s.floor, k, j);
    case _ =>
  }

  /** A rewind to a later mark keeps what an earlier one keeps. */
  lemma RewoundLater(live: map<nat, Block>, marks: seq<Taken>, base: nat, offset: nat, floor: nat, k: nat, j: nat)
    requires Sound(live, base, offset) && Nested(marks, offset, floor) && Separated(live, marks) && k < j < |marks|
    ensures forall n :: n in live && n < marks[k].before ==> n in OlderThan(live, marks[j])
  {
    forall n | n in live && n < marks[k].before ensures n < marks[j].before {
      assert Split(live[n], n, marks[k]) && Split(live[n], n, marks[j]) && Fits(live[n], base, offset);
      MarksAscend(marks, k, j, offset, floor);
    }
  }

  lemma {:induction false} RunInScope(s: State, ops: seq<Op>, k: nat)
    requires Inv(s) && LegalRun(s, ops) && k < |s.marks| && forall i :: 0 <= i < |ops| ==> Within(ops[i], k)
    ensures ScopeKept(s, Ran(s, ops), k, ops) && Inv(Ran(s, ops))
    decreases |ops|
  {
    hide Inv, Legal, Apply;
    if ops != [] {
      var t := Apply(s, ops[0]);
      StepInScope(s, ops[0], k);
      ApplyKeeps(s, ops[0]);
      assert t.marks[k] == t.marks[..k + 1][k] == s.marks[k];
      RunInScope(t, ops[1..], k);
      FreesSplit(ops);
    }
  }

  lemma FreesSplit(ops: seq<Op>)
    requires ops != []
    ensures forall n :: Frees(ops, n) <==> Frees([ops[0]], n) || Frees(ops[1..], n)
  {
    forall n ensures Frees(ops, n) <==> Frees([ops[0]], n) || Frees(ops[1..], n) {
      if Frees([ops[0]], n) {
        assert ops[0] == OpFree(n);
      }
      if Frees(ops[1..], n) {
        var i :| 0 <= i < |ops| - 1 && ops[1..][i] == OpFree(n);
        assert ops[i + 1] == OpFree(n);
      }
      if Frees(ops, n) {
        var i :| 0 <= i < |ops| && ops[i] == OpFree(n);
        assert if i == 0 then [ops[0]][0] == OpFree(n) else ops[1..][i - 1] == OpFree(n);
      }
    }
  }

  /**
   Mark, any run that uses the marks as a stack, rewind: offset, floor and marks are what they
   were, and the blocks live are those that were and have not been freed, each where it was and
   none cut.
   */
  lemma ScratchScope(s: State, ops: seq<Op>)
    requires Inv(s) && LegalRun(Apply(s, OpMark), ops)
    requires forall i :: 0 <= i < |ops| ==> Within(ops[i], |s.marks|)
    ensures var t := Ran(Apply(s, OpMark), ops);
            && Legal(t, OpRewind(|s.marks|))
            && var u := Apply(t, OpRewind(|s.marks|));
            && Inv(u) && u.offset == s.offset && u.floor == s.floor && u.marks == s.marks
            && (forall n :: n in u.live ==> Stays(s.live, u.live, n) && u.live[n].End() <= s.offset)
            && (forall n :: n in s.live && !Frees(ops, n) ==> n in u.live && u.live[n] == t.live[n])
  {
    hide LegalRun, Ran, Inv, ScopeKept;
    ApplyKeeps(s, OpMark);
    RunInScope(Apply(s, OpMark), ops, |s.marks|);
    ScopeCloses(s, Ran(Apply(s, OpMark), ops), ops);
    ApplyKeeps(Ran(Apply(s, OpMark), ops), OpRewind(|s.marks|));
  }

  lemma ScopeCloses(s: State, t: State, ops: seq<Op>)
    requires Inv(s) && Inv(t) && ScopeKept(Apply(s, OpMark), t, |s.marks|, ops)
    ensures |s.marks| < |t.marks|
    ensures var u := Apply(t, OpRewind(|s.marks|));
            && u.offset == s.offset && u.floor == s.floor && u.marks == s.marks
            && (forall n :: n in u.live ==> Stays(s.live, u.live, n) && u.live[n].End() <= s.offset)
            && (forall n :: n in s.live && !Frees(ops, n) ==> n in u.live && u.live[n] == t.live[n])
  {
    hide Sound, Nested, Frees;
    var k, m := |s.marks|, Apply(s, OpMark);
    assert t.marks[k] == t.marks[..k + 1][k] == m.marks[k];
    var u := Apply(t, OpRewind(k));
    assert u.marks == t.marks[..k + 1][..k] == m.marks[..k + 1][..k] == s.marks;
    forall n | n in u.live ensures u.live[n].End() <= s.offset {
      assert Split(t.live[n], n, t.marks[k]);
    }
  }

  // ----- the arena

  datatype Placed = Refused | At(addr: nat)
  datatype Resized = Halted | Answered(inPlace: bool)

  class Arena {
    const base: nat
    const cap: nat
    var offset: nat
    var floor: nat
    ghost var live: map<nat, Block>
    ghost var marks: seq<Taken>
    ghost var next: nat

    ghost function Now(): State
      reads this
    {
      State(base, cap, offset, floor, live, marks, next)
    }

    ghost predicate Valid()
      reads this
    {
      Inv(Now())
    }

    constructor (base: nat, cap: nat)
      requires 0 < cap <= SIZE_MAX
      ensures Valid() && Now() == State(base, cap, 0, 0, map[], [], 0)
    {
      this.base, this.cap := base, cap;
      offset, floor := 0, 0;
      live, marks, next := map[], [], 0;
    }

    /**
     arena_alloc: the block takes the first aligned place at or above the offset, and is refused
     exactly when no such place has the room.
     */
    method Alloc(size: nat, align: nat) returns (r: Placed)
      requires Valid() && size > 0 && IsAlign(align)
      modifies this`offset, this`live, this`next
      ensures Valid()
      ensures r.Refused? ==> Now() == old(Now())
      ensures r.Refused? <==> forall s: nat :: Aligned(base, align, old(offset), s) ==> s + size > cap
      ensures r.At? ==> && base <= r.addr && Legal(old(Now()), OpAlloc(Block(r.addr - base, size, align)))
                        && Now() == Apply(old(Now()), OpAlloc(Block(r.addr - base, size, align)))
      ensures r.At? ==> forall s: nat :: Aligned(base, align, old(offset), s) ==> r.addr - base <= s
      ensures r.At? ==> && r.addr % align == 0 && old(offset) <= r.addr - base && offset == r.addr - base + size <= cap
                        && live == old(live)[old(next) := Block(r.addr - base, size, align)] && next == old(next) + 1
    {
      hide AlignPad, IsAlign, Sound, Nested, Separated, MadeBefore;
      var start := offset + AlignPad(base + offset, align);
      FirstAligned(base, align, offset);
      if start > SIZE_MAX || start + size > SIZE_MAX || start + size > cap {
        return Refused;
      }
      ApplyKeeps(Now(), OpAlloc(Block(start, size, align)));
      live, next := live[next := Block(start, size, align)], next + 1;
      offset := start + size;
      r := At(base + start);
    }

    /** arena_resize: the check that the arena owns the block never fires for a block it handed out. */
    method Resize(ghost n: nat, addr: nat, oldSize: nat, newSize: nat) returns (r: Resized)
      requires Valid() && n in live && addr == base + live[n].start && oldSize == live[n].size && newSize > 0
      modifies this`offset, this`live
      ensures Valid() && r.Answered? && r.inPlace == Legal(old(Now()), OpResize(n, newSize))
      ensures Now() == if r.inPlace then Apply(old(Now()), OpResize(n, newSize)) else old(Now())
      ensures var last := addr - base + oldSize == old(offset) && addr - base >= floor;
              && (r.inPlace <==> newSize <= oldSize || (last && addr - base + newSize <= cap))
              && offset == (if r.inPlace && last then addr - base + newSize else old(offset))
              && live == if r.inPlace then old(live)[n := old(live)[n].(size := newSize)] else old(live)
    {
      hide Sound, Nested, Separated, MadeBefore;
      InBounds(Now(), n);
      if Legal(Now(), OpResize(n, newSize)) {
        ApplyKeeps(Now(), OpResize(n, newSize));
      }
      if !(addr >= base && addr - base <= offset && oldSize <= offset - (addr - base)) {
        return Halted;
      }
      var start := addr - base;
      if start + oldSize == offset && start >= floor {
        if start + newSize > SIZE_MAX || start + newSize > cap {
          return Answered(false);
        }
        offset, live := start + newSize, live[n := live[n].(size := newSize)];
        return Answered(true);
      }
      if newSize <= oldSize {
        live := live[n := live[n].(size := newSize)];
      }
      r := Answered(newSize <= oldSize);
    }

    /** arena_dealloc: nothing but the end of the block's life. */
    method Dealloc(ghost n: nat)
      requires Valid() && n in live
      modifies this`live
      ensures Valid() && Now() == Apply(old(Now()), OpFree(n)) && live == old(live) - {n}
    {
      ApplyKeeps(Now(), OpFree(n));
      live := live - {n};
    }

    method TakeMark() returns (mark: Mark)
      requires Valid()
      modifies this`floor, this`marks
      ensures Valid() && Now() == Apply(old(Now()), OpMark)
      ensures mark == Mark(old(offset), old(floor)) && floor == offset && marks == old(marks) + [Taken(mark, next)]
    {
      ApplyKeeps(Now(), OpMark);
      mark := Mark(offset, floor);
      marks := marks + [Taken(mark, next)];
      floor := offset;
    }

    /** tda_arena_rewind: for a mark not yet rewound past, the check on its offset passes. */
    method Rewind(mark: Mark, ghost k: nat) returns (halted: bool)
      requires Valid() && k < |marks| && marks[k].mark == mark
      modifies this`offset, this`floor, this`live, this`marks
      ensures Valid() && !halted && Now() == Apply(old(Now()), OpRewind(k))
      ensures offset == mark.offset && floor == mark.floor && marks == old(marks)[..k]
      ensures forall n :: n in live <==> n in old(live) && n < old(marks)[k].before
      ensures forall n :: n in live ==> live[n] == old(live)[n]
    {
      ApplyKeeps(Now(), OpRewind(k));
      if mark.offset > offset {
        return true;
      }
      live, marks := OlderThan(live, marks[k]), marks[..k];
      offset, floor := mark.offset, mark.floor;
      halted := false;
    }

    method Reset()
      requires Valid()
      modifies this`offset, this`floor, this`live, this`marks
      ensures Valid() && Now() == Apply(old(Now()), OpReset)
      ensures offset == 0 && floor == 0 && live == map[] && marks == []
    {
      offset, floor := 0, 0;
      live, marks := map[], [];
    }
  }

  lemma InBounds(s: State, n: nat)
    requires Inv(s) && n in s.live
    ensures s.live[n].End() <= s.offset <= s.cap <= SIZE_MAX && s.live[n].size > 0
  {
    assert Fits(s.live[n], s.base, s.offset);
  }
}
