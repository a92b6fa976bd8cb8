/** src/alloc/slab.c: small blocks carved from chunks by size class, larger ones left to the parent. */
module Slabs {
  import opened Core
  import opened Arith
  import opened Ring
  import opened Bitwise

  const CLASS_SIZES: seq<nat> := [16, 32, 48, 64, 96, 128, 192, 256, 384, 512]
  const CLASS_COUNT: nat := 10
  const CHUNK_BYTES: nat := 4096
  const CHUNK_ALIGN: nat := 512
  const CHUNK_ROOM: nat := 4088

  // ----- the class of a request

  /** size & -size, in 64-bit arithmetic. */
  function LowMask(size: nat): nat
    requires size < Pow2(64)
  {
    And(size, Pow2(64) - size)
  }

  predicate Serves(c: nat, layout: Layout) {
    c < CLASS_COUNT && CLASS_SIZES[c] >= layout.size && LowestOf(c) >= layout.align
  }

  /** The lowest set bit of each class size, which is what LowMask gives. */
  function LowestOf(c: nat): (p: nat)
    requires c < CLASS_COUNT
  {
    [16, 32, 16, 64, 32, 128, 64, 256, 128, 512][c]
  }

  /** The first class that serves the layout, or CLASS_COUNT. */
  function ClassOf(layout: Layout): (c: nat)
    ensures c <= CLASS_COUNT && (c < CLASS_COUNT ==> Serves(c, layout))
    ensures forall d: nat :: d < c ==> !Serves(d, layout)
  {
    ClassFrom(layout, 0)
  }

  function ClassFrom(layout: Layout, from: nat): (c: nat)
    requires from <= CLASS_COUNT
    ensures from <= c <= CLASS_COUNT && (c < CLASS_COUNT ==> Serves(c, layout))
    ensures forall d: nat :: from <= d < c ==> !Serves(d, layout)
    decreases CLASS_COUNT - from
  {
    if from == CLASS_COUNT || Serves(from, layout) then from else ClassFrom(layout, from + 1)
  }

  lemma {:induction false} LowMaskIs(x: nat, k: nat)
    requires 0 < x < Pow2(k)
    ensures And(x, Pow2(k) - x) == Pow2(LowBit(x))
    decreases k
  {
    var p := Pow2(k - 1);
    if x % 2 == 1 {
      assert (2 * p - x) % 2 == 1 && (2 * p - x) / 2 == p - 1 - x / 2;
      NoCommonBits(x / 2, k - 1);
    } else {
      assert (2 * p - x) % 2 == 0 && (2 * p - x) / 2 == p - x / 2;
      LowMaskIs(x / 2, k - 1);
    }
  }

  lemma {:induction false} NoCommonBits(x: nat, k: nat)
    requires x < Pow2(k)
    ensures And(x, Pow2(k) - 1 - x) == 0
    decreases k
  {
    if k > 0 {
      var p := Pow2(k - 1);
      assert (2 * p - 1 - x) / 2 == p - 1 - x / 2 && (2 * p - 1 - x) % 2 == 1 - x % 2;
      NoCommonBits(x / 2, k - 1);
    }
  }

  lemma LowestIs(c: nat)
    requires c < CLASS_COUNT
    ensures CLASS_SIZES[c] < Pow2(64) && LowMask(CLASS_SIZES[c]) == LowestOf(c)
  {
    hide Pow2, And, LowBit;
    SmallPowers();
    LowBits(c);
    SizesFit();
    LowMaskIs(CLASS_SIZES[c], 64);
  }

  lemma SizesFit()
    ensures 1024 <= Pow2(64)
  {
    hide Pow2;
    SmallPowers();
    Pow2Divides(10, 64);
    MulMonotone(1, Pow2(54), 1024);
  }

  lemma LowBits(c: nat)
    requires c < CLASS_COUNT
    ensures LowBit(CLASS_SIZES[c]) == [4, 5, 4, 6, 5, 7, 6, 8, 7, 9][c]
  {
    hide Pow2, LowBit;
    SmallPowers();
    var k := [4, 5, 4, 6, 5, 7, 6, 8, 7, 9][c];
    var m := if c == 2 || c == 4 || c == 6 || c == 8 then 3 else 1;
    LowBitOf(k, m);
    assert CLASS_SIZES[c] == m * Pow2(k);
  }

  lemma SmallPowers()
    ensures Pow2(4) == 16 && Pow2(5) == 32 && Pow2(6) == 64 && Pow2(7) == 128 && Pow2(8) == 256 && Pow2(9) == 512
    ensures Pow2(10) == 1024
  {
  }

  /** Whether rounding the request up to its class wastes at most a third of the block. */
  predicate WastesLittle(layout: Layout)
    requires ClassOf(layout) < CLASS_COUNT
  {
    var size := CLASS_SIZES[ClassOf(layout)];
    3 * (size - layout.size) <= size
  }

  /**
   Rounding wastes at most a third of a block exactly for the requests that fill two thirds of the
   first class of their alignment, or of the second, twice as large, from where on steps are short.
   */
  lemma WasteIs(layout: Layout)
    requires IsAlign(layout.align) && ClassOf(layout) < CLASS_COUNT
    ensures var least := if layout.align <= 16 then 16 else layout.align;
            WastesLittle(layout) <==> 2 * least <= 3 * layout.size <= 3 * least || 4 * least <= 3 * layout.size
  {
    hide Pow2, IsAlign, ClassOf;
    SmallAligns(layout.align);
    var c := ClassOf(layout);
    assert forall d: nat :: d < c ==> !Serves(d, layout);
    assert Serves(0, layout) || Serves(1, layout) || Serves(2, layout) || Serves(3, layout) || Serves(4, layout)
           || Serves(5, layout) || Serves(6, layout) || Serves(7, layout) || Serves(8, layout) || Serves(9, layout);
  }

  lemma SmallAligns(align: nat)
    requires IsAlign(align) && align <= 512
    ensures align <= 16 || align == 32 || align == 64 || align == 128 || align == 256 || align == 512
  {
    hide Pow2;
    SmallPowers();
    var k: nat :| k < 64 && align == Pow2(k);
    if k > 9 {
      Pow2Monotone(10, k);
    } else if k < 4 {
      Pow2Monotone(k, 4);
    }
  }

  /** So not for 17 bytes, which take a block of 32. */
  lemma WasteAt17()
    ensures ClassOf(Layout(17, 1)) < CLASS_COUNT && !WastesLittle(Layout(17, 1))
  {
    assert Serves(1, Layout(17, 1)) && !Serves(0, Layout(17, 1));
  }

  method FindClass(layout: Layout) returns (idx: nat)
    requires layout.size > 0
    ensures idx == ClassOf(layout)
  {
    hide Pow2, LowMask;
    idx := 0;
    while idx < CLASS_COUNT
      invariant idx <= CLASS_COUNT && ClassOf(layout) == ClassFrom(layout, idx)
    {
      LowestIs(idx);
      var size := CLASS_SIZES[idx];
      if size >= layout.size && LowMask(size) >= layout.align {
        return;
      }
      idx := idx + 1;
    }
  }

  // ----- what the slab holds

  /** Free-list heads and the uncarved rest of the newest chunk; 0 is the null pointer. */
  datatype SizeClass = SizeClass(freeHead: nat, carve: nat, carveEnd: nat)

  /** Where a block was carved: the idx-th of its class in its chunk. */
  datatype Spot = Spot(chunk: nat, cls: nat, idx: nat)

  /** The chunk a class carves from, and how many blocks it has carved there. */
  datatype Ground = Ground(chunk: nat, used: nat)

  type Words = nat -> nat

  const WORD: nat := 8

  function Put(word: Words, at: nat, v: nat): Words {
    x => if x == at then v else word(x)
  }

  /** Something was written inside the `n` bytes at a: a word that meets none of them is what it was. */
  ghost predicate Overwritten(word: Words, word': Words, a: nat, n: nat) {
    forall x: nat :: Apart(a, n, x, WORD) ==> word'(x) == word(x)
  }

  /**
   The pools and the memory words that link them; then what they stand for: chunks `held`,
   newest first, each of one `kind`; every block ever carved; the small blocks out, the free ones
   by class in the order they will be reused, and the large blocks out, which are the parent's.
   */
  datatype State = State(pools: seq<SizeClass>, chunks: nat, word: Words, held: seq<nat>, kind: map<nat, nat>,
                         ground: seq<Ground>, blocks: map<nat, Spot>, live: map<nat, Layout>, free: seq<seq<nat>>,
                         big: map<nat, Layout>)

  predicate Apart(a: nat, n: nat, b: nat, m: nat) {
    a + n <= b || b + m <= a
  }

  function SizeOf(p: Spot): nat
    requires p.cls < CLASS_COUNT
  {
    CLASS_SIZES[p.cls]
  }

  /** The link that follows member k of a list. */
  function After(list: seq<nat>, k: nat, off: nat): nat {
    if k + 1 < |list| then list[k + 1] + off else 0
  }

  /** A linked list through the words at `off` into each of its members. */
  predicate Chain(word: Words, head: nat, list: seq<nat>, off: nat) {
    && head == (if list == [] then 0 else list[0] + off)
    && forall k :: 0 <= k < |list| ==> word(list[k] + off) == After(list, k, off)
  }

  ghost predicate HeldOk(held: seq<nat>, kind: map<nat, nat>) {
    && (forall i :: 0 <= i < |held| ==> held[i] > 0 && held[i] % CHUNK_ALIGN == 0)
    && (forall i :: 0 <= i < |held| ==> held[i] in kind && kind[held[i]] < CLASS_COUNT)
    && (forall i, j :: 0 <= i < j < |held| ==> Apart(held[i], CHUNK_BYTES, held[j], CHUNK_BYTES))
  }

  /** A layout the class is for, as a request has it: its alignment is a power of two. */
  predicate Tagged(layout: Layout, c: nat) {
    ClassOf(layout) == c && IsAlign(layout.align)
  }

  predicate Aligned(a: nat, align: nat) {
    align > 0 && a % align == 0
  }

  ghost predicate BigOk(held: seq<nat>, big: map<nat, Layout>) {
    && (forall b :: b in big ==> Tagged(big[b], CLASS_COUNT) && big[b].size > 0 && Aligned(b, big[b].align))
    && (forall b, i :: b in big && 0 <= i < |held| ==> Apart(b, big[b].size, held[i], CHUNK_BYTES))
    && (forall b, c :: b in big && c in big && b != c ==> Apart(b, big[b].size, c, big[c].size))
  }

  /** A block lies in its chunk at a multiple of its size, clear of the chunk's link. */
  predicate SpotOk(a: nat, p: Spot, held: seq<nat>, kind: map<nat, nat>) {
    && p.cls < CLASS_COUNT && p.chunk in held && p.chunk in kind && kind[p.chunk] == p.cls
    && a == p.chunk + p.idx * SizeOf(p) && a + SizeOf(p) <= p.chunk + CHUNK_ROOM
  }

  ghost predicate SpotsOk(blocks: map<nat, Spot>, held: seq<nat>, kind: map<nat, nat>) {
    forall a :: a in blocks ==> SpotOk(a, blocks[a], held, kind)
  }

  ghost predicate GroundOk(pool: SizeClass, g: Ground, c: nat, blocks: map<nat, Spot>, held: seq<nat>,
                           kind: map<nat, nat>)
    requires c < CLASS_COUNT
  {
    pool.carve != 0 ==>
      && g.chunk in held && g.chunk in kind && kind[g.chunk] == c
      && pool.carve == g.chunk + g.used * CLASS_SIZES[c] <= pool.carveEnd == g.chunk + CHUNK_ROOM
      && forall a :: a in blocks && blocks[a].chunk == g.chunk ==> blocks[a].idx < g.used
  }

  ghost predicate GroundsOk(pools: seq<SizeClass>, ground: seq<Ground>, blocks: map<nat, Spot>, held: seq<nat>,
                            kind: map<nat, nat>)
    requires |pools| == |ground| == CLASS_COUNT
  {
    forall c :: 0 <= c < CLASS_COUNT ==> GroundOk(pools[c], ground[c], c, blocks, held, kind)
  }

  /** A free list: blocks of its class, each once. */
  ghost predicate ListOk(list: seq<nat>, c: nat, blocks: map<nat, Spot>) {
    Distinct(list) && forall a :: a in list ==> a in blocks && blocks[a].cls == c
  }

  predicate OutOrFree(a: nat, p: Spot, live: map<nat, Layout>, free: seq<seq<nat>>)
    requires |free| == CLASS_COUNT
  {
    p.cls < CLASS_COUNT && (a in live) != (a in free[p.cls])
  }

  /** Every block carved is out or on the free list of the class it was carved for, never both. */
  ghost predicate Accounted(blocks: map<nat, Spot>, live: map<nat, Layout>, free: seq<seq<nat>>)
    requires |free| == CLASS_COUNT
  {
    && (forall a :: a in blocks ==> OutOrFree(a, blocks[a], live, free))
    && (forall a :: a in live ==> a in blocks && Tagged(live[a], blocks[a].cls))
    && (forall c :: 0 <= c < CLASS_COUNT ==> ListOk(free[c], c, blocks))
  }

  ghost predicate FreeChains(word: Words, pools: seq<SizeClass>, free: seq<seq<nat>>)
    requires |pools| == |free| == CLASS_COUNT
  {
    forall c :: 0 <= c < CLASS_COUNT ==> Chain(word, pools[c].freeHead, free[c], 0)
  }

  ghost predicate Inv(s: State) {
    && |s.pools| == |s.ground| == |s.free| == CLASS_COUNT
    && HeldOk(s.held, s.kind) && BigOk(s.held, s.big) && SpotsOk(s.blocks, s.held, s.kind)
    && GroundsOk(s.pools, s.ground, s.blocks, s.held, s.kind)
    && Accounted(s.blocks, s.live, s.free)
    && FreeChains(s.word, s.pools, s.free) && Chain(s.word, s.chunks, s.held, CHUNK_ROOM)
  }

  function NoPools(): seq<SizeClass> {
    seq(CLASS_COUNT, _ => SizeClass(0, 0, 0))
  }

  /** A slab that holds nothing. */
  function Nothing(word: Words): State {
    State(NoPools(), 0, word, [], map[], seq(CLASS_COUNT, _ => Ground(0, 0)), map[], map[],
          seq(CLASS_COUNT, _ => []), map[])
  }

  lemma NothingKeeps(word: Words)
    ensures Inv(Nothing(word)) && Nothing(word).held == [] && Nothing(word).live == map[] && Nothing(word).big == map[]
  {
  }

  // ----- what every reachable state promises

  /** Multiples of a size lie that size apart. */
  lemma CellsApart(chunk: nat, i: nat, j: nat, size: nat)
    requires i != j
    ensures Apart(chunk + i * size, size, chunk + j * size, size)
  {
    MulMonotone(i + 1, j, size);
    MulMonotone(j + 1, i, size);
    assert (i + 1) * size == i * size + size && (j + 1) * size == j * size + size;
  }

  lemma ChunksApart(held: seq<nat>, kind: map<nat, nat>, h: nat, g: nat)
    requires HeldOk(held, kind) && h in held && g in held && h != g
    ensures Apart(h, CHUNK_BYTES, g, CHUNK_BYTES)
  {
    var i :| 0 <= i < |held| && held[i] == h;
    var j :| 0 <= j < |held| && held[j] == g;
    assert if i < j then Apart(held[i], CHUNK_BYTES, held[j], CHUNK_BYTES)
           else Apart(held[j], CHUNK_BYTES, held[i], CHUNK_BYTES);
  }

  /** Any two small blocks, out or free, are disjoint, whatever their classes. */
  lemma BlocksApart(s: State, a: nat, b: nat)
    requires Inv(s) && a in s.blocks && b in s.blocks && a != b
    ensures s.blocks[a].cls < CLASS_COUNT && s.blocks[b].cls < CLASS_COUNT
    ensures Apart(a, SizeOf(s.blocks[a]), b, SizeOf(s.blocks[b]))
  {
    hide HeldOk, BigOk, GroundsOk, Accounted, FreeChains, Chain;
    var p, q := s.blocks[a], s.blocks[b];
    assert SpotOk(a, p, s.held, s.kind) && SpotOk(b, q, s.held, s.kind);
    if p.chunk == q.chunk {
      CellsApart(p.chunk, p.idx, q.idx, SizeOf(p));
    } else {
      ChunksApart(s.held, s.kind, p.chunk, q.chunk);
    }
  }

  /** A small block meets no chunk's link and no large block. */
  lemma BlocksClear(s: State, a: nat)
    requires Inv(s) && a in s.blocks
    ensures a > 0 && s.blocks[a].cls < CLASS_COUNT
    ensures forall i :: 0 <= i < |s.held| ==>
              Apart(a, SizeOf(s.blocks[a]), s.held[i] + CHUNK_ROOM, CHUNK_BYTES - CHUNK_ROOM)
    ensures forall b :: b in s.big ==> Apart(a, SizeOf(s.blocks[a]), b, s.big[b].size)
  {
    hide HeldOk, BigOk, SpotOk, GroundsOk, Accounted, FreeChains, Chain;
    var p := s.blocks[a];
    assert SpotOk(a, p, s.held, s.kind);
    SpotPositive(a, p, s.held, s.kind);
    forall i | 0 <= i < |s.held|
      ensures p.cls < CLASS_COUNT && Apart(a, SizeOf(p), s.held[i] + CHUNK_ROOM, CHUNK_BYTES - CHUNK_ROOM)
    {
      ClearOfLink(a, p, s.held, s.kind, i);
    }
    forall b | b in s.big ensures p.cls < CLASS_COUNT && Apart(a, SizeOf(p), b, s.big[b].size) {
      ClearOfBig(a, p, s.held, s.kind, s.big, b);
    }
  }

  lemma SpotPositive(a: nat, p: Spot, held: seq<nat>, kind: map<nat, nat>)
    requires HeldOk(held, kind) && SpotOk(a, p, held, kind)
    ensures a > 0 && p.cls < CLASS_COUNT
  {
    var h :| 0 <= h < |held| && held[h] == p.chunk;
  }

  lemma ClearOfLink(a: nat, p: Spot, held: seq<nat>, kind: map<nat, nat>, i: nat)
    requires HeldOk(held, kind) && SpotOk(a, p, held, kind) && i < |held|
    ensures Apart(a, SizeOf(p), held[i] + CHUNK_ROOM, CHUNK_BYTES - CHUNK_ROOM)
  {
    if held[i] != p.chunk {
      ChunksApart(held, kind, held[i], p.chunk);
    }
  }

  lemma ClearOfBig(a: nat, p: Spot, held: seq<nat>, kind: map<nat, nat>, big: map<nat, Layout>, b: nat)
    requires SpotOk(a, p, held, kind) && BigOk(held, big) && b in big
    ensures Apart(a, SizeOf(p), b, big[b].size)
  {
    hide ClassOf;
    var h :| 0 <= h < |held| && held[h] == p.chunk;
    assert Apart(b, big[b].size, held[h], CHUNK_BYTES);
  }

  lemma CellAligned(chunk: nat, c: nat, idx: nat)
    requires c < CLASS_COUNT && chunk % CHUNK_ALIGN == 0
    ensures (chunk + idx * CLASS_SIZES[c]) % LowestOf(c) == 0
  {
    var q := chunk / CHUNK_ALIGN;
    var n := q * (CHUNK_ALIGN / LowestOf(c)) + idx * (CLASS_SIZES[c] / LowestOf(c));
    assert chunk + idx * CLASS_SIZES[c] == n * LowestOf(c);
    Multiple(n, LowestOf(c));
  }

  lemma {:induction false} PowersOrdered(j: nat, k: nat)
    ensures Pow2(j) <= Pow2(k) ==> j <= k
    decreases j + k
  {
    if j > 0 && k > 0 {
      PowersOrdered(j - 1, k - 1);
    }
  }

  /** A multiple of a power of two is a multiple of every alignment up to it. */
  lemma AlignedDown(a: nat, align: nat, k: nat)
    requires IsAlign(align) && align <= Pow2(k) && a % Pow2(k) == 0
    ensures a % align == 0
  {
    hide Pow2;
    var j: nat :| j < 64 && align == Pow2(j);
    PowersOrdered(j, k);
    Pow2Divides(j, k);
    var q, p := a / Pow2(k), Pow2(k - j);
    assert a == q * Pow2(k);
    assert q * (p * align) == (q * p) * align;
    Multiple(q * p, align);
  }

  /** A small block out has the size and the alignment it was asked for. */
  lemma LiveServes(s: State, a: nat)
    requires Inv(s) && a in s.live
    ensures a in s.blocks && s.blocks[a].cls < CLASS_COUNT
    ensures s.live[a].size <= SizeOf(s.blocks[a]) && Aligned(a, s.live[a].align)
  {
    hide BigOk, GroundsOk, FreeChains, Chain, IsAlign, LowestOf;
    var p := s.blocks[a];
    assert SpotOk(a, p, s.held, s.kind) && Tagged(s.live[a], p.cls);
    var i :| 0 <= i < |s.held| && s.held[i] == p.chunk;
    CellServes(p.chunk, p.cls, p.idx, s.live[a].align);
  }

  lemma CellServes(chunk: nat, c: nat, idx: nat, align: nat)
    requires c < CLASS_COUNT && chunk % CHUNK_ALIGN == 0 && IsAlign(align) && align <= LowestOf(c)
    ensures (chunk + idx * CLASS_SIZES[c]) % align == 0
  {
    hide Pow2, IsAlign;
    CellAligned(chunk, c, idx);
    SmallPowers();
    var k := [4, 5, 4, 6, 5, 7, 6, 8, 7, 9][c];
    assert LowestOf(c) == Pow2(k);
    AlignedDown(chunk + idx * CLASS_SIZES[c], align, k);
  }

  // ----- linked lists in memory

  /** A list is still there while the words that link it are what they were. */
  lemma ChainKept(word: Words, word': Words, head: nat, list: seq<nat>, off: nat)
    requires Chain(word, head, list, off) && forall k :: 0 <= k < |list| ==> word'(list[k] + off) == word(list[k] + off)
    ensures Chain(word', head, list, off)
  {
  }

  lemma ChainPush(word: Words, head: nat, list: seq<nat>, off: nat, x: nat)
    requires Chain(word, head, list, off) && x !in list
    ensures Chain(Put(word, x + off, head), x + off, [x] + list, off)
  {
    var longer := [x] + list;
    forall k | 0 <= k < |longer| ensures Put(word, x + off, head)(longer[k] + off) == After(longer, k, off) {
      if k > 0 {
        assert word(list[k - 1] + off) == After(list, k - 1, off);
      }
    }
  }

  lemma ChainPop(word: Words, head: nat, list: seq<nat>, off: nat)
    requires Chain(word, head, list, off) && list != []
    ensures Chain(word, word(head), list[1..], off) && head == list[0] + off
  {
    assert word(list[0] + off) == After(list, 0, off);
    forall k | 0 <= k < |list[1..]| ensures word(list[1..][k] + off) == After(list[1..], k, off) {
      assert word(list[k + 1] + off) == After(list, k + 1, off);
    }
  }

  // ----- the steps

  /** The parent's answer to a request for `size` bytes: an address clear of everything the slab has from it. */
  ghost predicate Offered(s: State, at: nat, size: nat) {
    && at > 0
    && (forall i :: 0 <= i < |s.held| ==> Apart(at, size, s.held[i], CHUNK_BYTES))
    && (forall b :: b in s.big ==> Apart(at, size, b, s.big[b].size))
  }

  function AddedChunk(s: State, c: nat, h: nat): State
    requires |s.pools| == |s.ground| == CLASS_COUNT && c < CLASS_COUNT
  {
    s.(held := [h] + s.held, kind := s.kind[h := c], ground := s.ground[c := Ground(h, 0)],
       pools := s.pools[c := s.pools[c].(carve := h, carveEnd := h + CHUNK_ROOM)],
       chunks := h + CHUNK_ROOM, word := Put(s.word, h + CHUNK_ROOM, s.chunks))
  }

  lemma NotHeld(s: State, h: nat)
    requires Offered(s, h, CHUNK_BYTES)
    ensures h !in s.held
  {
  }

  lemma AddedChunkKeeps(s: State, c: nat, h: nat)
    requires Inv(s) && c < CLASS_COUNT && Offered(s, h, CHUNK_BYTES) && h % CHUNK_ALIGN == 0
    ensures Inv(AddedChunk(s, c, h))
  {
    hide SpotOk, GroundOk, Accounted, FreeChains, Chain, ClassOf;
    var t := AddedChunk(s, c, h);
    NotHeld(s, h);
    assert HeldOk(t.held, t.kind) && BigOk(t.held, t.big);
    forall a | a in s.blocks ensures SpotOk(a, s.blocks[a], t.held, t.kind) {
      SpotStays(a, s.blocks[a], s.held, s.kind, h, c);
    }
    forall d | 0 <= d < CLASS_COUNT ensures GroundOk(t.pools[d], t.ground[d], d, t.blocks, t.held, t.kind) {
      if d == c {
        NewGround(s, c, h, s.pools[c].freeHead);
      } else {
        GroundStays(s.pools[d], s.ground[d], d, s.blocks, s.held, s.kind, h, c);
      }
    }
    forall a | a in s.blocks ensures a != h + CHUNK_ROOM {
      BlockElsewhere(a, s.blocks[a], s, h);
    }
    LinksKept(s, t.word);
    ChainPush(s.word, s.chunks, s.held, CHUNK_ROOM, h);
    FreeHeads(t.word, s.pools, t.pools, s.free);
  }

  lemma BlockElsewhere(a: nat, p: Spot, s: State, h: nat)
    requires SpotOk(a, p, s.held, s.kind) && Offered(s, h, CHUNK_BYTES)
    ensures a != h + CHUNK_ROOM
  {
    var i :| 0 <= i < |s.held| && s.held[i] == p.chunk;
    assert Apart(h, CHUNK_BYTES, s.held[i], CHUNK_BYTES);
  }

  lemma SpotStays(a: nat, p: Spot, held: seq<nat>, kind: map<nat, nat>, h: nat, c: nat)
    requires SpotOk(a, p, held, kind) && h !in held
    ensures SpotOk(a, p, [h] + held, kind[h := c])
  {
  }

  lemma GroundStays(pool: SizeClass, g: Ground, d: nat, blocks: map<nat, Spot>, held: seq<nat>, kind: map<nat, nat>,
                    h: nat, c: nat)
    requires d < CLASS_COUNT && GroundOk(pool, g, d, blocks, held, kind) && h !in held
    ensures GroundOk(pool, g, d, blocks, [h] + held, kind[h := c])
  {
  }

  lemma NewGround(s: State, c: nat, h: nat, f: nat)
    requires c < CLASS_COUNT && SpotsOk(s.blocks, s.held, s.kind) && h !in s.held
    ensures GroundOk(SizeClass(f, h, h + CHUNK_ROOM), Ground(h, 0), c, s.blocks, [h] + s.held, s.kind[h := c])
  {
    forall a | a in s.blocks ensures s.blocks[a].chunk != h {
      assert SpotOk(a, s.blocks[a], s.held, s.kind);
    }
  }

  /** The free lists are still there while the first words of the free blocks are what they were. */
  lemma LinksKept(s: State, words: Words)
    requires Inv(s) && forall a :: a in s.blocks && a !in s.live ==> words(a) == s.word(a)
    ensures FreeChains(words, s.pools, s.free)
  {
    hide HeldOk, BigOk, SpotsOk, GroundsOk, Chain, Tagged;
    forall c | 0 <= c < CLASS_COUNT ensures Chain(words, s.pools[c].freeHead, s.free[c], 0) {
      forall k | 0 <= k < |s.free[c]| ensures words(s.free[c][k] + 0) == s.word(s.free[c][k] + 0) {
        var a := s.free[c][k];
        assert a in s.free[c] && ListOk(s.free[c], c, s.blocks);
        assert OutOrFree(a, s.blocks[a], s.live, s.free);
      }
      ChainKept(s.word, words, s.pools[c].freeHead, s.free[c], 0);
    }
  }

  lemma FreeHeads(word: Words, pools: seq<SizeClass>, pools': seq<SizeClass>, free: seq<seq<nat>>)
    requires |pools| == |pools'| == |free| == CLASS_COUNT && FreeChains(word, pools, free)
    requires forall c :: 0 <= c < CLASS_COUNT ==> pools'[c].freeHead == pools[c].freeHead
    ensures FreeChains(word, pools', free)
  {
    forall c | 0 <= c < CLASS_COUNT ensures Chain(word, pools'[c].freeHead, free[c], 0) {
      assert Chain(word, pools[c].freeHead, free[c], 0);
    }
  }

  predicate CanCarve(pool: SizeClass, size: nat) {
    pool.carve != 0 && pool.carveEnd - pool.carve >= size
  }

  function Carved(s: State, c: nat, layout: Layout): State
    requires |s.pools| == |s.ground| == CLASS_COUNT && c < CLASS_COUNT
  {
    var a, g := s.pools[c].carve, s.ground[c];
    s.(pools := s.pools[c := s.pools[c].(carve := a + CLASS_SIZES[c])],
       ground := s.ground[c := Ground(g.chunk, g.used + 1)],
       blocks := s.blocks[a := Spot(g.chunk, c, g.used)], live := s.live[a := layout])
  }

  /** What is carved next lies beyond every block carved before. */
  lemma CarveIsNew(s: State, c: nat)
    requires Inv(s) && c < CLASS_COUNT && CanCarve(s.pools[c], CLASS_SIZES[c])
    ensures s.pools[c].carve !in s.blocks
    ensures SpotOk(s.pools[c].carve, Spot(s.ground[c].chunk, c, s.ground[c].used), s.held, s.kind)
  {
    hide BigOk, Accounted, FreeChains, Chain, HeldOk;
    var a, g := s.pools[c].carve, s.ground[c];
    assert GroundOk(s.pools[c], g, c, s.blocks, s.held, s.kind);
    if a in s.blocks {
      var p := s.blocks[a];
      assert SpotOk(a, p, s.held, s.kind);
      if p.chunk == g.chunk {
        CellsApart(g.chunk, g.used, p.idx, CLASS_SIZES[c]);
      } else {
        ChunksApart(s.held, s.kind, p.chunk, g.chunk);
      }
    }
  }

  lemma CarvedKeeps(s: State, c: nat, layout: Layout)
    requires Inv(s) && c < CLASS_COUNT && CanCarve(s.pools[c], CLASS_SIZES[c]) && Tagged(layout, c)
    ensures Inv(Carved(s, c, layout)) && s.pools[c].carve !in s.live
  {
    hide HeldOk, BigOk, SpotOk, GroundOk, Accounted, FreeChains, Chain, ClassOf;
    var t, a := Carved(s, c, layout), s.pools[c].carve;
    CarveIsNew(s, c);
    forall d | 0 <= d < CLASS_COUNT ensures GroundOk(t.pools[d], t.ground[d], d, t.blocks, t.held, t.kind) {
      GroundCarved(s, c, d);
    }
    FreeHeads(s.word, s.pools, t.pools, s.free);
    CarvedAccounted(s.blocks, s.live, s.free, a, t.blocks[a], layout);
  }

  lemma CarvedAccounted(blocks: map<nat, Spot>, live: map<nat, Layout>, free: seq<seq<nat>>, a: nat, p: Spot,
                        layout: Layout)
    requires |free| == CLASS_COUNT && Accounted(blocks, live, free)
    requires a !in blocks && p.cls < CLASS_COUNT && Tagged(layout, p.cls)
    ensures Accounted(blocks[a := p], live[a := layout], free) && a !in live
  {
    hide ClassOf, Distinct;
    forall b | b in blocks ensures OutOrFree(b, blocks[b], live[a := layout], free) {
      assert OutOrFree(b, blocks[b], live, free);
    }
    assert a !in free[p.cls] by {
      assert ListOk(free[p.cls], p.cls, blocks);
    }
    forall d | 0 <= d < CLASS_COUNT ensures ListOk(free[d], d, blocks[a := p]) {
      assert ListOk(free[d], d, blocks);
    }
  }

  lemma GroundCarved(s: State, c: nat, d: nat)
    requires Inv(s) && c < CLASS_COUNT && CanCarve(s.pools[c], CLASS_SIZES[c]) && d < CLASS_COUNT
    ensures var a, g := s.pools[c].carve, s.ground[c];
            var blocks := s.blocks[a := Spot(g.chunk, c, g.used)];
            if d != c then GroundOk(s.pools[d], s.ground[d], d, blocks, s.held, s.kind)
            else GroundOk(s.pools[c].(carve := a + CLASS_SIZES[c]), Ground(g.chunk, g.used + 1), c, blocks, s.held,
                          s.kind)
  {
    hide HeldOk, BigOk, SpotsOk, Accounted, FreeChains, Chain;
    assert GroundOk(s.pools[d], s.ground[d], d, s.blocks, s.held, s.kind);
    assert GroundOk(s.pools[c], s.ground[c], c, s.blocks, s.held, s.kind);
    assert (s.ground[c].used + 1) * CLASS_SIZES[c] == s.ground[c].used * CLASS_SIZES[c] + CLASS_SIZES[c];
  }

  function Reused(s: State, c: nat, layout: Layout): State
    requires |s.pools| == |s.free| == CLASS_COUNT && c < CLASS_COUNT && s.free[c] != []
  {
    s.(pools := s.pools[c := s.pools[c].(freeHead := s.word(s.pools[c].freeHead))],
       free := s.free[c := s.free[c][1..]], live := s.live[s.free[c][0] := layout])
  }

  lemma ReusedKeeps(s: State, c: nat, layout: Layout)
    requires Inv(s) && c < CLASS_COUNT && s.free[c] != [] && Tagged(layout, c)
    ensures Inv(Reused(s, c, layout)) && s.free[c][0] == s.pools[c].freeHead && s.free[c][0] !in s.live
  {
    hide HeldOk, BigOk, SpotsOk, GroundOk, Accounted, Chain, ClassOf;
    var t := Reused(s, c, layout);
    assert Chain(s.word, s.pools[c].freeHead, s.free[c], 0);
    ChainPop(s.word, s.pools[c].freeHead, s.free[c], 0);
    forall d | 0 <= d < CLASS_COUNT ensures Chain(t.word, t.pools[d].freeHead, t.free[d], 0) {
      assert Chain(s.word, s.pools[d].freeHead, s.free[d], 0);
    }
    ReusedAccounted(s.blocks, s.live, s.free, c, layout);
    SameGrounds(s.pools, t.pools, s.ground, s.blocks, s.held, s.kind);
  }

  lemma SameGrounds(pools: seq<SizeClass>, pools': seq<SizeClass>, ground: seq<Ground>, blocks: map<nat, Spot>,
                    held: seq<nat>, kind: map<nat, nat>)
    requires |pools| == |pools'| == |ground| == CLASS_COUNT && GroundsOk(pools, ground, blocks, held, kind)
    requires forall c :: 0 <= c < CLASS_COUNT ==>
               pools'[c].carve == pools[c].carve && pools'[c].carveEnd == pools[c].carveEnd
    ensures GroundsOk(pools', ground, blocks, held, kind)
  {
    forall c | 0 <= c < CLASS_COUNT ensures GroundOk(pools'[c], ground[c], c, blocks, held, kind) {
      assert GroundOk(pools[c], ground[c], c, blocks, held, kind);
    }
  }

  lemma ReusedAccounted(blocks: map<nat, Spot>, live: map<nat, Layout>, free: seq<seq<nat>>, c: nat, layout: Layout)
    requires |free| == CLASS_COUNT && c < CLASS_COUNT && free[c] != [] && Tagged(layout, c)
    requires Accounted(blocks, live, free)
    ensures Accounted(blocks, live[free[c][0] := layout], free[c := free[c][1..]]) && free[c][0] !in live
  {
    hide ClassOf, Distinct;
    var list, a := free[c], free[c][0];
    var live', free' := live[a := layout], free[c := list[1..]];
    assert a in list && ListOk(list, c, blocks) && OutOrFree(a, blocks[a], live, free);
    TailWithout(list);
    forall b | b in blocks ensures OutOrFree(b, blocks[b], live', free') {
      assert OutOrFree(b, blocks[b], live, free);
    }
    forall d | 0 <= d < CLASS_COUNT ensures ListOk(free'[d], d, blocks) {
      assert ListOk(free[d], d, blocks);
    }
  }

  lemma TailWithout(list: seq<nat>)
    requires list != [] && Distinct(list)
    ensures Distinct(list[1..]) && forall b :: b in list[1..] <==> b in list && b != list[0]
  {
    assert list == [list[0]] + list[1..];
    forall b | b in list[1..] ensures b in list && b != list[0] {
      var i :| 0 <= i < |list| - 1 && list[1..][i] == b;
      assert list[0] != list[i + 1];
    }
  }

  function Returned(s: State, a: nat): State
    requires |s.pools| == |s.free| == CLASS_COUNT && a in s.blocks && s.blocks[a].cls < CLASS_COUNT
  {
    var c := s.blocks[a].cls;
    s.(word := Put(s.word, a, s.pools[c].freeHead), pools := s.pools[c := s.pools[c].(freeHead := a)],
       free := s.free[c := [a] + s.free[c]], live := s.live - {a})
  }

  lemma ReturnedKeeps(s: State, a: nat)
    requires Inv(s) && a in s.live && a in s.blocks && s.blocks[a].cls < CLASS_COUNT
    ensures Inv(Returned(s, a))
  {
    hide HeldOk, BigOk, SpotsOk, SpotOk, GroundOk, Accounted, Chain, ClassOf;
    var t, c := Returned(s, a), s.blocks[a].cls;
    var word := Put(s.word, a, s.pools[c].freeHead);
    assert FreeChains(word, s.pools, s.free) by {
      LinksKept(s, word);
    }
    assert a !in s.free[c] by {
      LiveNotFree(s, a);
    }
    assert Chain(word, a, [a] + s.free[c], 0) by {
      assert Chain(s.word, s.pools[c].freeHead, s.free[c], 0);
      ChainPush(s.word, s.pools[c].freeHead, s.free[c], 0, a);
    }
    forall d | 0 <= d < CLASS_COUNT ensures Chain(t.word, t.pools[d].freeHead, t.free[d], 0) {
      assert Chain(word, s.pools[d].freeHead, s.free[d], 0);
    }
    ChunkLinksStay(s, a, word);
    ReturnedAccounted(s.blocks, s.live, s.free, a);
    SameGrounds(s.pools, t.pools, s.ground, s.blocks, s.held, s.kind);
  }

  lemma LiveNotFree(s: State, a: nat)
    requires Inv(s) && a in s.live
    ensures a in s.blocks && s.blocks[a].cls < CLASS_COUNT && a !in s.free[s.blocks[a].cls]
  {
    hide HeldOk, BigOk, SpotsOk, GroundsOk, FreeChains, Chain, ClassOf;
    assert OutOrFree(a, s.blocks[a], s.live, s.free);
  }

  /** A write inside a block leaves the chunks linked. */
  lemma ChunkLinksStay(s: State, a: nat, words: Words)
    requires Inv(s) && a in s.blocks && s.blocks[a].cls < CLASS_COUNT
    requires Overwritten(s.word, words, a, SizeOf(s.blocks[a]))
    ensures Chain(words, s.chunks, s.held, CHUNK_ROOM)
  {
    hide HeldOk, BigOk, SpotsOk, GroundsOk, Accounted, FreeChains, Chain;
    BlocksClear(s, a);
    forall k | 0 <= k < |s.held| ensures words(s.held[k] + CHUNK_ROOM) == s.word(s.held[k] + CHUNK_ROOM) {
      assert Apart(a, SizeOf(s.blocks[a]), s.held[k] + CHUNK_ROOM, CHUNK_BYTES - CHUNK_ROOM);
    }
    ChainKept(s.word, words, s.chunks, s.held, CHUNK_ROOM);
  }

  lemma ReturnedAccounted(blocks: map<nat, Spot>, live: map<nat, Layout>, free: seq<seq<nat>>, a: nat)
    requires |free| == CLASS_COUNT && Accounted(blocks, live, free) && a in live
    ensures a in blocks && blocks[a].cls < CLASS_COUNT
    ensures var c := blocks[a].cls; Accounted(blocks, live - {a}, free[c := [a] + free[c]])
  {
    hide ClassOf;
    var c := blocks[a].cls;
    assert OutOrFree(a, blocks[a], live, free);
    var live', free' := live - {a}, free[c := [a] + free[c]];
    forall b | b in blocks ensures OutOrFree(b, blocks[b], live', free') {
      assert OutOrFree(b, blocks[b], live, free);
    }
    forall d | 0 <= d < CLASS_COUNT ensures ListOk(free'[d], d, blocks) {
      assert ListOk(free[d], d, blocks);
    }
  }

  /** A resize that stays in the class only changes what the block counts as. */
  lemma RetaggedKeeps(s: State, a: nat, layout: Layout)
    requires Inv(s) && a in s.live && Tagged(layout, ClassOf(s.live[a]))
    ensures Inv(s.(live := s.live[a := layout]))
  {
    hide HeldOk, BigOk, SpotsOk, GroundsOk, Accounted, FreeChains, Chain, ClassOf;
    RetaggedAccounted(s.blocks, s.live, s.free, a, layout);
  }

  lemma RetaggedAccounted(blocks: map<nat, Spot>, live: map<nat, Layout>, free: seq<seq<nat>>, a: nat, layout: Layout)
    requires |free| == CLASS_COUNT && Accounted(blocks, live, free) && a in live && Tagged(layout, ClassOf(live[a]))
    ensures Accounted(blocks, live[a := layout], free)
  {
    hide ClassOf, ListOk;
    forall b | b in blocks ensures OutOrFree(b, blocks[b], live[a := layout], free) {
      assert OutOrFree(b, blocks[b], live, free);
    }
  }

  /** The client may write what it likes, wherever it likes, inside a small block it has. */
  lemma ScribbledKeeps(s: State, a: nat, words: Words)
    requires Inv(s) && a in s.live && a in s.blocks && s.blocks[a].cls < CLASS_COUNT
    requires Overwritten(s.word, words, a, SizeOf(s.blocks[a]))
    ensures Inv(s.(word := words))
  {
    hide HeldOk, BigOk, SpotsOk, GroundsOk, Accounted, FreeChains, Chain;
    forall b | b in s.blocks && b !in s.live ensures words(b) == s.word(b) {
      BlocksApart(s, a, b);
    }
    LinksKept(s, words);
    ChunkLinksStay(s, a, words);
  }

  /** And inside a large one. */
  lemma ScribbledLargeKeeps(s: State, b: nat, words: Words)
    requires Inv(s) && b in s.big && Overwritten(s.word, words, b, s.big[b].size)
    ensures Inv(s.(word := words))
  {
    hide HeldOk, SpotsOk, GroundsOk, Accounted, FreeChains, Chain, Tagged;
    forall a | a in s.blocks ensures words(a) == s.word(a) {
      BlocksClear(s, a);
    }
    LinksKept(s, words);
    forall k | 0 <= k < |s.held| ensures words(s.held[k] + CHUNK_ROOM) == s.word(s.held[k] + CHUNK_ROOM) {
      assert Apart(b, s.big[b].size, s.held[k], CHUNK_BYTES);
    }
    ChainKept(s.word, words, s.chunks, s.held, CHUNK_ROOM);
  }

  lemma BigMadeKeeps(s: State, at: nat, layout: Layout)
    requires Inv(s) && Offered(s, at, layout.size)
    requires Tagged(layout, CLASS_COUNT) && layout.size > 0 && Aligned(at, layout.align)
    ensures Inv(s.(big := s.big[at := layout])) && at !in s.big
  {
    hide HeldOk, SpotsOk, GroundsOk, Accounted, FreeChains, Chain, ClassOf;
    assert at in s.big ==> Apart(at, layout.size, at, s.big[at].size);
  }

  lemma BigGoneKeeps(s: State, b: nat)
    requires Inv(s)
    ensures Inv(s.(big := s.big - {b}))
  {
    hide HeldOk, SpotsOk, GroundsOk, Accounted, FreeChains, Chain, ClassOf;
  }

  // ----- runs

  /** What the client does, with the parent's answer: an address, 0 for a refusal, or whether it grew in place. */
  datatype Op = OpAlloc(layout: Layout, offered: nat) | OpResize(addr: nat, size: nat, grows: bool)
              | OpRemap(addr: nat, size: nat, offered: nat) | OpFree(addr: nat) | OpWrite(addr: nat, words: Words)

  /** What is asked of the parent, if it is asked. */
  function Wanted(layout: Layout): Layout {
    if ClassOf(layout) == CLASS_COUNT then layout else Layout(CHUNK_BYTES, CHUNK_ALIGN)
  }

  function LayoutOf(s: State, a: nat): Layout
    requires a in s.live || a in s.big
  {
    if a in s.live then s.live[a] else s.big[a]
  }

  function StaysLarge(was: Layout, size: nat): bool {
    ClassOf(was) == CLASS_COUNT && ClassOf(Layout(size, was.align)) == CLASS_COUNT
  }

  /** The client keeps to its blocks, and the parent answers with what is free. */
  ghost predicate Legal(s: State, op: Op) {
    match op
    case OpAlloc(layout, offered) =>
      && layout.size > 0 && IsAlign(layout.align)
      && (offered != 0 ==> Offered(s, offered, Wanted(layout).size) && offered % Wanted(layout).align == 0)
    case OpResize(a, size, grows) =>
      && (a in s.live || a in s.big) && size > 0
      && (grows && a in s.big ==> Offered(s.(big := s.big - {a}), a, size))
    case OpRemap(a, size, offered) =>
      && (a in s.live || a in s.big) && size > 0
      && (offered != 0 && a in s.big ==>
           Offered(s.(big := s.big - {a}), offered, size) && Aligned(offered, s.big[a].align))
    case OpFree(a) => a in s.live || a in s.big
    case OpWrite(a, words) =>
      && (a in s.live || a in s.big)
      && (a in s.live ==>
           a in s.blocks && s.blocks[a].cls < CLASS_COUNT && Overwritten(s.word, words, a, SizeOf(s.blocks[a])))
      && (a in s.big ==> Overwritten(s.word, words, a, s.big[a].size))
  }

  function AfterAlloc(s: State, layout: Layout, offered: nat): State
    requires |s.pools| == |s.ground| == |s.free| == CLASS_COUNT
  {
    var c := ClassOf(layout);
    if c == CLASS_COUNT then (if offered == 0 then s else s.(big := s.big[offered := layout]))
    else if s.free[c] != [] then Reused(s, c, layout)
    else if CanCarve(s.pools[c], CLASS_SIZES[c]) then Carved(s, c, layout)
    else if offered == 0 then s
    else Carved(AddedChunk(s, c, offered), c, layout)
  }

  /** The address served, or 0. */
  function Served(s: State, layout: Layout, offered: nat): nat
    requires |s.pools| == |s.free| == CLASS_COUNT
  {
    var c := ClassOf(layout);
    if c == CLASS_COUNT then offered
    else if s.free[c] != [] then s.free[c][0]
    else if CanCarve(s.pools[c], CLASS_SIZES[c]) then s.pools[c].carve
    else offered
  }

  function AfterResize(s: State, a: nat, size: nat, grows: bool): State
    requires a in s.live || a in s.big
  {
    var was := LayoutOf(s, a);
    var now := Layout(size, was.align);
    if StaysLarge(was, size) then (if grows then s.(big := s.big[a := now]) else s)
    else if ClassOf(was) == ClassOf(now) then s.(live := s.live[a := now])
    else s
  }

  function AfterRemap(s: State, a: nat, size: nat, offered: nat): State
    requires a in s.live || a in s.big
  {
    var was := LayoutOf(s, a);
    if StaysLarge(was, size) && offered != 0 then s.(big := (s.big - {a})[offered := Layout(size, was.align)]) else s
  }

  function AfterFree(s: State, a: nat): State
    requires |s.pools| == |s.free| == CLASS_COUNT
  {
    if a in s.live && a in s.blocks && s.blocks[a].cls < CLASS_COUNT then Returned(s, a) else s.(big := s.big - {a})
  }

  /** A small block is first on the list of its class, and a large one gone; nothing else changes hands. */
  ghost predicate Back(s: State, t: State, a: nat) {
    if a in s.live then
      && a in s.blocks && s.blocks[a].cls < |s.free| && t.live == s.live - {a} && t.big == s.big && t.held == s.held
      && t.free == s.free[s.blocks[a].cls := [a] + s.free[s.blocks[a].cls]]
      && forall x: nat :: x != a ==> t.word(x) == s.word(x)
    else t == s.(big := s.big - {a})
  }

  lemma FreeIsBack(s: State, a: nat)
    requires Inv(s) && (a in s.live || a in s.big)
    ensures Back(s, AfterFree(s, a), a)
  {
    hide HeldOk, BigOk, SpotsOk, GroundsOk, Accounted, FreeChains, Chain, ClassOf;
    SmallOrLarge(s, a);
  }

  lemma FreeKeeps(s: State, a: nat)
    requires Inv(s) && (a in s.live || a in s.big)
    ensures Inv(AfterFree(s, a))
  {
    hide Inv, ClassOf, Returned;
    SmallOrLarge(s, a);
    if a in s.live {
      ReturnedKeeps(s, a);
    } else {
      BigGoneKeeps(s, a);
    }
  }

  lemma OneLess(m: map<nat, Layout>, a: nat)
    ensures |m - {a}| == |m| - if a in m then 1 else 0
  {
    assert m.Keys == (m - {a}).Keys + if a in m then {a} else {};
  }

  /** The class of its layout tells whose a block is. */
  lemma SmallOrLarge(s: State, a: nat)
    requires Inv(s)
    ensures a in s.live ==> && a !in s.big && ClassOf(s.live[a]) < CLASS_COUNT
                            && a in s.blocks && s.blocks[a].cls == ClassOf(s.live[a]) && IsAlign(s.live[a].align)
    ensures a in s.big ==> ClassOf(s.big[a]) == CLASS_COUNT && IsAlign(s.big[a].align) && Aligned(a, s.big[a].align)
  {
    hide HeldOk, SpotsOk, GroundsOk, FreeChains, Chain, ClassOf, ListOk, IsAlign, Aligned;
    if a in s.live {
      assert OutOrFree(a, s.blocks[a], s.live, s.free);
      BlocksClear(s, a);
    }
  }

  ghost function Apply(s: State, op: Op): State
    requires Inv(s) && Legal(s, op)
  {
    match op
    case OpAlloc(layout, offered) => AfterAlloc(s, layout, offered)
    case OpResize(a, size, grows) => AfterResize(s, a, size, grows)
    case OpRemap(a, size, offered) => AfterRemap(s, a, size, offered)
    case OpFree(a) => AfterFree(s, a)
    case OpWrite(_, words) => s.(word := words)
  }

  /** An address served is on the books as what was asked for, and on none before; a refusal changes nothing. */
  ghost predicate Recorded(s: State, t: State, layout: Layout, a: nat) {
    if a == 0 then t == s
    else if ClassOf(layout) == CLASS_COUNT then a !in s.big && t.big == s.big[a := layout] && t.live == s.live
    else a !in s.live && t.live == s.live[a := layout] && t.big == s.big
  }

  /** No block of the size is left in the chunk in hand. */
  predicate Spent(pool: SizeClass, size: nat) {
    pool.carve == 0 || pool.carveEnd - pool.carve < size
  }

  /**
   What a request is answered with.  It is refused exactly when the parent has to be asked, for a large
   block or for a chunk, and refuses; a block freed last is handed out first, then the chunk in hand is
   used up, and only then a new chunk is held.
   */
  ghost predicate Answered(s: State, t: State, layout: Layout, offered: nat, a: nat)
    requires |s.pools| == |s.free| == CLASS_COUNT && |t.pools| == |t.free| == CLASS_COUNT
  {
    var c := ClassOf(layout);
    && (a == 0 <==> offered == 0 && (c == CLASS_COUNT || (s.free[c] == [] && Spent(s.pools[c], CLASS_SIZES[c]))))
    && (c == CLASS_COUNT ==> a == offered && t.free == s.free && t.held == s.held)
    && (c < CLASS_COUNT && s.free[c] != [] ==>
          a == s.free[c][0] && t.free == s.free[c := s.free[c][1..]] && t.held == s.held)
    && (c < CLASS_COUNT && s.free[c] == [] ==> t.free == s.free)
    && (c < CLASS_COUNT && s.free[c] == [] && !Spent(s.pools[c], CLASS_SIZES[c]) ==>
          a == s.pools[c].carve && t.pools[c].carve == a + CLASS_SIZES[c] && t.held == s.held)
    && (c < CLASS_COUNT && s.free[c] == [] && Spent(s.pools[c], CLASS_SIZES[c]) && offered != 0 ==>
          a == offered && t.pools[c].carve == a + CLASS_SIZES[c] && t.held == [offered] + s.held)
  }

  lemma AllocAnswers(s: State, layout: Layout, offered: nat)
    requires Inv(s) && Legal(s, OpAlloc(layout, offered))
    ensures var t := AfterAlloc(s, layout, offered);
            |t.pools| == |t.free| == CLASS_COUNT && Answered(s, t, layout, offered, Served(s, layout, offered))
  {
    hide HeldOk, BigOk, SpotsOk, GroundsOk, Accounted, FreeChains, Chain, ClassOf, Offered, IsAlign;
    var c := ClassOf(layout);
    if c < CLASS_COUNT && s.free[c] != [] {
      FreePositive(s, c);
    }
  }

  lemma AllocKeeps(s: State, layout: Layout, offered: nat)
    requires Inv(s) && Legal(s, OpAlloc(layout, offered))
    ensures Inv(AfterAlloc(s, layout, offered))
    ensures Recorded(s, AfterAlloc(s, layout, offered), layout, Served(s, layout, offered))
  {
    hide HeldOk, BigOk, SpotsOk, GroundsOk, Accounted, FreeChains, Chain, ClassOf, Offered, Carved, AddedChunk,
         Reused, IsAlign;
    var c := ClassOf(layout);
    if c == CLASS_COUNT {
      if offered != 0 {
        BigMadeKeeps(s, offered, layout);
      }
    } else if s.free[c] != [] {
      ReusedKeeps(s, c, layout);
      FreePositive(s, c);
      ReusedRecords(s, c, layout);
    } else if CanCarve(s.pools[c], CLASS_SIZES[c]) {
      CarvedKeeps(s, c, layout);
      CarvedRecords(s, c, layout);
    } else if offered != 0 {
      AddedChunkKeeps(s, c, offered);
      AddedChunkServes(s, c, offered);
      CarvedKeeps(AddedChunk(s, c, offered), c, layout);
      CarvedRecords(AddedChunk(s, c, offered), c, layout);
    }
  }

  lemma FreePositive(s: State, c: nat)
    requires Inv(s) && c < CLASS_COUNT && s.free[c] != []
    ensures s.free[c][0] > 0
  {
    hide HeldOk, BigOk, SpotsOk, GroundsOk, FreeChains, Chain, ClassOf, OutOrFree;
    assert s.free[c][0] in s.free[c] && ListOk(s.free[c], c, s.blocks);
    BlocksClear(s, s.free[c][0]);
  }

  lemma ReusedRecords(s: State, c: nat, layout: Layout)
    requires |s.pools| == |s.free| == CLASS_COUNT && c < CLASS_COUNT && s.free[c] != []
    ensures Reused(s, c, layout).live == s.live[s.free[c][0] := layout] && Reused(s, c, layout).big == s.big
  {
  }

  lemma CarvedRecords(s: State, c: nat, layout: Layout)
    requires |s.pools| == |s.ground| == CLASS_COUNT && c < CLASS_COUNT
    ensures Carved(s, c, layout).live == s.live[s.pools[c].carve := layout] && Carved(s, c, layout).big == s.big
  {
  }

  lemma AddedChunkServes(s: State, c: nat, h: nat)
    requires |s.pools| == |s.ground| == CLASS_COUNT && c < CLASS_COUNT && h > 0
    ensures var t := AddedChunk(s, c, h);
            |t.pools| == CLASS_COUNT && t.pools[c].carve == h && CanCarve(t.pools[c], CLASS_SIZES[c])
            && t.live == s.live && t.big == s.big
  {
  }

  lemma ResizeKeeps(s: State, a: nat, size: nat, grows: bool)
    requires Inv(s) && Legal(s, OpResize(a, size, grows))
    ensures Inv(AfterResize(s, a, size, grows))
  {
    hide HeldOk, BigOk, SpotsOk, GroundsOk, Accounted, FreeChains, Chain, ClassOf, Offered;
    SmallOrLarge(s, a);
    var was := LayoutOf(s, a);
    var now := Layout(size, was.align);
    if StaysLarge(was, size) {
      if grows {
        BigGoneKeeps(s, a);
        BigMadeKeeps(s.(big := s.big - {a}), a, now);
        assert (s.big - {a})[a := now] == s.big[a := now];
      }
    } else if ClassOf(was) == ClassOf(now) {
      RetaggedKeeps(s, a, now);
    }
  }

  lemma RemapKeeps(s: State, a: nat, size: nat, offered: nat)
    requires Inv(s) && Legal(s, OpRemap(a, size, offered))
    ensures Inv(AfterRemap(s, a, size, offered))
    ensures StaysLarge(LayoutOf(s, a), size) && offered != 0 ==> a in s.big && offered !in s.big - {a}
  {
    hide HeldOk, BigOk, SpotsOk, GroundsOk, Accounted, FreeChains, Chain, ClassOf, Offered;
    SmallOrLarge(s, a);
    var was := LayoutOf(s, a);
    if StaysLarge(was, size) && offered != 0 {
      BigGoneKeeps(s, a);
      BigMadeKeeps(s.(big := s.big - {a}), offered, Layout(size, was.align));
    }
  }

  lemma WriteKeeps(s: State, a: nat, words: Words)
    requires Inv(s) && Legal(s, OpWrite(a, words))
    ensures Inv(s.(word := words))
  {
    hide Inv, Overwritten;
    if a in s.live {
      ScribbledKeeps(s, a, words);
    } else {
      ScribbledLargeKeeps(s, a, words);
    }
  }

  /** Every step keeps the invariant, so every reachable state has it. */
  lemma ApplyKeeps(s: State, op: Op)
    requires Inv(s) && Legal(s, op)
    ensures Inv(Apply(s, op))
  {
    hide HeldOk, BigOk, SpotsOk, GroundsOk, Accounted, FreeChains, Chain, ClassOf, Offered, Put,
         AfterAlloc, AfterResize, AfterRemap, AfterFree;
    match op
    case OpAlloc(layout, offered) => AllocKeeps(s, layout, offered);
    case OpResize(a, size, grows) => ResizeKeeps(s, a, size, grows);
    case OpRemap(a, size, offered) => RemapKeeps(s, a, size, offered);
    case OpFree(a) => FreeKeeps(s, a);
    case OpWrite(a, words) => WriteKeeps(s, a, words);
  }

  ghost predicate LegalRun(s: State, ops: seq<Op>)
    requires Inv(s)
    decreases |ops|
  {
    ops == [] || (Legal(s, ops[0]) && (ApplyKeeps(s, ops[0]); LegalRun(Apply(s, ops[0]), ops[1..])))
  }

  ghost function Ran(s: State, ops: seq<Op>): (t: State)
    requires Inv(s) && LegalRun(s, ops)
    ensures Inv(t)
    decreases |ops|
  {
    if ops == [] then s else ApplyKeeps(s, ops[0]); Ran(Apply(s, ops[0]), ops[1..])
  }

  /** The bytes of a block: the whole of its place in the chunk, or what the parent gave. */
  function Extent(s: State, a: nat): nat
    requires a in s.big || (a in s.blocks && s.blocks[a].cls < CLASS_COUNT)
  {
    if a in s.big then s.big[a].size else SizeOf(s.blocks[a])
  }

  /**
   After any run, whatever the client wrote into its blocks: any two blocks, small ones out or free
   and large ones, are disjoint.
   */
  lemma RunIsSafe(s: State, ops: seq<Op>, a: nat, b: nat)
    requires Inv(s) && LegalRun(s, ops) && a != b
    requires a in Ran(s, ops).blocks || a in Ran(s, ops).big
    requires b in Ran(s, ops).blocks || b in Ran(s, ops).big
    ensures var t := Ran(s, ops);
            && (a in t.blocks ==> t.blocks[a].cls < CLASS_COUNT) && (b in t.blocks ==> t.blocks[b].cls < CLASS_COUNT)
            && Apart(a, Extent(t, a), b, Extent(t, b))
  {
    hide LegalRun, Ran;
    AllApart(Ran(s, ops), a, b);
  }

  lemma AllApart(s: State, a: nat, b: nat)
    requires Inv(s) && a != b && (a in s.blocks || a in s.big) && (b in s.blocks || b in s.big)
    ensures (a in s.blocks ==> s.blocks[a].cls < CLASS_COUNT) && (b in s.blocks ==> s.blocks[b].cls < CLASS_COUNT)
    ensures Apart(a, Extent(s, a), b, Extent(s, b))
  {
    hide HeldOk, SpotsOk, GroundsOk, Accounted, FreeChains, Chain, Tagged;
    if a in s.blocks {
      BlocksClear(s, a);
    }
    if b in s.blocks {
      BlocksClear(s, b);
    }
    if a in s.blocks && b in s.blocks {
      BlocksApart(s, a, b);
    }
  }

  /**
   After any run: a small block, out or free, lies inside its chunk clear of the chunk's link, and
   a block out has the size and the alignment it was asked for.
   */
  lemma RunServes(s: State, ops: seq<Op>, a: nat)
    requires Inv(s) && LegalRun(s, ops) && (a in Ran(s, ops).blocks || a in Ran(s, ops).big)
    ensures var t := Ran(s, ops);
            && (a in t.blocks ==>
                  && t.blocks[a].cls < CLASS_COUNT && t.blocks[a].chunk in t.held
                  && t.blocks[a].chunk <= a && a + SizeOf(t.blocks[a]) <= t.blocks[a].chunk + CHUNK_ROOM)
            && (a in t.live || a in t.big ==>
                  (a in t.blocks || a in t.big) && LayoutOf(t, a).size <= Extent(t, a)
                  && Aligned(a, LayoutOf(t, a).align))
  {
    hide LegalRun, Ran, HeldOk, GroundsOk, Accounted, FreeChains, Chain, Tagged, Aligned;
    var t := Ran(s, ops);
    assert a in t.blocks ==> SpotOk(a, t.blocks[a], t.held, t.kind);
    SmallOrLarge(t, a);
    if a in t.live {
      LiveServes(t, a);
    }
  }

  /** After any run a request that the parent answers is served: a block comes out that was not. */
  lemma RunServesRequest(s: State, ops: seq<Op>, layout: Layout, offered: nat) returns (a: nat)
    requires Inv(s) && LegalRun(s, ops) && Legal(Ran(s, ops), OpAlloc(layout, offered)) && offered != 0
    ensures var t := Ran(s, ops);
            var u := Apply(t, OpAlloc(layout, offered));
            && a != 0 && a !in t.live && (a in t.big ==> ClassOf(layout) < CLASS_COUNT)
            && if ClassOf(layout) < CLASS_COUNT then u.live == t.live[a := layout] && u.big == t.big
               else u.big == t.big[a := layout] && u.live == t.live
  {
    hide Inv, LegalRun, Ran, ClassOf, IsAlign, Offered, AfterAlloc, Served;
    var t := Ran(s, ops);
    AllocKeeps(t, layout, offered);
    LengthsAre(t);
    AllocAnswers(t, layout, offered);
    a := Served(t, layout, offered);
    if ClassOf(layout) == CLASS_COUNT {
      OfferedIsNew(t, layout, a);
    }
  }

  lemma LengthsAre(s: State)
    requires Inv(s)
    ensures |s.pools| == |s.ground| == |s.free| == CLASS_COUNT
  {
    hide HeldOk, BigOk, SpotsOk, GroundsOk, Accounted, FreeChains, Chain;
  }

  lemma OfferedIsNew(s: State, layout: Layout, at: nat)
    requires Inv(s) && Offered(s, at, layout.size) && ClassOf(layout) == CLASS_COUNT && layout.size > 0
    ensures at !in s.live
  {
    hide HeldOk, BigOk, SpotOk, GroundsOk, FreeChains, Chain, ClassOf, ListOk, Offered, Tagged;
    forall b | b in s.live ensures b != at {
      assert SpotOk(b, s.blocks[b], s.held, s.kind);
      SpotElsewhere(b, s.blocks[b], s, at, layout.size);
    }
  }

  lemma SpotElsewhere(a: nat, p: Spot, s: State, at: nat, size: nat)
    requires SpotOk(a, p, s.held, s.kind) && Offered(s, at, size) && size > 0
    ensures a != at
  {
    var i :| 0 <= i < |s.held| && s.held[i] == p.chunk;
    assert Apart(at, size, s.held[i], CHUNK_BYTES);
  }

  /** A step that takes no block of the class and brings none back. */
  predicate Idle(s: State, op: Op, c: nat) {
    match op
    case OpAlloc(layout, _) => ClassOf(layout) != c
    case OpFree(a) => a in s.live ==> a in s.blocks && s.blocks[a].cls != c
    case _ => true
  }

  ghost predicate IdleRun(s: State, ops: seq<Op>, c: nat)
    requires Inv(s) && LegalRun(s, ops)
    decreases |ops|
  {
    ops == [] || (Idle(s, ops[0], c) && (ApplyKeeps(s, ops[0]); IdleRun(Apply(s, ops[0]), ops[1..], c)))
  }

  lemma IdleStep(s: State, op: Op, c: nat)
    requires Inv(s) && Legal(s, op) && Idle(s, op, c) && c < CLASS_COUNT
    ensures |Apply(s, op).free| == |s.free| == CLASS_COUNT && Apply(s, op).free[c] == s.free[c]
  {
    hide HeldOk, BigOk, SpotsOk, GroundsOk, Accounted, FreeChains, Chain, ClassOf, IsAlign, Offered;
    match op
    case OpAlloc(layout, offered) => AllocAnswers(s, layout, offered);
    case OpResize(_, _, _) =>
    case OpRemap(_, _, _) =>
    case OpFree(a) => FreeIsBack(s, a);
    case OpWrite(_, _) =>
  }

  lemma {:induction false} IdleKeeps(s: State, ops: seq<Op>, c: nat)
    requires Inv(s) && LegalRun(s, ops) && IdleRun(s, ops, c) && c < CLASS_COUNT
    ensures |Ran(s, ops).free| == |s.free| == CLASS_COUNT && Ran(s, ops).free[c] == s.free[c]
    decreases |ops|
  {
    hide Inv, Legal, Apply, Idle;
    LengthsAre(s);
    if ops != [] {
      IdleStep(s, ops[0], c);
      ApplyKeeps(s, ops[0]);
      IdleKeeps(Apply(s, ops[0]), ops[1..], c);
    }
  }

  /** The block of a class freed last is the next one the class hands out, whatever happens to others in between. */
  lemma FreedIsNext(s: State, a: nat, ops: seq<Op>, layout: Layout, offered: nat)
    requires Inv(s) && a in s.live && a in s.blocks && Legal(s, OpFree(a)) && Inv(Apply(s, OpFree(a)))
    requires LegalRun(Apply(s, OpFree(a)), ops) && IdleRun(Apply(s, OpFree(a)), ops, s.blocks[a].cls)
    requires ClassOf(layout) == s.blocks[a].cls && Legal(Ran(Apply(s, OpFree(a)), ops), OpAlloc(layout, offered))
    ensures var t := Ran(Apply(s, OpFree(a)), ops);
            a !in t.live && Apply(t, OpAlloc(layout, offered)).live == t.live[a := layout]
  {
    hide Inv, LegalRun, IdleRun, Ran, ClassOf, IsAlign, Offered, AfterAlloc, Served, AfterFree;
    var c := s.blocks[a].cls;
    SmallOrLarge(s, a);
    LengthsAre(s);
    FreeIsBack(s, a);
    IdleKeeps(Apply(s, OpFree(a)), ops, c);
    var t := Ran(Apply(s, OpFree(a)), ops);
    LengthsAre(t);
    AllocKeeps(t, layout, offered);
    AllocAnswers(t, layout, offered);
    assert t.free[c] == [a] + s.free[c];
    FreePositive(t, c);
  }

  /** A step that neither frees the block nor writes into it. */
  predicate Spares(op: Op, a: nat) {
    !(op.OpFree? && op.addr == a) && !(op.OpWrite? && op.addr == a)
  }

  /** A word inside one block is in no other block that is out. */
  lemma Beside(s: State, a: nat, b: nat, x: nat)
    requires Inv(s) && a in s.live && a in s.blocks && s.blocks[a].cls < CLASS_COUNT
    requires a <= x && x + WORD <= a + SizeOf(s.blocks[a]) && a != b && (b in s.live || b in s.big)
    ensures b in s.live ==> b in s.blocks && s.blocks[b].cls < CLASS_COUNT && Apart(b, SizeOf(s.blocks[b]), x, WORD)
    ensures b in s.big ==> Apart(b, s.big[b].size, x, WORD)
  {
    hide Inv, ClassOf, IsAlign, Aligned;
    SmallOrLarge(s, a);
    SmallOrLarge(s, b);
    AllApart(s, a, b);
  }

  /** Free links and chunk links are written elsewhere: such a step leaves the block out and what is in it. */
  lemma StepSpares(s: State, op: Op, a: nat, x: nat)
    requires Inv(s) && Legal(s, op) && Spares(op, a) && a in s.live && a in s.blocks && s.blocks[a].cls < CLASS_COUNT
    requires a <= x && x + WORD <= a + SizeOf(s.blocks[a])
    ensures var t := Apply(s, op);
            a in t.live && a in t.blocks && t.blocks[a] == s.blocks[a] && t.word(x) == s.word(x)
  {
    hide HeldOk, BigOk, GroundsOk, Accounted, FreeChains, Chain, ClassOf, IsAlign;
    match op
    case OpAlloc(layout, offered) => AllocSpares(s, layout, offered, a, x);
    case OpResize(_, _, _) =>
    case OpRemap(_, _, _) =>
    case OpFree(b) => Beside(s, a, b, x);
    case OpWrite(b, _) => Beside(s, a, b, x);
  }

  lemma AllocSpares(s: State, layout: Layout, offered: nat, a: nat, x: nat)
    requires Inv(s) && Legal(s, OpAlloc(layout, offered)) && a in s.live && a in s.blocks
             && s.blocks[a].cls < CLASS_COUNT
    requires a <= x && x + WORD <= a + SizeOf(s.blocks[a])
    ensures var t := AfterAlloc(s, layout, offered);
            a in t.live && a in t.blocks && t.blocks[a] == s.blocks[a] && t.word(x) == s.word(x)
  {
    hide HeldOk, BigOk, SpotOk, GroundsOk, Accounted, FreeChains, Chain, ClassOf, IsAlign, Offered, CanCarve;
    var c := ClassOf(layout);
    assert SpotOk(a, s.blocks[a], s.held, s.kind);
    if c < CLASS_COUNT && CanCarve(s.pools[c], CLASS_SIZES[c]) {
      CarveIsNew(s, c);
    } else if c < CLASS_COUNT && offered != 0 {
      OutsideOffer(a, s.blocks[a], s, offered, x);
    }
  }

  lemma OutsideOffer(a: nat, p: Spot, s: State, h: nat, x: nat)
    requires SpotOk(a, p, s.held, s.kind) && Offered(s, h, CHUNK_BYTES) && a <= x && x + WORD <= a + SizeOf(p)
    ensures x != h + CHUNK_ROOM && a != h
  {
    var i :| 0 <= i < |s.held| && s.held[i] == p.chunk;
    assert Apart(h, CHUNK_BYTES, s.held[i], CHUNK_BYTES);
  }

  /** So over a run that spares it, a block keeps what the client put there. */
  lemma {:induction false} RunSpares(s: State, ops: seq<Op>, a: nat, x: nat)
    requires Inv(s) && LegalRun(s, ops) && (forall i :: 0 <= i < |ops| ==> Spares(ops[i], a))
    requires a in s.live && a in s.blocks && s.blocks[a].cls < CLASS_COUNT
    requires a <= x && x + WORD <= a + SizeOf(s.blocks[a])
    ensures a in Ran(s, ops).live && Ran(s, ops).word(x) == s.word(x)
    decreases |ops|
  {
    hide Inv, Legal, Apply, Spares;
    if ops != [] {
      StepSpares(s, ops[0], a, x);
      ApplyKeeps(s, ops[0]);
      RunSpares(Apply(s, ops[0]), ops[1..], a, x);
    }
  }

  // ----- the slab

  class Slab {
    const pools: array<SizeClass>
    var chunks: nat
    var word: Words
    var chunkCount: nat
    var smallBlocks: nat
    var largeBlocks: nat
    ghost var held: seq<nat>
    ghost var kind: map<nat, nat>
    ghost var ground: seq<Ground>
    ghost var blocks: map<nat, Spot>
    ghost var live: map<nat, Layout>
    ghost var free: seq<seq<nat>>
    ghost var big: map<nat, Layout>

    ghost function Now(): State
      reads this, pools
    {
      State(pools[..], chunks, word, held, kind, ground, blocks, live, free, big)
    }

    ghost predicate Valid()
      reads this, pools
    {
      Inv(Now()) && chunkCount == |held| && smallBlocks == |live| && largeBlocks == |big|
    }

    constructor (word: Words)
      ensures Valid() && Now() == Nothing(word) && fresh(pools)
    {
      hide Inv;
      NothingKeeps(word);
      pools := new SizeClass[CLASS_COUNT](_ => SizeClass(0, 0, 0));
      chunks, this.word := 0, word;
      chunkCount, smallBlocks, largeBlocks := 0, 0, 0;
      held, kind, blocks, live, big := [], map[], map[], map[], map[];
      ground := seq(CLASS_COUNT, _ => Ground(0, 0));
      free := seq(CLASS_COUNT, _ => []);
      new;
      assert Now() == Nothing(word);
    }

    ghost predicate Shaped()
      reads this, pools
    {
      pools.Length == |ground| == |free| == CLASS_COUNT
    }

    method AddChunk(c: nat, offered: nat) returns (ok: bool)
      requires Shaped() && c < CLASS_COUNT
      modifies this`chunks, this`word, this`chunkCount, this`held, this`kind, this`ground, pools
      ensures ok == (offered != 0) && Shaped() && |held| - chunkCount == old(|held| - chunkCount)
      ensures Now() == if ok then AddedChunk(old(Now()), c, offered) else old(Now())
      ensures ok ==> held == [offered] + old(held) && chunks == offered + CHUNK_ROOM && word(chunks) == old(chunks)
      ensures ok ==> pools[c] == SizeClass(old(pools[c].freeHead), offered, offered + CHUNK_ROOM)
    {
      ok := offered != 0;
      if ok {
        var link := offered + CHUNK_ROOM;
        word := Put(word, link, chunks);
        chunks, chunkCount := link, chunkCount + 1;
        ghost var was := pools[..];
        pools[c] := pools[c].(carve := offered, carveEnd := link);
        assert pools[..] == was[c := was[c].(carve := offered, carveEnd := link)];
        held, kind, ground := [offered] + held, kind[offered := c], ground[c := Ground(offered, 0)];
      }
    }

    method Bump(c: nat, ghost layout: Layout) returns (addr: nat)
      requires Shaped() && c < CLASS_COUNT
      modifies this`blocks, this`live, this`ground, pools
      ensures Shaped() && addr == old(pools[c].carve) && Now() == Carved(old(Now()), c, layout)
    {
      ghost var was, g := pools[..], ground[c];
      addr := pools[c].carve;
      pools[c] := pools[c].(carve := addr + CLASS_SIZES[c]);
      assert pools[..] == was[c := was[c].(carve := addr + CLASS_SIZES[c])];
      blocks, live, ground :=
        blocks[addr := Spot(g.chunk, c, g.used)], live[addr := layout], ground[c := Ground(g.chunk, g.used + 1)];
    }

    /** carve: from the chunk in hand, or from a new one; 0 when the parent refuses. */
    method Carve(c: nat, offered: nat, ghost layout: Layout) returns (addr: nat)
      requires Shaped() && c < CLASS_COUNT && ClassOf(layout) == c && free[c] == []
      modifies this`chunks, this`word, this`chunkCount, this`held, this`kind, this`ground, this`blocks, this`live, pools
      ensures |held| - chunkCount == old(|held| - chunkCount) && addr == Served(old(Now()), layout, offered)
      ensures Now() == AfterAlloc(old(Now()), layout, offered)
      ensures addr == if Spent(old(pools[c]), CLASS_SIZES[c]) then offered else old(pools[c].carve)
      ensures held == if Spent(old(pools[c]), CLASS_SIZES[c]) && offered != 0 then [offered] + old(held) else old(held)
    {
      hide ClassOf, Carved, Reused, Put;
      var size := CLASS_SIZES[c];
      addr := 0;
      var ok := true;
      if !CanCarve(pools[c], size) {
        if offered != 0 {
          AddedChunkServes(Now(), c, offered);
        }
        ok := AddChunk(c, offered);
      }
      if ok {
        addr := Bump(c, layout);
      }
    }

    method Pop(c: nat, ghost layout: Layout) returns (addr: nat)
      requires Shaped() && c < CLASS_COUNT && free[c] != [] && pools[c].freeHead == free[c][0]
      modifies this`live, this`free, pools
      ensures addr == old(free[c][0]) && Now() == Reused(old(Now()), c, layout)
    {
      ghost var was := pools[..];
      addr := pools[c].freeHead;
      pools[c] := pools[c].(freeHead := word(addr));
      assert pools[..] == was[c := was[c].(freeHead := word(addr))];
      live, free := live[addr := layout], free[c := free[c][1..]];
    }

    /** From the free list, or carved. */
    method AllocSmall(c: nat, offered: nat, ghost layout: Layout) returns (addr: nat)
      requires Shaped() && c < CLASS_COUNT && ClassOf(layout) == c && (pools[c].freeHead != 0 <==> free[c] != [])
      requires free[c] != [] ==> pools[c].freeHead == free[c][0]
      modifies this`chunks, this`word, this`chunkCount, this`held, this`kind, this`ground, this`blocks, this`live,
               this`free, pools
      ensures |held| - chunkCount == old(|held| - chunkCount) && addr == Served(old(Now()), layout, offered)
      ensures Now() == AfterAlloc(old(Now()), layout, offered)
    {
      hide ClassOf, AddedChunk, Carved, CanCarve, Reused;
      if pools[c].freeHead != 0 {
        addr := Pop(c, layout);
      } else {
        addr := Carve(c, offered, layout);
      }
    }

    /** slab_alloc. */
    method Alloc(layout: Layout, offered: nat) returns (addr: nat)
      requires Valid() && Legal(Now(), OpAlloc(layout, offered))
      modifies this, pools
      ensures Valid() && addr == Served(old(Now()), layout, offered)
      ensures Now() == AfterAlloc(old(Now()), layout, offered)
      ensures Recorded(old(Now()), Now(), layout, addr) && Shaped()
      ensures Answered(old(Now()), Now(), layout, offered, addr)
    {
      hide Inv, Offered, ClassOf, IsAlign, Carved, AddedChunk, Reused, Answered;
      ghost var s := Now();
      AllocKeeps(s, layout, offered);
      AllocAnswers(s, layout, offered);
      FreeHeadIs(s, ClassOf(layout));
      var idx := FindClass(layout);
      if idx == CLASS_COUNT {
        addr := offered;
        if addr != 0 {
          largeBlocks, big := largeBlocks + 1, big[addr := layout];
        }
      } else {
        addr := AllocSmall(idx, offered, layout);
        if addr != 0 {
          smallBlocks := smallBlocks + 1;
        }
      }
      LengthsAre(Now());
    }

    /** slab_resize: in place while the class stays the same; a large block is for the parent to answer. */
    method Resize(addr: nat, was: Layout, newSize: nat, grows: bool) returns (ok: bool)
      requires Valid() && Legal(Now(), OpResize(addr, newSize, grows)) && LayoutOf(Now(), addr) == was && was.size > 0
      modifies this`live, this`big
      ensures Valid() && Now() == AfterResize(old(Now()), addr, newSize, grows)
      ensures addr in old(big) ==> (ok <==> grows && ClassOf(Layout(newSize, was.align)) == CLASS_COUNT)
      ensures !ok ==> live == old(live) && big == old(big)
      ensures ok ==> if addr in old(live) then live == old(live)[addr := Layout(newSize, was.align)] && big == old(big)
                     else big == old(big)[addr := Layout(newSize, was.align)] && live == old(live)
      ensures ok ==> (addr in live || addr in big) && LayoutOf(Now(), addr) == Layout(newSize, was.align)
      ensures addr in old(live) ==> addr in blocks && (ok <==> ClassOf(Layout(newSize, was.align)) == blocks[addr].cls)
    {
      hide HeldOk, BigOk, SpotsOk, GroundsOk, Accounted, FreeChains, Chain, Offered, Put, ClassOf;
      ResizeKeeps(Now(), addr, newSize, grows);
      SmallOrLarge(Now(), addr);
      var before := FindClass(was);
      var after := FindClass(Layout(newSize, was.align));
      if before == CLASS_COUNT && after == CLASS_COUNT {
        ok := grows;
        if ok {
          big := big[addr := Layout(newSize, was.align)];
        }
      } else {
        ok := before == after;
        if ok {
          live := live[addr := Layout(newSize, was.align)];
        }
      }
    }

    /** slab_remap: only a large block that stays large moves. */
    method Remap(addr: nat, was: Layout, newSize: nat, offered: nat) returns (moved: nat)
      requires Valid() && Legal(Now(), OpRemap(addr, newSize, offered)) && LayoutOf(Now(), addr) == was && was.size > 0
      modifies this`big
      ensures Valid() && Now() == AfterRemap(old(Now()), addr, newSize, offered)
      ensures moved == if ClassOf(was) == ClassOf(Layout(newSize, was.align)) == CLASS_COUNT then offered else 0
      ensures big == if moved == 0 then old(big) else (old(big) - {addr})[moved := Layout(newSize, was.align)]
      ensures moved != 0 ==> moved in big && big[moved] == Layout(newSize, was.align)
    {
      hide HeldOk, BigOk, SpotsOk, GroundsOk, Accounted, FreeChains, Chain, Offered, Put, ClassOf;
      RemapKeeps(Now(), addr, newSize, offered);
      SmallOrLarge(Now(), addr);
      var before := FindClass(was);
      var after := FindClass(Layout(newSize, was.align));
      moved := 0;
      if before == CLASS_COUNT && after == CLASS_COUNT {
        moved := offered;
        if moved != 0 {
          big := (big - {addr})[moved := Layout(newSize, was.align)];
        }
      }
    }

    /**
     slab_dealloc: the class found from the layout is the one the block was carved for, and
     neither check fires for a block that is out.
     */
    method Dealloc(addr: nat, layout: Layout) returns (halted: bool)
      requires Valid() && (addr in live || addr in big) && LayoutOf(Now(), addr) == layout && layout.size > 0
      modifies this, pools
      ensures Valid() && !halted && Now() == AfterFree(old(Now()), addr) && Shaped()
      ensures Back(old(Now()), Now(), addr)
    {
      hide Inv, ClassOf, AfterFree, Back;
      SmallOrLarge(Now(), addr);
      FreeIsBack(Now(), addr);
      var idx := FindClass(layout);
      if idx == CLASS_COUNT {
        halted := FreeLarge(addr);
      } else {
        halted := FreeSmall(idx, addr);
      }
      LengthsAre(Now());
    }

    method FreeLarge(addr: nat) returns (halted: bool)
      requires Valid() && addr in big && addr !in live
      modifies this`largeBlocks, this`big
      ensures Valid() && !halted && Now() == AfterFree(old(Now()), addr)
    {
      hide Inv;
      FreeKeeps(Now(), addr);
      OneLess(big, addr);
      halted := !(largeBlocks > 0);
      if !halted {
        largeBlocks, big := largeBlocks - 1, big - {addr};
      }
    }

    method FreeSmall(idx: nat, addr: nat) returns (halted: bool)
      requires Valid() && addr in live && addr in blocks && idx == blocks[addr].cls < CLASS_COUNT
      modifies this`smallBlocks, this`word, this`live, this`free, pools
      ensures Valid() && !halted && Now() == AfterFree(old(Now()), addr)
    {
      hide Inv, Returned;
      FreeKeeps(Now(), addr);
      FreeHeadIs(Now(), idx);
      LiveNotFree(Now(), addr);
      OneLess(live, addr);
      BlocksClear(Now(), addr);
      halted := !(smallBlocks > 0) || addr == pools[idx].freeHead;
      if !halted {
        ReturnedLive(Now(), addr);
        Push(idx, addr);
        smallBlocks := smallBlocks - 1;
      }
    }

    method Push(c: nat, addr: nat)
      requires Shaped() && c < CLASS_COUNT && addr in blocks && blocks[addr].cls == c
      modifies this`word, this`live, this`free, pools
      ensures Now() == Returned(old(Now()), addr)
    {
      hide Put;
      ghost var was := pools[..];
      word := Put(word, addr, pools[c].freeHead);
      pools[c] := pools[c].(freeHead := addr);
      assert pools[..] == was[c := was[c].(freeHead := addr)];
      live, free := live - {addr}, free[c := [addr] + free[c]];
    }

    /** The client writes into a block it has: the lists do not notice. */
    method Write(addr: nat, words: Words)
      requires Valid() && Legal(Now(), OpWrite(addr, words))
      modifies this`word
      ensures Valid() && Now() == old(Now()).(word := words)
    {
      hide Inv, Legal;
      WriteKeeps(Now(), addr, words);
      word := words;
    }

    /** tda_slab_deinit: every chunk goes back to the parent, each once, and the slab holds nothing. */
    method Deinit() returns (returned: seq<nat>)
      requires Valid()
      modifies this, pools
      ensures returned == old(held) && Valid() && Now() == Nothing(old(word))
    {
      hide Inv, Nothing;
      NothingKeeps(word);
      returned := Chunks();
      Wipe();
    }

    method Wipe()
      requires pools.Length == CLASS_COUNT
      modifies this, pools
      ensures Now() == Nothing(old(word)) && chunkCount == smallBlocks == largeBlocks == 0
    {
      hide NoPools;
      ClearPools();
      chunks, chunkCount, smallBlocks, largeBlocks := 0, 0, 0, 0;
      held, kind, blocks, live, big := [], map[], map[], map[], map[];
      ground, free := Nothing(word).ground, Nothing(word).free;
    }

    method ClearPools()
      requires pools.Length == CLASS_COUNT
      modifies pools
      ensures pools[..] == NoPools()
    {
      forall c | 0 <= c < pools.Length {
        pools[c] := SizeClass(0, 0, 0);
      }
    }

    /** The chunks, from link to link. */
    method Chunks() returns (found: seq<nat>)
      requires Valid()
      ensures found == held && pools.Length == CLASS_COUNT
    {
      hide HeldOk, BigOk, SpotsOk, GroundsOk, Accounted, FreeChains;
      var chunk := chunks;
      found := [];
      while chunk != 0
        invariant |found| <= |held| && found == held[..|found|]
        invariant chunk == if |found| < |held| then held[|found|] + CHUNK_ROOM else 0
        decreases |held| - |found|
      {
        ghost var k := |found|;
        assert word(held[k] + CHUNK_ROOM) == After(held, k, CHUNK_ROOM);
        found := found + [chunk - CHUNK_ROOM];
        chunk := word(chunk);
      }
    }
  }

  lemma ReturnedLive(s: State, a: nat)
    requires |s.pools| == |s.free| == CLASS_COUNT && a in s.blocks && s.blocks[a].cls < CLASS_COUNT
    ensures Returned(s, a).live == s.live - {a}
  {
  }

  lemma FreeHeadIs(s: State, c: nat)
    requires Inv(s)
    ensures |s.pools| == |s.ground| == |s.free| == CLASS_COUNT
    ensures c < CLASS_COUNT ==> && (s.pools[c].freeHead != 0 <==> s.free[c] != [])
                                && (s.free[c] != [] ==>
                                     s.pools[c].freeHead == s.free[c][0] && s.free[c][0] in s.free[c])
  {
    hide HeldOk, BigOk, SpotsOk, GroundsOk, Accounted;
    if c < CLASS_COUNT {
      assert Chain(s.word, s.pools[c].freeHead, s.free[c], 0);
      if s.free[c] != [] {
        FreePositive(s, c);
      }
    }
  }
}
