/**
 The block table of src/alloc/debug.c: open addressing with linear probing around a ring of
 slots, and deletion by shifting the rest of the run back.  It is proved to be a finite map.
 */
module BlockTable {
  import opened Core
  import opened Ring

  /** The record of one live block; address 0 marks an empty slot. */
  datatype Record = Record(addr: nat, layout: Layout, serial: nat)

  const EMPTY := Record(0, Layout(0, 0), 0)

  const TABLE_MIN_CAP: nat := 64

  type Hash = nat -> nat

  /** The slot a probe for `addr` starts from. */
  function Home(addr: nat, cap: nat, hash: Hash): (h: nat)
    requires cap > 0
    ensures h < cap
  {
    hash(addr) % cap
  }

  // ----- the shape of the slots

  /** Whether slot j lies on the way from the home of `addr` to slot k, k itself left out. */
  predicate OnTheWay(addr: nat, j: nat, k: nat, cap: nat, hash: Hash)
    requires j < cap && k < cap
  {
    Ahead(Home(addr, cap, hash), j, cap) < Ahead(Home(addr, cap, hash), k, cap)
  }

  /** No entry is cut off from its home slot by an empty one. */
  ghost predicate Reachable(s: seq<Record>, hash: Hash)
  {
    forall j, k :: 0 <= j < |s| && 0 <= k < |s| && s[k].addr != 0 && OnTheWay(s[k].addr, j, k, |s|, hash)
      ==> s[j].addr != 0
  }

  /** The occupied slots hold exactly the entries of m, each once. */
  ghost predicate Represents(s: seq<Record>, m: map<nat, Record>)
  {
    && (forall j, k :: 0 <= j < |s| && 0 <= k < |s| && s[j].addr != 0 && s[j].addr == s[k].addr ==> j == k)
    && (forall k :: 0 <= k < |s| && s[k].addr != 0 ==> s[k].addr in m && m[s[k].addr] == s[k])
    && (forall a :: a in m ==> exists k :: 0 <= k < |s| && s[k].addr == a)
    && 0 !in m
  }

  // ----- room for a probe to stop

  /** The addresses in the first n slots. */
  ghost function Addrs(s: seq<Record>, n: nat): set<nat>
    requires n <= |s|
  {
    if n == 0 then {} else Addrs(s, n - 1) + {s[n - 1].addr}
  }

  lemma {:induction false} AddrsWitness(s: seq<Record>, n: nat, a: nat) returns (k: nat)
    requires n <= |s| && a in Addrs(s, n)
    ensures k < n && s[k].addr == a
  {
    if s[n - 1].addr == a {
      k := n - 1;
    } else {
      k := AddrsWitness(s, n - 1, a);
    }
  }

  lemma {:induction false} AddrsCount(s: seq<Record>, keys: set<nat>, n: nat)
    requires n <= |s| && forall k :: 0 <= k < n ==> s[k].addr in keys
    requires forall j, k :: 0 <= j < n && 0 <= k < n && s[j].addr == s[k].addr ==> j == k
    ensures |Addrs(s, n)| == n && Addrs(s, n) <= keys
  {
    if n > 0 {
      AddrsCount(s, keys, n - 1);
      var last := s[n - 1].addr;
      if last in Addrs(s, n - 1) {
        var k := AddrsWitness(s, n - 1, last);
        assert false;
      }
      assert Addrs(s, n) == Addrs(s, n - 1) + {last};
    }
  }

  /** A table with fewer entries than slots has an empty slot. */
  lemma HasEmptySlot(s: seq<Record>, m: map<nat, Record>) returns (e: nat)
    requires Represents(s, m) && |m| < |s|
    ensures e < |s| && s[e].addr == 0
  {
    if forall k :: 0 <= k < |s| ==> s[k].addr != 0 {
      AddrsCount(s, m.Keys, |s|);
      SubsetCount(Addrs(s, |s|), m.Keys);
      assert false;
    }
    e :| 0 <= e < |s| && s[e].addr == 0;
  }

  // ----- probing

  /** Where a probe for `addr` stands: nothing it has passed is empty or is `addr`. */
  ghost predicate Probing(s: seq<Record>, addr: nat, i: nat, hash: Hash)
    requires i < |s|
  {
    forall j :: 0 <= j < |s| && OnTheWay(addr, j, i, |s|, hash) ==> s[j].addr != 0 && s[j].addr != addr
  }

  lemma ProbeStart(s: seq<Record>, addr: nat, hash: Hash)
    requires |s| > 0
    ensures Probing(s, addr, Home(addr, |s|, hash), hash)
  {
    AheadOfSelf(Home(addr, |s|, hash), |s|);
  }

  /** A probe that meets another entry goes on, and gets closer to the empty slot e. */
  lemma ProbeStep(s: seq<Record>, addr: nat, i: nat, e: nat, hash: Hash)
    requires i < |s| && e < |s| && s[e].addr == 0 && Probing(s, addr, i, hash)
    requires s[i].addr != 0 && s[i].addr != addr
    ensures Probing(s, addr, Next(i, |s|), hash)
    ensures Ahead(Next(i, |s|), e, |s|) < Ahead(i, e, |s|)
  {
    hide Home, Ahead, Next;
    var n, h := |s|, Home(addr, |s|, hash);
    AheadTells(h, i, e, n);
    assert Ahead(h, i, n) < Ahead(h, e, n);
    AheadNext(h, i, n);
    forall j | 0 <= j < n && OnTheWay(addr, j, Next(i, n), n, hash) ensures s[j].addr != 0 && s[j].addr != addr {
      AheadTells(h, j, i, n);
      assert OnTheWay(addr, j, i, n, hash) || j == i;
    }
    AheadSplits(h, i, e, n);
    AheadSplits(h, Next(i, n), e, n);
  }

  /** A probe that stops at an empty slot has shown that the address is not there. */
  lemma ProbeMissed(s: seq<Record>, m: map<nat, Record>, addr: nat, i: nat, hash: Hash)
    requires i < |s| && s[i].addr == 0 && Probing(s, addr, i, hash)
    requires Reachable(s, hash) && Represents(s, m) && addr != 0
    ensures addr !in m
  {
    hide Home, Ahead, Next;
    var n, h := |s|, Home(addr, |s|, hash);
    if addr in m {
      var k :| 0 <= k < n && s[k].addr == addr;
      AheadTells(h, i, k, n);
    }
  }

  /** The empty slot a probe stopped at takes the entry it looked for. */
  lemma Inserted(s: seq<Record>, m: map<nat, Record>, e: Record, i: nat, hash: Hash)
    requires i < |s| && s[i].addr == 0 && Probing(s, e.addr, i, hash)
    requires Reachable(s, hash) && Represents(s, m) && e.addr != 0 && e.addr !in m
    ensures Reachable(s[i := e], hash) && Represents(s[i := e], m[e.addr := e])
  {
    var t := s[i := e];
    forall j, k | 0 <= j < |t| && 0 <= k < |t| && t[k].addr != 0 && OnTheWay(t[k].addr, j, k, |t|, hash)
      ensures t[j].addr != 0
    {
      if k == i {
        assert s[j].addr != 0 || j == i;
      } else {
        assert s[j].addr != 0;
      }
    }
    var m' := m[e.addr := e];
    forall a | a in m' ensures exists k :: 0 <= k < |t| && t[k].addr == a {
      if a == e.addr {
        assert t[i].addr == a;
      } else {
        var k :| 0 <= k < |s| && s[k].addr == a;
        assert t[k].addr == a;
      }
    }
  }

  // ----- deletion by backward shift

  /** Reachable, but for entries at or past slot i, whose way may lead over the hole. */
  ghost predicate ReachableOverHole(s: seq<Record>, hole: nat, i: nat, hash: Hash)
    requires hole < |s| && i < |s|
  {
    forall j, k :: 0 <= j < |s| && 0 <= k < |s| && s[k].addr != 0 && OnTheWay(s[k].addr, j, k, |s|, hash)
      ==> s[j].addr != 0 || (j == hole && Ahead(hole, i, |s|) <= Ahead(hole, k, |s|))
  }

  /** The state of the shift: slot e, which stays empty, is where it will stop at the latest. */
  ghost predicate Shifting(s: seq<Record>, hole: nat, i: nat, e: nat, hash: Hash)
  {
    && hole < |s| && i < |s| && e < |s| && s[hole].addr == 0 && s[e].addr == 0
    && 0 < Ahead(hole, i, |s|) <= Ahead(hole, e, |s|)
    && ReachableOverHole(s, hole, i, hash)
  }

  lemma ShiftStart(s: seq<Record>, hole: nat, e: nat, hash: Hash)
    requires hole < |s| && e < |s| && s[hole].addr != 0 && s[e].addr == 0 && Reachable(s, hash)
    ensures Shifting(s[hole := EMPTY], hole, Next(hole, |s|), e, hash)
  {
    var n, t := |s|, s[hole := EMPTY];
    AheadNext(hole, hole, n);
    AheadTells(hole, hole, e, n);
    AheadOfSelf(hole, n);
    forall j, k | 0 <= j < n && 0 <= k < n && t[k].addr != 0 && OnTheWay(t[k].addr, j, k, n, hash)
      ensures t[j].addr != 0 || (j == hole && 1 <= Ahead(hole, k, n))
    {
      assert s[j].addr != 0;
      AheadTells(hole, hole, k, n);
    }
  }

  /** The entry at i moves into the hole when its home lies at or before the hole; i is the new hole. */
  lemma ShiftMoves(s: seq<Record>, hole: nat, i: nat, e: nat, hash: Hash)
    requires Shifting(s, hole, i, e, hash) && s[i].addr != 0
    requires Ahead(Home(s[i].addr, |s|, hash), i, |s|) >= Ahead(hole, i, |s|)
    ensures Shifting(s[hole := s[i]][i := EMPTY], i, Next(i, |s|), e, hash)
    ensures Ahead(Next(i, |s|), e, |s|) < Ahead(i, e, |s|)
  {
    hide Home, Ahead, Next;
    var n, t := |s|, s[hole := s[i]][i := EMPTY];
    var h := Home(s[i].addr, n, hash);
    AheadTells(hole, i, e, n);
    AheadTells(hole, hole, e, n);
    AheadOfSelf(hole, n);
    AheadSplits(hole, i, e, n);
    AheadNext(i, i, n);
    AheadOfSelf(i, n);
    AheadSplits(i, Next(i, n), e, n);
    AheadSplits(h, hole, i, n);
    forall j, k | 0 <= j < n && 0 <= k < n && t[k].addr != 0 && OnTheWay(t[k].addr, j, k, n, hash)
      ensures t[j].addr != 0 || (j == i && 1 <= Ahead(i, k, n))
    {
      AheadTells(i, i, k, n);
      if k == hole {
        assert OnTheWay(s[i].addr, j, i, n, hash);
      } else {
        assert OnTheWay(s[k].addr, j, k, n, hash);
      }
    }
  }

  /** Otherwise it stays, since its own way does not lead over the hole. */
  lemma ShiftPasses(s: seq<Record>, hole: nat, i: nat, e: nat, hash: Hash)
    requires Shifting(s, hole, i, e, hash) && s[i].addr != 0
    requires Ahead(Home(s[i].addr, |s|, hash), i, |s|) < Ahead(hole, i, |s|)
    ensures Shifting(s, hole, Next(i, |s|), e, hash)
    ensures Ahead(Next(i, |s|), e, |s|) < Ahead(i, e, |s|)
  {
    hide Home, Ahead, Next;
    var n, h := |s|, Home(s[i].addr, |s|, hash);
    AheadTells(hole, i, e, n);
    AheadNext(hole, i, n);
    AheadSplits(hole, i, e, n);
    AheadSplits(hole, Next(i, n), e, n);
    forall j, k | 0 <= j < n && 0 <= k < n && s[k].addr != 0 && OnTheWay(s[k].addr, j, k, n, hash)
      ensures s[j].addr != 0 || (j == hole && Ahead(hole, Next(i, n), n) <= Ahead(hole, k, n))
    {
      AheadTells(hole, i, k, n);
      AheadSplits(h, hole, i, n);
    }
  }

  /** At the first empty slot every entry is reachable again. */
  lemma ShiftEnds(s: seq<Record>, hole: nat, i: nat, e: nat, hash: Hash)
    requires Shifting(s, hole, i, e, hash) && s[i].addr == 0
    ensures Reachable(s, hash)
  {
    hide Home, Ahead, Next;
    var n := |s|;
    AheadOfSelf(hole, n);
    forall j, k | 0 <= j < n && 0 <= k < n && s[k].addr != 0 && OnTheWay(s[k].addr, j, k, n, hash)
      ensures s[j].addr != 0
    {
      var h := Home(s[k].addr, n, hash);
      if s[j].addr == 0 {
        AheadSplits(h, hole, k, n);
        AheadSplits(hole, i, k, n);
        AheadSplits(h, hole, i, n);
        AheadTells(h, i, k, n);
      }
    }
  }

  // ----- what the steps do to the map

  lemma MovedRepresents(s: seq<Record>, m: map<nat, Record>, hole: nat, i: nat)
    requires hole < |s| && i < |s| && s[hole].addr == 0 && s[i].addr != 0 && Represents(s, m)
    ensures Represents(s[hole := s[i]][i := EMPTY], m)
  {
    var t := s[hole := s[i]][i := EMPTY];
    forall a | a in m ensures exists k :: 0 <= k < |t| && t[k].addr == a {
      var k :| 0 <= k < |s| && s[k].addr == a;
      assert t[if k == i then hole else k].addr == a;
    }
  }

  lemma RemovedRepresents(s: seq<Record>, m: map<nat, Record>, hole: nat)
    requires hole < |s| && s[hole].addr != 0 && Represents(s, m)
    ensures Represents(s[hole := EMPTY], m - {s[hole].addr})
    ensures s[hole].addr in m && |m - {s[hole].addr}| == |m| - 1
  {
    var t, m' := s[hole := EMPTY], m - {s[hole].addr};
    forall a | a in m' ensures exists k :: 0 <= k < |t| && t[k].addr == a {
      var k :| 0 <= k < |s| && s[k].addr == a;
      assert t[k].addr == a;
    }
    assert m'.Keys == m.Keys - {s[hole].addr};
  }

  lemma EmptyTable(s: seq<Record>, hash: Hash)
    requires forall k :: 0 <= k < |s| ==> s[k] == EMPTY
    ensures Represents(s, map[]) && Reachable(s, hash)
  {
  }

  lemma NoSlots(s: seq<Record>, m: map<nat, Record>)
    requires s == [] && Represents(s, m)
    ensures m == map[]
  {
  }

  lemma FoundAt(s: seq<Record>, m: map<nat, Record>, i: nat)
    requires i < |s| && s[i].addr != 0 && Represents(s, m)
    ensures s[i].addr in m && m[s[i].addr] == s[i]
  {
  }

  /** The entries that the first n slots of the old ring contribute while the table grows. */
  ghost predicate Moved(was: seq<Record>, n: nat, m: map<nat, Record>, done: map<nat, Record>)
  {
    && n <= |was|
    && (forall k :: 0 <= k < n && was[k].addr != 0 ==> was[k].addr in done)
    && (forall k :: n <= k < |was| && was[k].addr != 0 ==> was[k].addr !in done)
    && (forall a :: a in done ==> a in m && done[a] == m[a])
  }

  lemma MovedStep(was: seq<Record>, n: nat, m: map<nat, Record>, done: map<nat, Record>)
    requires n < |was| && Represents(was, m) && Moved(was, n, m, done)
    ensures was[n].addr == 0 ==> Moved(was, n + 1, m, done)
    ensures was[n].addr != 0 ==> Moved(was, n + 1, m, done[was[n].addr := was[n]]) && was[n].addr !in done
  {
  }

  lemma MovedAll(was: seq<Record>, m: map<nat, Record>, done: map<nat, Record>)
    requires Represents(was, m) && Moved(was, |was|, m, done)
    ensures done == m
  {
    forall a | a in m ensures a in done {
      var k :| 0 <= k < |was| && was[k].addr == a;
    }
  }

  lemma MovedCount(m: map<nat, Record>, done: map<nat, Record>)
    requires forall a :: a in done ==> a in m
    ensures |done| <= |m|
  {
    SubsetCount(done.Keys, m.Keys);
  }

  // ----- the table

  /** The most slots, as a power of two: the bytes of 2^59 records are more than a size_t counts. */
  const MOST_LOG: nat := 58

  ghost predicate IsRingSize(cap: nat) {
    exists k: nat :: 6 <= k <= MOST_LOG && cap == Pow2(k)
  }

  /** Room for one more entry: it is there, or the slots can be doubled and the memory is granted. */
  predicate Roomy(len: nat, cap: nat, granted: bool) {
    2 * (len + 1) <= cap || (granted && cap < Pow2(MOST_LOG))
  }

  /** No ring has room for one more at half full. */
  predicate Crowded(len: nat) {
    2 * (len + 1) > Pow2(MOST_LOG)
  }

  lemma RingSizes(cap: nat)
    ensures IsRingSize(TABLE_MIN_CAP) && TABLE_MIN_CAP <= Pow2(MOST_LOG)
    ensures IsRingSize(cap) && cap < Pow2(MOST_LOG) ==> IsRingSize(2 * cap)
  {
    assert Pow2(2) == 4;
    assert Pow2(4) == 16;
    assert Pow2(6) == 64;
    Pow2Monotone(6, MOST_LOG);
    if IsRingSize(cap) && cap < Pow2(MOST_LOG) {
      var k: nat :| 6 <= k <= MOST_LOG && cap == Pow2(k);
      assert 2 * cap == Pow2(k + 1);
    }
  }

  /** The masks that the table computes its slots with. */
  lemma Masks(cap: nat, a: nat, b: nat)
    requires IsRingSize(cap) && a < cap && b < cap
    ensures And(a + 1, cap - 1) == Next(a, cap) && And(Minus(b, a), cap - 1) == Ahead(a, b, cap)
  {
    hide And, Pow2, Minus;
    var k: nat :| 6 <= k <= MOST_LOG && cap == Pow2(k);
    MasksWalkTheRing(a, b, k);
  }

  lemma HomeMask(cap: nat, addr: nat, hash: Hash)
    requires IsRingSize(cap)
    ensures cap > 0 && And(hash(addr), cap - 1) == Home(addr, cap, hash)
  {
    hide And, Pow2;
    var k: nat :| 6 <= k <= MOST_LOG && cap == Pow2(k);
    MaskIsRemainder(hash(addr), k);
  }

  class Table {
    var slots: array<Record>
    var len: nat
    const hash: Hash
    ghost var entries: map<nat, Record>  // the map the table stands for

    /** Each entry where a probe finds it, and the ring at most half full. */
    ghost predicate Valid()
      reads this, slots
    {
      && Represents(slots[..], entries) && Reachable(slots[..], hash)
      && len == |entries| && 2 * len <= slots.Length
      && (slots.Length == 0 || IsRingSize(slots.Length))
    }

    constructor (hash: Hash)
      ensures Valid() && fresh(slots) && slots.Length == 0 && entries == map[] && this.hash == hash
    {
      this.hash := hash;
      slots := new Record[0];
      len, entries := 0, map[];
    }

    /** table_probe over a ring that has an empty slot. */
    method Probe(ring: array<Record>, addr: nat, ghost m: map<nat, Record>) returns (i: nat)
      requires Represents(ring[..], m) && |m| < ring.Length && addr != 0 && IsRingSize(ring.Length)
      ensures i < ring.Length && (ring[i].addr == 0 || ring[i].addr == addr)
      ensures Probing(ring[..], addr, i, hash)
    {
      hide *;
      ghost var s := ring[..];
      ghost var e := HasEmptySlot(s, m);
      HomeMask(ring.Length, addr, hash);
      i := And(hash(addr), ring.Length - 1);
      ProbeStart(s, addr, hash);
      while ring[i].addr != 0 && ring[i].addr != addr
        invariant i < ring.Length && ring[..] == s && Probing(s, addr, i, hash)
        decreases Ahead(i, e, ring.Length)
      {
        ProbeStep(s, addr, i, e, hash);
        Masks(ring.Length, i, i);
        i := And(i + 1, ring.Length - 1);
      }
    }

    /** table_grow; `granted` says whether the default allocator served the new slots. */
    method Grow(granted: bool) returns (ok: bool)
      requires Valid()
      modifies this
      ensures Valid() && entries == old(entries) && len == old(len)
      ensures ok <==> granted && old(slots.Length) < Pow2(MOST_LOG)
      ensures ok ==>
                fresh(slots) && slots.Length == if old(slots).Length == 0 then TABLE_MIN_CAP else 2 * old(slots).Length
      ensures !ok ==> slots == old(slots)
    {
      hide Represents, Reachable, IsRingSize, Pow2;
      var cap := slots.Length;
      if !granted || cap >= Pow2(MOST_LOG) {
        return false;
      }
      RingSizes(cap);
      var bigger := if cap == 0 then TABLE_MIN_CAP else 2 * cap;
      var ring := Rehash(bigger);
      slots := ring;
      ok := true;
    }

    /** Every entry of the old slots into new ones. */
    method Rehash(cap: nat) returns (ring: array<Record>)
      requires Represents(slots[..], entries) && |entries| < cap && IsRingSize(cap)
      ensures fresh(ring) && ring.Length == cap
      ensures Represents(ring[..], entries) && Reachable(ring[..], hash)
    {
      hide *;
      ghost var o := slots[..];
      ring := new Record[cap](_ => EMPTY);
      EmptyTable(ring[..], hash);
      ghost var done: map<nat, Record> := map[];
      RehashStart(o, entries);
      var i := 0;
      while i < slots.Length
        invariant i <= slots.Length && slots[..] == o && fresh(ring) && ring.Length == cap
        invariant Represents(ring[..], done) && Reachable(ring[..], hash) && Moved(o, i, entries, done)
      {
        RehashRoom(o, i, entries, done);
        if slots[i].addr != 0 {
          ghost var s := ring[..];
          var p := Probe(ring, slots[i].addr, done);
          assert ring[..] == s;
          ProbedEmpty(s, done, slots[i].addr, p);
          Inserted(s, done, slots[i], p, hash);
          ring[p] := slots[i];
          assert ring[..] == s[p := slots[i]];
          done := done[slots[i].addr := slots[i]];
        }
        i := i + 1;
      }
      MovedAll(o, entries, done);
    }

    /** table_insert: false, and nothing changed, when the table could not grow. */
    method Insert(entry: Record, granted: bool) returns (ok: bool)
      requires Valid() && entry.addr != 0 && entry.addr !in entries
      modifies this, slots
      ensures Valid() && (slots == old(slots) || fresh(slots))
      ensures ok <==> Roomy(old(len), old(slots.Length), granted)
      ensures entries == if ok then old(entries)[entry.addr := entry] else old(entries)
    {
      hide Represents, Reachable, IsRingSize, Pow2;
      if 2 * (len + 1) > slots.Length {
        var grown := Grow(granted);
        if !grown {
          return false;
        }
      }
      Place(entry);
      ok := true;
    }

    method Place(entry: Record)
      requires Valid() && entry.addr != 0 && entry.addr !in entries && 2 * (len + 1) <= slots.Length
      modifies this`len, this`entries, slots
      ensures Valid() && entries == old(entries)[entry.addr := entry]
    {
      hide Represents, Reachable, Probing, IsRingSize, And, Pow2;
      ghost var s := slots[..];
      var i := Probe(slots, entry.addr, entries);
      assert slots[..] == s;
      ProbedEmpty(s, entries, entry.addr, i);
      Inserted(s, entries, entry, i, hash);
      slots[i] := entry;
      assert slots[..] == s[i := entry];
      len, entries := len + 1, entries[entry.addr := entry];
    }

    /** table_find: the record that was inserted for the address and not taken since. */
    method Find(addr: nat) returns (found: bool, out: Record)
      requires Valid() && addr != 0
      ensures found <==> addr in entries
      ensures found ==> out == entries[addr]
    {
      hide Represents, Reachable, Probing, IsRingSize, And, Pow2;
      out := EMPTY;
      if slots.Length == 0 {
        NoSlots(slots[..], entries);
        return false, out;
      }
      var i := Probe(slots, addr, entries);
      found := slots[i].addr != 0;
      if found {
        FoundAt(slots[..], entries, i);
        out := slots[i];
      } else {
        ProbeMissed(slots[..], entries, addr, i, hash);
      }
    }

    /** table_take: as table_find, and the record leaves the table. */
    method Take(addr: nat) returns (found: bool, out: Record)
      requires Valid() && addr != 0
      modifies this`len, this`entries, slots
      ensures Valid()
      ensures found <==> addr in old(entries)
      ensures found ==> out == old(entries)[addr]
      ensures entries == old(entries) - {addr}
    {
      hide Represents, Reachable, Probing, IsRingSize, And, Pow2;
      out := EMPTY;
      if slots.Length == 0 {
        NoSlots(slots[..], entries);
        return false, out;
      }
      var hole := Probe(slots, addr, entries);
      if slots[hole].addr == 0 {
        ProbeMissed(slots[..], entries, addr, hole, hash);
        return false, out;
      }
      FoundAt(slots[..], entries, hole);
      found, out := true, slots[hole];
      Remove(hole);
    }

    /** Empties a slot and shifts the rest of its run back. */
    method Remove(at: nat)
      requires Valid() && at < slots.Length && slots[at].addr != 0
      modifies this`len, this`entries, slots
      ensures Valid() && entries == old(entries) - {old(slots[at].addr)}
    {
      hide Represents, Reachable, Shifting, IsRingSize, Home, And, Minus, Next, Ahead;
      ghost var s := slots[..];
      ghost var cap := slots.Length;
      var mask := slots.Length - 1;
      ghost var e := HasEmptySlot(s, entries);
      RemovedRepresents(s, entries, at);
      ShiftStart(s, at, e, hash);
      entries := entries - {slots[at].addr};
      slots[at] := EMPTY;
      assert slots[..] == s[at := EMPTY];
      len := len - 1;
      ghost var left := entries;
      Masks(cap, at, at);
      var hole: nat, i: nat := at, And(at + 1, mask);
      while slots[i].addr != 0
        invariant hole < cap && i < cap && Shifting(slots[..], hole, i, e, hash) && Represents(slots[..], entries)
        invariant entries == left && len == |left|
        decreases Ahead(i, e, cap)
      {
        ghost var t := slots[..];
        HomeMask(cap, slots[i].addr, hash);
        var home := And(hash(slots[i].addr), mask);
        ShiftHole(t, hole, i, e, hash);
        Masks(cap, home, i);
        Masks(cap, hole, i);
        Masks(cap, i, i);
        if And(Minus(i, home), mask) >= And(Minus(i, hole), mask) {
          ShiftMoves(t, hole, i, e, hash);
          MovedRepresents(t, entries, hole, i);
          slots[hole] := slots[i];
          slots[i] := EMPTY;
          assert slots[..] == t[hole := t[i]][i := EMPTY];
          hole := i;
        } else {
          ShiftPasses(t, hole, i, e, hash);
        }
        i := And(i + 1, mask);
      }
      ShiftEnds(slots[..], hole, i, e, hash);
    }
  }

  lemma ShiftHole(s: seq<Record>, hole: nat, i: nat, e: nat, hash: Hash)
    requires Shifting(s, hole, i, e, hash)
    ensures hole < |s| && i < |s| && s[hole].addr == 0
  {
  }

  lemma RehashStart(o: seq<Record>, m: map<nat, Record>)
    ensures Moved(o, 0, m, map[])
  {
  }

  lemma RehashRoom(o: seq<Record>, i: nat, m: map<nat, Record>, done: map<nat, Record>)
    requires i < |o| && Represents(o, m) && Moved(o, i, m, done)
    ensures o[i].addr == 0 ==> Moved(o, i + 1, m, done)
    ensures o[i].addr != 0 ==> Moved(o, i + 1, m, done[o[i].addr := o[i]]) && o[i].addr !in done
    ensures |done| <= |m|
  {
    MovedStep(o, i, m, done);
    MovedCount(m, done);
  }

  lemma ProbedEmpty(s: seq<Record>, m: map<nat, Record>, addr: nat, i: nat)
    requires i < |s| && Represents(s, m) && addr != 0 && addr !in m
    requires s[i].addr == 0 || s[i].addr == addr
    ensures s[i].addr == 0
  {
  }
}
