/**
 What the debug allocator of src/alloc/debug.c must account for: every block it ever took
 from its parent, under the serial of the request that made it, is live, waits in the
 quarantine or has gone back, and only one of the three.
 */
module Ledger {
  import opened BlockTable

  const GUARD_SIZE: nat := 16
  const QUARANTINE_LEN: nat := 64
  const FILL_NEW: nat := 0xCD
  const FILL_FREED: nat := 0xDD
  const FILL_GUARD: nat := 0xFD

  /** `made` by serial, `live` by address, `queue` oldest first, `back` in the order of return. */
  datatype Book = Book(made: map<nat, Record>, live: map<nat, Record>, queue: seq<Record>, back: seq<Record>)

  predicate Listed(s: seq<Record>, serial: nat) {
    exists i :: 0 <= i < |s| && s[i].serial == serial
  }

  predicate Lives(live: map<nat, Record>, serial: nat) {
    exists a :: a in live && live[a].serial == serial
  }

  ghost predicate OnceEach(s: seq<Record>) {
    forall i, j :: 0 <= i < j < |s| ==> s[i].serial != s[j].serial
  }

  /** Each place holds blocks as they were made, none of them twice. */
  ghost predicate Faithful(b: Book) {
    && (forall n :: n in b.made ==> b.made[n].serial == n)
    && (forall a :: a in b.live ==> b.live[a].addr == a)
    && (forall a :: a in b.live ==> b.live[a].serial in b.made && b.made[b.live[a].serial] == b.live[a])
    && (forall i :: 0 <= i < |b.queue| ==> b.queue[i].serial in b.made && b.made[b.queue[i].serial] == b.queue[i])
    && (forall i :: 0 <= i < |b.back| ==> b.back[i].serial in b.made && b.made[b.back[i].serial] == b.back[i])
    && OnceEach(b.queue) && OnceEach(b.back)
  }

  /** The conservation law: every block ever made is in exactly one place. */
  ghost predicate Conserved(b: Book) {
    && Faithful(b)
    && forall n :: n in b.made ==>
         && (Lives(b.live, n) || Listed(b.queue, n) || Listed(b.back, n))
         && !(Lives(b.live, n) && Listed(b.queue, n))
         && !(Lives(b.live, n) && Listed(b.back, n))
         && !(Listed(b.queue, n) && Listed(b.back, n))
  }

  /** No two blocks the parent has not had back share an address. */
  ghost predicate AddressesApart(b: Book) {
    && (forall i :: 0 <= i < |b.queue| ==> b.queue[i].addr !in b.live)
    && (forall i, j :: 0 <= i < j < |b.queue| ==> b.queue[i].addr != b.queue[j].addr)
  }

  lemma ListedAppend(s: seq<Record>, r: Record, n: nat)
    ensures Listed(s + [r], n) <==> Listed(s, n) || r.serial == n
  {
    var t := s + [r];
    assert forall i :: 0 <= i < |s| ==> t[i] == s[i];
    assert t[|s|] == r;
  }

  lemma ListedTail(s: seq<Record>, n: nat)
    requires s != [] && OnceEach(s)
    ensures Listed(s[1..], n) <==> Listed(s, n) && s[0].serial != n
  {
    assert forall i :: 0 <= i < |s| - 1 ==> s[1..][i] == s[i + 1];
    if Listed(s, n) && s[0].serial != n {
      var i :| 0 <= i < |s| && s[i].serial == n;
      assert s[1..][i - 1].serial == n;
    }
  }

  lemma OnceAppend(s: seq<Record>, r: Record)
    requires OnceEach(s) && !Listed(s, r.serial)
    ensures OnceEach(s + [r])
  {
  }

  // ----- the steps

  function Allotted(b: Book, r: Record): Book {
    b.(made := b.made[r.serial := r], live := b.live[r.addr := r])
  }

  lemma AllottedConserves(b: Book, r: Record)
    requires Conserved(b) && AddressesApart(b)
    requires r.serial !in b.made && r.addr !in b.live && forall i :: 0 <= i < |b.queue| ==> b.queue[i].addr != r.addr
    ensures Conserved(Allotted(b, r)) && AddressesApart(Allotted(b, r))
  {
    var c := Allotted(b, r);
    forall n | n in c.made ensures Lives(c.live, n) <==> Lives(b.live, n) || n == r.serial {
      LivesAdded(b.live, r, n);
    }
    assert !Listed(b.queue, r.serial) && !Listed(b.back, r.serial);
    assert !Lives(b.live, r.serial);
  }

  lemma LivesAdded(live: map<nat, Record>, r: Record, n: nat)
    requires r.addr !in live
    ensures Lives(live[r.addr := r], n) <==> Lives(live, n) || n == r.serial
  {
    var l := live[r.addr := r];
    if Lives(live, n) {
      var a :| a in live && live[a].serial == n;
      assert a in l && l[a].serial == n;
    }
    assert r.addr in l && l[r.addr].serial == r.serial;
  }

  /** A block that could not be recorded goes straight back to the parent. */
  function Bounced(b: Book, r: Record): Book {
    b.(made := b.made[r.serial := r], back := b.back + [r])
  }

  lemma BouncedConserves(b: Book, r: Record)
    requires Conserved(b) && AddressesApart(b) && r.serial !in b.made
    ensures Conserved(Bounced(b, r)) && AddressesApart(Bounced(b, r))
  {
    var c := Bounced(b, r);
    assert !Listed(b.queue, r.serial) && !Listed(b.back, r.serial) && !Lives(b.live, r.serial);
    OnceAppend(b.back, r);
    forall n | n in c.made ensures Listed(c.back, n) <==> Listed(b.back, n) || n == r.serial {
      ListedAppend(b.back, r, n);
    }
  }

  /** A block given back starts to wait as the newest. */
  function Freed(b: Book, a: nat): Book
    requires a in b.live
  {
    b.(live := b.live - {a}, queue := b.queue + [b.live[a]])
  }

  lemma FreedConserves(b: Book, a: nat)
    requires Conserved(b) && AddressesApart(b) && a in b.live
    ensures Conserved(Freed(b, a)) && AddressesApart(Freed(b, a))
  {
    var c, r := Freed(b, a), b.live[a];
    assert Lives(b.live, r.serial);
    OnceAppend(b.queue, r);
    forall n | n in c.made
      ensures Listed(c.queue, n) <==> Listed(b.queue, n) || n == r.serial
      ensures Lives(c.live, n) <==> Lives(b.live, n) && n != r.serial
    {
      ListedAppend(b.queue, r, n);
      LivesRemoved(b, a, n);
    }
  }

  lemma LivesRemoved(b: Book, a: nat, n: nat)
    requires Faithful(b) && a in b.live
    ensures Lives(b.live - {a}, n) <==> Lives(b.live, n) && n != b.live[a].serial
  {
    var l := b.live - {a};
    if Lives(b.live, n) && n != b.live[a].serial {
      var x :| x in b.live && b.live[x].serial == n;
      assert x in l && l[x].serial == n;
    }
    if Lives(l, n) {
      var x :| x in l && l[x].serial == n;
      assert b.live[x].serial == n && b.made[n] == b.live[x];
    }
  }

  /** The oldest waiting block goes back to the parent. */
  function Released(b: Book): Book
    requires b.queue != []
  {
    b.(queue := b.queue[1..], back := b.back + [b.queue[0]])
  }

  lemma ReleasedConserves(b: Book)
    requires Conserved(b) && AddressesApart(b) && b.queue != []
    ensures Conserved(Released(b)) && AddressesApart(Released(b))
  {
    var c, r := Released(b), b.queue[0];
    assert Listed(b.queue, r.serial);
    OnceAppend(b.back, r);
    forall n | n in c.made
      ensures Listed(c.queue, n) <==> Listed(b.queue, n) && n != r.serial
      ensures Listed(c.back, n) <==> Listed(b.back, n) || n == r.serial
    {
      ListedTail(b.queue, n);
      ListedAppend(b.back, r, n);
    }
  }

  // ----- the bytes of the live blocks

  ghost function LiveBytes(live: map<nat, Record>): nat {
    if live == map[] then 0
    else
      var a :| a in live;
      live[a].layout.size + LiveBytes(live - {a})
  }

  lemma {:induction false} LiveBytesWithout(live: map<nat, Record>, a: nat)
    requires a in live
    ensures LiveBytes(live) == live[a].layout.size + LiveBytes(live - {a})
    decreases |live|
  {
    var x :| x in live && LiveBytes(live) == live[x].layout.size + LiveBytes(live - {x});
    if x != a {
      LiveBytesWithout(live - {x}, a);
      LiveBytesWithout(live - {a}, x);
      assert live - {x} - {a} == live - {a} - {x};
    }
  }

  lemma LiveBytesWith(live: map<nat, Record>, r: Record)
    requires r.addr !in live
    ensures LiveBytes(live[r.addr := r]) == LiveBytes(live) + r.layout.size
  {
    LiveBytesWithout(live[r.addr := r], r.addr);
    assert live[r.addr := r] - {r.addr} == live;
  }

  /** The greatest value of a history. */
  function Highest(history: seq<nat>): nat {
    if history == [] then 0
    else
      var rest, last := Highest(history[..|history| - 1]), history[|history| - 1];
      if last > rest then last else rest
  }

  lemma HighestAppend(history: seq<nat>, v: nat)
    ensures Highest(history + [v]) == if v > Highest(history) then v else Highest(history)
  {
    assert (history + [v])[..|history|] == history;
  }

  // ----- memory

  type Memory = nat -> nat

  ghost predicate AllEqual(mem: Memory, start: nat, n: nat, fill: nat) {
    forall x :: start <= x < start + n ==> mem(x) == fill
  }

  function Filled(mem: Memory, start: nat, n: nat, fill: nat): Memory {
    (x: nat) => if start <= x < start + n then fill else mem(x)
  }

  ghost predicate GuardIntact(mem: Memory, r: Record) {
    AllEqual(mem, r.addr + r.layout.size, GUARD_SIZE, FILL_GUARD)
  }

  ghost predicate FreedIntact(mem: Memory, r: Record) {
    AllEqual(mem, r.addr, r.layout.size + GUARD_SIZE, FILL_FREED)
  }

  /** The bytes two blocks cost their parent, guards included, do not meet. */
  predicate Apart(r: Record, q: Record) {
    r.addr + r.layout.size + GUARD_SIZE <= q.addr || q.addr + q.layout.size + GUARD_SIZE <= r.addr
  }

  ghost predicate ApartFromAll(r: Record, b: Book) {
    && (forall a :: a in b.live ==> Apart(r, b.live[a]))
    && (forall i :: 0 <= i < |b.queue| ==> Apart(r, b.queue[i]))
  }

  ghost predicate RegionsApart(b: Book) {
    && (forall a, c :: a in b.live && c in b.live && a != c ==> Apart(b.live[a], b.live[c]))
    && (forall a, i :: a in b.live && 0 <= i < |b.queue| ==> Apart(b.live[a], b.queue[i]))
    && (forall i, j :: 0 <= i < j < |b.queue| ==> Apart(b.queue[i], b.queue[j]))
  }

  /** Every guard and every fill is as the allocator left it. */
  ghost predicate Untouched(mem: Memory, b: Book) {
    && (forall a :: a in b.live ==> GuardIntact(mem, b.live[a]))
    && (forall i :: 0 <= i < |b.queue| ==> FreedIntact(mem, b.queue[i]))
  }

  ghost predicate Clean(mem: Memory, b: Book) {
    RegionsApart(b) && Untouched(mem, b)
  }

  /** The memory of a new block: its bytes, then the guard. */
  function NewBlock(mem: Memory, r: Record): Memory {
    Filled(Filled(mem, r.addr, r.layout.size, FILL_NEW), r.addr + r.layout.size, GUARD_SIZE, FILL_GUARD)
  }

  function FreedBlock(mem: Memory, r: Record): Memory {
    Filled(mem, r.addr, r.layout.size + GUARD_SIZE, FILL_FREED)
  }

  /** A served block reads as new, its guard as a guard, and every other byte as before. */
  ghost predicate ReadsNew(m: Memory, m': Memory, r: Record) {
    forall x: nat ::
      m'(x) == if r.addr <= x < r.addr + r.layout.size then FILL_NEW
               else if r.addr + r.layout.size <= x < r.addr + r.layout.size + GUARD_SIZE then FILL_GUARD
               else m(x)
  }

  /** A freed block reads as freed, guard and all, and every other byte as before. */
  ghost predicate ReadsFreed(m: Memory, m': Memory, r: Record) {
    forall x: nat ::
      m'(x) == if r.addr <= x < r.addr + r.layout.size + GUARD_SIZE then FILL_FREED else m(x)
  }

  lemma BlocksRead(m: Memory, r: Record)
    ensures ReadsNew(m, NewBlock(m, r), r) && ReadsFreed(m, FreedBlock(m, r), r)
  {
  }

  /** The fills tell a new byte, a freed one and a guard apart, and there is a guard to look at. */
  lemma FillsDiffer()
    ensures GUARD_SIZE == 16 && FILL_NEW == 0xCD && FILL_FREED == 0xDD && FILL_GUARD == 0xFD
    ensures GUARD_SIZE > 0 && FILL_NEW != FILL_FREED && FILL_FREED != FILL_GUARD && FILL_GUARD != FILL_NEW
  {
  }

  lemma AllottedClean(mem: Memory, b: Book, r: Record)
    requires Clean(mem, b) && ApartFromAll(r, b) && r.addr !in b.live
    ensures Clean(NewBlock(mem, r), Allotted(b, r))
  {
    var c, m := Allotted(b, r), NewBlock(mem, r);
    forall a | a in c.live ensures GuardIntact(m, c.live[a]) {
      if a != r.addr {
        assert GuardIntact(mem, b.live[a]) && Apart(r, b.live[a]);
      }
    }
    forall i | 0 <= i < |c.queue| ensures FreedIntact(m, c.queue[i]) {
      assert FreedIntact(mem, b.queue[i]) && Apart(r, b.queue[i]);
    }
  }

  lemma FreedClean(mem: Memory, b: Book, a: nat)
    requires Clean(mem, b) && a in b.live
    ensures Clean(FreedBlock(mem, b.live[a]), Freed(b, a))
  {
    var c, r, m := Freed(b, a), b.live[a], FreedBlock(mem, b.live[a]);
    forall x | x in c.live ensures GuardIntact(m, c.live[x]) {
      assert GuardIntact(mem, b.live[x]) && Apart(r, b.live[x]);
    }
    forall i | 0 <= i < |c.queue| ensures FreedIntact(m, c.queue[i]) {
      if i < |b.queue| {
        assert FreedIntact(mem, b.queue[i]) && Apart(r, b.queue[i]);
      }
    }
  }

  lemma ReleasedClean(mem: Memory, b: Book)
    requires Clean(mem, b) && b.queue != []
    ensures Clean(mem, Released(b)) && FreedIntact(mem, b.queue[0])
  {
    var c := Released(b);
    assert forall i :: 0 <= i < |c.queue| ==> c.queue[i] == b.queue[i + 1];
  }

  /** A write inside a live block touches no guard and no fill. */
  lemma WriteClean(mem: Memory, b: Book, a: nat, x: nat, v: nat)
    requires Clean(mem, b) && a in b.live && a == b.live[a].addr && a <= x < a + b.live[a].layout.size
    ensures Clean(Filled(mem, x, 1, v), b)
  {
    var m := Filled(mem, x, 1, v);
    forall c | c in b.live ensures GuardIntact(m, b.live[c]) {
      assert GuardIntact(mem, b.live[c]) && (c != a ==> Apart(b.live[a], b.live[c]));
    }
    forall i | 0 <= i < |b.queue| ensures FreedIntact(m, b.queue[i]) {
      assert FreedIntact(mem, b.queue[i]) && Apart(b.live[a], b.queue[i]);
    }
  }

  // ----- the quarantine ring

  function Slot(head: nat, i: nat): (k: nat)
    ensures k < QUARANTINE_LEN
  {
    (head + i) % QUARANTINE_LEN
  }

  /** The waiting blocks, oldest first. */
  function Waiting(ring: seq<Record>, head: nat, n: nat): (q: seq<Record>)
    requires |ring| == QUARANTINE_LEN && n <= QUARANTINE_LEN
    ensures |q| == n
  {
    seq(n, (i: nat) => ring[Slot(head, i)])
  }

  lemma WaitingPop(ring: seq<Record>, head: nat, n: nat)
    requires |ring| == QUARANTINE_LEN && 0 < n <= QUARANTINE_LEN && head < QUARANTINE_LEN
    ensures Waiting(ring, Slot(head, 1), n - 1) == Waiting(ring, head, n)[1..]
    ensures Waiting(ring, head, n)[0] == ring[Slot(head, 0)]
  {
    assert forall i :: 0 <= i < n - 1 ==> Slot(Slot(head, 1), i) == Slot(head, i + 1);
  }

  lemma WaitingPush(ring: seq<Record>, head: nat, n: nat, r: Record)
    requires |ring| == QUARANTINE_LEN && n < QUARANTINE_LEN && head < QUARANTINE_LEN
    ensures Waiting(ring[Slot(head, n) := r], head, n + 1) == Waiting(ring, head, n) + [r]
  {
    assert forall i :: 0 <= i < n ==> Slot(head, i) != Slot(head, n);
  }

  predicate Holds(s: seq<Record>, addr: nat) {
    exists i :: 0 <= i < |s| && s[i].addr == addr
  }

  /** The ring of blocks held back, with the sequence it stands for. */
  class Quarantine {
    const ring: array<Record>
    var head: nat
    var len: nat
    ghost var queue: seq<Record>

    ghost predicate Valid()
      reads this, ring
    {
      && ring.Length == QUARANTINE_LEN && head < QUARANTINE_LEN && len <= QUARANTINE_LEN
      && queue == Waiting(ring[..], head, len)
    }

    constructor ()
      ensures Valid() && fresh(ring) && queue == []
    {
      ring := new Record[QUARANTINE_LEN](_ => EMPTY);
      head, len, queue := 0, 0, [];
    }

    /** quarantine_find. */
    method Find(addr: nat) returns (found: bool)
      requires Valid()
      ensures found <==> Holds(queue, addr)
    {
      var i := 0;
      while i < len
        invariant i <= len && forall j :: 0 <= j < i ==> queue[j].addr != addr
      {
        if ring[Slot(head, i)].addr == addr {
          assert queue[i].addr == addr;
          return true;
        }
        i := i + 1;
      }
      found := false;
    }

    /** The ring part of release_oldest. */
    method Pop() returns (freed: Record)
      requires Valid() && queue != []
      modifies this
      ensures Valid() && freed == old(queue)[0] && queue == old(queue)[1..]
    {
      WaitingPop(ring[..], head, len);
      freed := ring[Slot(head, 0)];
      head, len, queue := Slot(head, 1), len - 1, queue[1..];
    }

    /** The ring part of quarantine_push. */
    method Push(freed: Record)
      requires Valid() && |queue| < QUARANTINE_LEN
      modifies this, ring
      ensures Valid() && queue == old(queue) + [freed]
    {
      ghost var r := ring[..];
      WaitingPush(r, head, len, freed);
      ring[Slot(head, len)] := freed;
      assert ring[..] == r[Slot(head, len) := freed];
      len, queue := len + 1, queue + [freed];
    }
  }
}
