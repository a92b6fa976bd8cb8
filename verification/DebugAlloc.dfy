/** The debug allocator of src/alloc/debug.c over a given parent, memory and client. */
module DebugAlloc {
  import opened Core
  import opened BlockTable
  import opened Ledger

  /** Why the allocator stops the program. */
  datatype Reason = Break | HandedOutLive | HandedOutWaiting | FreedTwice | NotOurs | WrongLayout
                  | WrittenPastEnd | WrittenAfterFree

  datatype Outcome = Served(addr: nat) | Refused | Done | Halted(reason: Reason)

  /** The failure point lies behind the request with this serial. */
  predicate Refuses(failAfter: nat, serial: nat) {
    serial > failAfter
  }

  class DebugAllocator {
    const table: Table
    const quarantine: Quarantine
    var liveBytes: nat
    var peakBytes: nat
    var requests: nat
    var failAfter: nat
    var breakAt: nat
    var mem: Memory  // the bytes behind every address

    ghost var made: map<nat, Record>  // every block taken from the parent, by serial
    ghost var back: seq<Record>       // the blocks given back to it
    ghost var history: seq<nat>       // liveBytes after each operation
    ghost var clean: bool             // parent and client have kept to their blocks

    ghost function Account(): Book
      reads this, table, quarantine
    {
      Book(made, table.entries, quarantine.queue, back)
    }

    ghost predicate Valid()
      reads this, table, table.slots, quarantine, quarantine.ring
    {
      && table.Valid() && quarantine.Valid() && table.slots != quarantine.ring
      && Conserved(Account()) && AddressesApart(Account())
      && SerialsUpTo(made, requests)
      && liveBytes == LiveBytes(table.entries) && liveBytes <= peakBytes == Highest(history)
      && (clean ==> Clean(mem, Account()))
    }

    constructor (hash: Hash, memory: Memory)
      ensures Valid() && fresh(table) && fresh(table.slots) && fresh(quarantine) && fresh(quarantine.ring) && clean
      ensures Account() == Book(map[], map[], [], []) && history == [] && requests == 0 && mem == memory
      ensures liveBytes == 0 && peakBytes == 0 && breakAt == 0
      ensures forall n: nat :: n <= SIZE_MAX ==> !Refuses(failAfter, n)
    {
      hide Conserved, AddressesApart, Clean, LiveBytes, Highest, SerialsUpTo;
      NothingYet(memory);
      table := new Table(hash);
      quarantine := new Quarantine();
      liveBytes, peakBytes, requests := 0, 0, 0;
      failAfter, breakAt, mem := SIZE_MAX, 0, memory;
      made, back, history, clean := map[], [], [], true;
    }

    /** all_equal. */
    method CheckFill(start: nat, n: nat, fill: nat) returns (ok: bool)
      ensures ok <==> AllEqual(mem, start, n, fill)
    {
      var i := 0;
      while i < n
        invariant i <= n && AllEqual(mem, start, i, fill)
      {
        if mem(start + i) != fill {
          return false;
        }
        i := i + 1;
      }
      ok := true;
    }

    // ----- the operations

    /** next_serial: the break comes first, then the refusal. */
    method NextSerial() returns (outcome: Outcome)
      modifies this`requests
      ensures requests == old(requests) + 1
      ensures outcome == if requests == breakAt then Halted(Break)
                         else if Refuses(failAfter, requests) then Refused else Done
    {
      requests := requests + 1;
      if requests == breakAt {
        return Halted(Break);
      }
      outcome := if Refuses(failAfter, requests) then Refused else Done;
    }

    /**
     debug_alloc.  `offered` is what the parent answers, 0 when it refuses; `granted` whether
     the table could grow if it had to.
     */
    method Alloc(layout: Layout, offered: nat, granted: bool) returns (outcome: Outcome)
      requires Valid() && layout.size > 0
      modifies this`requests, this`made, this`back, this`mem, this`liveBytes, this`peakBytes, this`history, this`clean
      modifies table, table.slots
      ensures requests == old(requests) + 1 && (table.slots == old(table.slots) || fresh(table.slots))
      ensures outcome.Halted? <==>
                || requests == breakAt
                || (requests <= failAfter && layout.size + GUARD_SIZE <= SIZE_MAX && offered != 0
                    && (offered in old(table.entries) || Holds(old(Account()).queue, offered)))
      ensures outcome.Served? <==>
                && !outcome.Halted? && requests <= failAfter && layout.size + GUARD_SIZE <= SIZE_MAX && offered != 0
                && Roomy(old(table.len), old(table.slots.Length), granted)
      ensures !outcome.Halted? ==> Valid() && history == old(history) + [liveBytes]
      ensures outcome.Served? ==>
                && table.entries == old(table.entries)[offered := Record(offered, layout, requests)]
                && quarantine.queue == old(quarantine.queue) && back == old(back)
                && ReadsNew(old(mem), mem, Record(offered, layout, requests))
      ensures outcome == Refused ==>
                table.entries == old(table.entries) && quarantine.queue == old(quarantine.queue) && mem == old(mem)
      ensures var r := Record(offered, layout, requests);
              match outcome
              case Served(a) =>
                && a == offered && a != 0
                && Account() == Allotted(old(Account()), r) && mem == NewBlock(old(mem), r)
                && clean == (old(clean) && ApartFromAll(r, old(Account())))
              case Refused =>
                && Account() == (if requests <= failAfter && layout.size + GUARD_SIZE <= SIZE_MAX && offered != 0
                                 then Bounced(old(Account()), r) else old(Account()))
                && mem == old(mem) && clean == old(clean)
              case Halted(_) => true
              case Done => false
    {
      hide Conserved, AddressesApart, Clean, LiveBytes, Highest, Quarantine.Valid, Table.Valid, SerialsUpTo, NewBlock,
           ReadsNew, ApartFromAll;
      SerialsGrow(made, requests, EMPTY);
      var turn := NextSerial();
      if turn.Halted? {
        return turn;
      }
      if turn.Refused? || layout.size + GUARD_SIZE > SIZE_MAX || offered == 0 {
        HighestAppend(history, liveBytes);
        history := history + [liveBytes];
        return Refused;
      }
      var found, _ := table.Find(offered);
      if found {
        return Halted(HandedOutLive);
      }
      var waits := quarantine.Find(offered);
      if waits {
        return Halted(HandedOutWaiting);
      }
      BlocksRead(mem, Record(offered, layout, requests));
      outcome := Enter(Record(offered, layout, requests), granted);
    }

    /** The end of debug_alloc: the block is recorded and filled, or handed straight back. */
    method Enter(r: Record, granted: bool) returns (outcome: Outcome)
      requires Valid() && r.addr != 0 && r.serial == requests && r.serial > 0 && r.serial !in made
      requires r.addr !in table.entries && !Holds(Account().queue, r.addr)
      modifies this`made, this`back, this`mem, this`liveBytes, this`peakBytes, this`history, this`clean
      modifies table, table.slots
      ensures Valid() && history == old(history) + [liveBytes]
      ensures table.slots == old(table.slots) || fresh(table.slots)
      ensures outcome == if Roomy(old(table.len), old(table.slots.Length), granted) then Served(r.addr) else Refused
      ensures Account() == if outcome.Served? then Allotted(old(Account()), r) else Bounced(old(Account()), r)
      ensures mem == if outcome.Served? then NewBlock(old(mem), r) else old(mem)
      ensures clean == (old(clean) && (outcome.Served? ==> ApartFromAll(r, old(Account()))))
    {
      ghost var b := Account();
      hide Conserved, AddressesApart, Clean, LiveBytes, Highest, Quarantine.Valid, SerialsUpTo, NewBlock,
           ApartFromAll, Table.Valid;
      NotHeld(b.queue, r.addr);
      SerialsGrow(made, requests, r);
      var ok := table.Insert(r, granted);
      if ok {
        AllottedConserves(b, r);
        Admit(r, b);
        outcome := Served(r.addr);
      } else {
        BouncedConserves(b, r);
        HandBack(r, b);
        outcome := Refused;
      }
    }

    /** Fills the new block and counts its bytes. */
    method Admit(r: Record, ghost b: Book)
      requires r.addr !in b.live
      requires Account() == b.(live := b.live[r.addr := r])
      requires liveBytes == LiveBytes(b.live) && liveBytes <= peakBytes == Highest(history)
      requires clean ==> Clean(mem, b)
      modifies this`made, this`mem, this`liveBytes, this`peakBytes, this`history, this`clean
      ensures Account() == Allotted(b, r) && mem == NewBlock(old(mem), r)
      ensures liveBytes == LiveBytes(table.entries) && liveBytes <= peakBytes == Highest(history)
      ensures history == old(history) + [liveBytes]
      ensures clean == (old(clean) && ApartFromAll(r, b)) && (clean ==> Clean(mem, Account()))
    {
      hide Conserved, Clean, LiveBytes, Highest, Quarantine.Valid, Table.Valid, SerialsUpTo, NewBlock, ApartFromAll;
      if clean && ApartFromAll(r, b) {
        AllottedClean(mem, b, r);
      }
      LiveBytesWith(b.live, r);
      var bytes := liveBytes + r.layout.size;
      HighestAppend(history, bytes);
      if bytes > peakBytes {
        peakBytes := bytes;
      }
      liveBytes, mem := bytes, NewBlock(mem, r);
      made, history, clean := made[r.serial := r], history + [bytes], clean && ApartFromAll(r, b);
    }

    /** The table could not grow: the block goes back to the parent at once. */
    method HandBack(r: Record, ghost b: Book)
      requires Account() == b
      requires liveBytes <= peakBytes == Highest(history) && (clean ==> Clean(mem, b))
      modifies this`made, this`back, this`history
      ensures Account() == Bounced(b, r) && history == old(history) + [liveBytes]
      ensures liveBytes <= peakBytes == Highest(history) && (clean ==> Clean(mem, Account()))
    {
      hide Conserved, Clean, Highest, Quarantine.Valid, Table.Valid, SerialsUpTo;
      BouncedStaysClean(mem, b, r);
      HighestAppend(history, liveBytes);
      made, back, history := made[r.serial := r], back + [r], history + [liveBytes];
    }

    /** checked_entry without taking: what a resize is checked for before anything is copied. */
    method CheckEntry(addr: nat, layout: Layout) returns (outcome: Outcome)
      requires Valid() && addr != 0
      ensures outcome == if addr !in table.entries then
                           Halted(if Holds(Account().queue, addr) then FreedTwice else NotOurs)
                         else if table.entries[addr].layout != layout then Halted(WrongLayout)
                         else Done
    {
      hide Conserved, AddressesApart, Clean, LiveBytes, Highest, Quarantine.Valid, Table.Valid, SerialsUpTo;
      var found, r := table.Find(addr);
      if !found {
        var waits := quarantine.Find(addr);
        return Halted(if waits then FreedTwice else NotOurs);
      }
      outcome := if r.layout != layout then Halted(WrongLayout) else Done;
    }

    /**
     debug_dealloc: the verdict, and the block in the quarantine when there is nothing to object to.
     */
    method Dealloc(addr: nat, layout: Layout) returns (outcome: Outcome)
      requires Valid() && addr != 0
      modifies this`liveBytes, this`mem, this`back, this`history, table`len, table`entries, table.slots,
               quarantine, quarantine.ring
      ensures Judged(outcome, old(mem), old(Account()), addr, layout) && (outcome == Done || outcome.Halted?)
      ensures outcome == DeallocOutcome(old(mem), old(Account()), addr, layout)
      ensures outcome == Done ==>
                && addr in old(table.entries) && table.entries == old(table.entries) - {addr}
                && ReadsFreed(old(mem), mem, old(table.entries)[addr])
                && quarantine.queue == old(if |quarantine.queue| == 64 then quarantine.queue[1..] else quarantine.queue)
                                       + [old(table.entries)[addr]]
                && back == old(back) + old(if |quarantine.queue| == 64 then [quarantine.queue[0]] else [])
      ensures outcome == Done ==> Valid() && Account() == GivenBack(old(Account()), addr)
      ensures outcome == Done ==> mem == FreedBlock(old(mem), old(table.entries)[addr])
      ensures outcome == Done ==> history == old(history) + [liveBytes]
    {
      hide Conserved, AddressesApart, Clean, LiveBytes, Highest, Quarantine.Valid, Table.Valid, SerialsUpTo, FreedBlock;
      hide Judged, DeallocOutcome, ReadsFreed, FreedIntact;
      ghost var b, m := Account(), mem;
      Judges(m, b, addr, layout);
      outcome := GiveBack(addr, layout);
      if outcome == Done {
        BlocksRead(m, b.live[addr]);
      }
    }

    /** The checks in the order of the source; the oldest waiting block is released only by a full quarantine. */
    method GiveBack(addr: nat, layout: Layout) returns (outcome: Outcome)
      requires Valid() && addr != 0
      modifies this`liveBytes, this`mem, this`back, this`history, table`len, table`entries, table.slots,
               quarantine, quarantine.ring
      ensures outcome == DeallocOutcome(old(mem), old(Account()), addr, layout)
      ensures outcome == Done ==> addr in old(table.entries)
      ensures outcome == Done ==> Valid() && Account() == GivenBack(old(Account()), addr)
      ensures outcome == Done ==> mem == FreedBlock(old(mem), old(table.entries)[addr])
      ensures outcome == Done ==> history == old(history) + [liveBytes]
    {
      hide Conserved, AddressesApart, Clean, LiveBytes, Highest, Quarantine.Valid, Table.Valid, SerialsUpTo, FreedBlock;
      hide GuardIntact, FreedIntact, AllEqual;
      ghost var b, m := Account(), mem;
      var found, r := table.Take(addr);
      if !found {
        var waits := quarantine.Find(addr);
        return Halted(if waits then FreedTwice else NotOurs);
      }
      if r.layout != layout {
        return Halted(WrongLayout);
      }
      AddressOfLive(b, addr);
      var guard := CheckFill(addr + layout.size, GUARD_SIZE, FILL_GUARD);
      GuardCheck(mem, r);
      if !guard {
        return Halted(WrittenPastEnd);
      }
      mem := FreedBlock(mem, r);
      outcome := Quarantined(r);
      if outcome == Done {
        GivenBackKeeps(m, b, addr);
        var bytes := liveBytes - layout.size;
        HighestAppend(history, bytes);
        liveBytes, history := bytes, history + [bytes];
      }
    }

    /** quarantine_push: the newest block comes in, and when the ring is full the oldest goes back. */
    method Quarantined(r: Record) returns (outcome: Outcome)
      requires quarantine.Valid()
      modifies this`back, quarantine, quarantine.ring
      ensures quarantine.Valid() && (outcome == Done || outcome == Halted(WrittenAfterFree))
      ensures var q, full := old(quarantine.queue), |old(quarantine.queue)| == QUARANTINE_LEN;
              && (outcome == Done <==> !full || FreedIntact(mem, q[0]))
              && (outcome == Done ==> quarantine.queue == (if full then q[1..] else q) + [r])
              && (outcome == Done ==> back == if full then old(back) + [q[0]] else old(back))
    {
      hide AllEqual;
      if quarantine.len == QUARANTINE_LEN {
        outcome := ReleaseOldest();
        if outcome != Done {
          return;
        }
      }
      quarantine.Push(r);
      outcome := Done;
    }

    /** release_oldest: the oldest waiting block goes back to the parent, its fill checked. */
    method ReleaseOldest() returns (outcome: Outcome)
      requires quarantine.Valid() && quarantine.queue != []
      modifies this`back, quarantine
      ensures quarantine.Valid() && quarantine.queue == old(quarantine.queue)[1..]
      ensures outcome == if FreedIntact(mem, old(quarantine.queue)[0]) then Done else Halted(WrittenAfterFree)
      ensures back == if outcome == Done then old(back) + [old(quarantine.queue)[0]] else old(back)
    {
      hide AllEqual;
      var freed := quarantine.Pop();
      var intact := CheckFill(freed.addr, freed.layout.size + GUARD_SIZE, FILL_FREED);
      if !intact {
        return Halted(WrittenAfterFree);
      }
      back := back + [freed];
      outcome := Done;
    }

    /** tda_debug_flush_quarantine. */
    method Flush() returns (outcome: Outcome)
      requires Valid()
      modifies this`back, quarantine
      ensures outcome == Done
              <==> forall i :: 0 <= i < |old(quarantine.queue)| ==> FreedIntact(mem, old(quarantine.queue)[i])
      ensures outcome == Done || outcome == Halted(WrittenAfterFree)
      ensures outcome == Done ==> Valid() && quarantine.queue == [] && back == old(back) + old(quarantine.queue)
    {
      hide Conserved, AddressesApart, Clean, LiveBytes, Highest, Quarantine.Valid, Table.Valid, SerialsUpTo,
           FreedIntact;
      ghost var q, b0 := quarantine.queue, back;
      ghost var n := 0;
      QuarantineSize();
      assert q[0..] == q && b0 + q[..0] == b0;
      while quarantine.len > 0
        invariant n <= |q| && quarantine.queue == q[n..] && back == b0 + q[..n] && Valid()
        invariant forall i :: 0 <= i < n ==> FreedIntact(mem, q[i])
        decreases |q| - n
      {
        QuarantineSize();
        ghost var b := Account();
        ReleasedConserves(b);
        if clean {
          ReleasedClean(mem, b);
        }
        assert q[n..][1..] == q[n + 1..] && q[..n + 1] == q[..n] + [q[n]];
        outcome := ReleaseOldest();
        if outcome != Done {
          return;
        }
        n := n + 1;
      }
      QuarantineSize();
      assert q[..n] == q;
      outcome := Done;
    }

    lemma TableRoom(granted: bool)
      requires table.Valid()
      ensures granted && !Crowded(|table.entries|) ==> Roomy(table.len, table.slots.Length, granted)
    {
      hide Represents, Reachable, IsRingSize;
    }

    lemma QuarantineSize()
      requires quarantine.Valid()
      ensures quarantine.len == |quarantine.queue|
    {
    }

    /** The client writes one byte, anywhere. */
    method Write(x: nat, v: nat)
      requires Valid()
      modifies this`mem, this`clean
      ensures Valid() && mem == Filled(old(mem), x, 1, v)
      ensures clean == (old(clean) && InLiveBlock(table.entries, x))
    {
      hide Conserved, AddressesApart, Clean, LiveBytes, Highest, Quarantine.Valid, Table.Valid, SerialsUpTo, Filled;
      if clean && InLiveBlock(table.entries, x) {
        WriteStaysClean(mem, Account(), x, v);
      }
      mem, clean := Filled(mem, x, 1, v), clean && InLiveBlock(table.entries, x);
    }

    /** What an operation comes to when the program goes on, and who is not stopped. */
    twostate predicate Steps(op: Op, outcome: Outcome)
      reads this, table, table.slots, quarantine, quarantine.ring
    {
      && (!outcome.Halted? ==>
            && Valid() && breakAt == old(breakAt) && failAfter == old(failAfter)
            && Follows(op, old(Account()), Account(), old(requests), old(failAfter))
            && requests == old(requests) + (if op.OpAlloc? then 1 else 0)
            && Rewrites(op, old(Account()), Account(), old(mem), mem, old(requests))
            && Passes(op, old(Account()), Account(), old(mem), old(requests))
            && (history == old(history) || history == old(history) + [liveBytes])
            && peakBytes == if liveBytes > old(peakBytes) then liveBytes else old(peakBytes))
      && (old(clean) && Obeys(op, old(Account()), old(requests), old(breakAt)) ==> !outcome.Halted? && clean)
    }

    /** One operation of a run. */
    method Perform(op: Op) returns (outcome: Outcome)
      requires Valid() && op.WellFormed()
      modifies this, table, table.slots, quarantine, quarantine.ring
      ensures table.slots == old(table.slots) || fresh(table.slots)
      ensures !outcome.Halted? ==> Valid() && breakAt == old(breakAt) && failAfter == old(failAfter)
      ensures !outcome.Halted? ==> Follows(op, old(Account()), Account(), old(requests), old(failAfter))
      ensures !outcome.Halted? ==> requests == old(requests) + if op.OpAlloc? then 1 else 0
      ensures !outcome.Halted? ==> Rewrites(op, old(Account()), Account(), old(mem), mem, old(requests))
      ensures !outcome.Halted? ==> Passes(op, old(Account()), Account(), old(mem), old(requests))
      ensures !outcome.Halted? ==> history == old(history) || history == old(history) + [liveBytes]
      ensures !outcome.Halted? ==> peakBytes == if liveBytes > old(peakBytes) then liveBytes else old(peakBytes)
      ensures old(clean) && Obeys(op, old(Account()), old(requests), old(breakAt)) ==> !outcome.Halted? && clean
    {
      hide Valid, Follows, Rewrites, Passes, Obeys;
      if op.OpAlloc? {
        outcome := PerformAlloc(op);
      } else if op.OpFree? {
        outcome := PerformFree(op);
      } else {
        outcome := PerformOther(op);
      }
    }

    method PerformAlloc(op: Op) returns (outcome: Outcome)
      requires Valid() && op.WellFormed() && op.OpAlloc?
      modifies this, table, table.slots
      ensures (table.slots == old(table.slots) || fresh(table.slots)) && Steps(op, outcome)
    {
      hide Conserved, AddressesApart, Clean, LiveBytes, Highest, Quarantine.Valid, Table.Valid, SerialsUpTo;
      hide FreedBlock, ApartFromAll, Allotted, Bounced, NewBlock, Holds, GivenBack, InLiveBlock, Roomy, Crowded;
      hide Rewrites, Passes, Judged, ReadsNew, ReadsFreed, FreedIntact, Filled, DeallocOutcome;
      ghost var b, h, m, n := Account(), history, mem, requests;
      if ApartFromAll(Record(op.offered, op.layout, requests + 1), b) {
        ApartIsElsewhere(b, Record(op.offered, op.layout, requests + 1));
      }
      TableRoom(op.granted);
      SerialsGrow(made, requests, EMPTY);
      outcome := Alloc(op.layout, op.offered, op.granted);
      HighestAppend(h, liveBytes);
      if !outcome.Halted? {
        AllocPasses(op, b, Account(), m, mem, n);
      }
    }

    method PerformFree(op: Op) returns (outcome: Outcome)
      requires Valid() && op.WellFormed() && op.OpFree?
      modifies this, table, table.slots, quarantine, quarantine.ring
      ensures table.slots == old(table.slots) && Steps(op, outcome)
    {
      hide Conserved, AddressesApart, Clean, LiveBytes, Highest, Quarantine.Valid, Table.Valid, SerialsUpTo;
      hide FreedBlock, ApartFromAll, Allotted, Bounced, NewBlock, Holds, GivenBack, InLiveBlock, Roomy, Crowded;
      hide Rewrites, Passes, Judged, ReadsNew, ReadsFreed, FreedIntact, Filled, DeallocOutcome;
      ghost var b, h, m, n := Account(), history, mem, requests;
      LiveAddresses(b);
      if clean && op.addr in b.live && b.live[op.addr].layout == op.layout {
        NoFalseAlarm(mem, b, op.addr, op.layout);
      }
      outcome := Dealloc(op.addr, op.layout);
      HighestAppend(h, liveBytes);
      if !outcome.Halted? {
        FreePasses(op, b, Account(), m, mem, n);
      }
    }

    method PerformOther(op: Op) returns (outcome: Outcome)
      requires Valid() && op.WellFormed() && (op.OpResize? || op.OpWrite? || op.OpFlush?)
      modifies this, quarantine
      ensures table.slots == old(table.slots) && Steps(op, outcome)
    {
      hide Conserved, AddressesApart, Clean, LiveBytes, Highest, Quarantine.Valid, Table.Valid, SerialsUpTo;
      hide FreedBlock, ApartFromAll, Allotted, Bounced, NewBlock, Holds, GivenBack, InLiveBlock, Roomy, Crowded;
      hide Rewrites, Passes, Judged, ReadsNew, ReadsFreed, FreedIntact, Filled, DeallocOutcome;
      ghost var b, m, n := Account(), mem, requests;
      match op {
        case OpResize(addr, layout) =>
          outcome := CheckEntry(addr, layout);
        case OpWrite(x, v) =>
          Write(x, v);
          outcome := Done;
        case OpFlush =>
          if clean {
            CleanQueue(mem, b);
          }
          outcome := Flush();
      }
      if !outcome.Halted? {
        OtherPasses(op, b, Account(), m, mem, n);
      }
    }

    /**
     A whole run.  `trace` is the account before each operation and at the end, and `mems` the memory:
     each follows from the one before, the accounts hold as long as the program is not stopped, the peak
     is the running maximum of the live bytes, and the program is stopped only when client or parent did
     not keep to their blocks, in this run or before.
     */
    method Run(ops: seq<Op>) returns (stopped: bool, ghost trace: seq<Book>, ghost mems: seq<Memory>)
      requires Valid() && forall i :: 0 <= i < |ops| ==> ops[i].WellFormed()
      modifies this, table, table.slots, quarantine, quarantine.ring
      ensures 0 < |trace| <= |ops| + 1 && trace[0] == old(Account())
      ensures forall i :: 0 <= i < |trace| - 1 ==>
                Follows(ops[i], trace[i], trace[i + 1], old(requests) + Requests(ops, i), old(failAfter))
      ensures !stopped ==> Valid() && |trace| == |ops| + 1 && trace[|ops|] == Account()
      ensures !stopped ==> RunningMax(trace, old(peakBytes), peakBytes)
      ensures Watched(ops, trace, mems, old(requests)) && mems[0] == old(mem) && (!stopped ==> mems[|ops|] == mem)
      ensures !stopped && old(clean) && AllObey(ops, trace, old(requests), old(breakAt), |ops|) ==> clean
      ensures table.slots == old(table.slots) || fresh(table.slots)
      ensures !stopped ==> requests == old(requests) + Requests(ops, |ops|)
      ensures !stopped ==> breakAt == old(breakAt) && failAfter == old(failAfter)
      ensures stopped ==> |trace| <= |ops| && !(old(clean) && AllObey(ops, trace, old(requests), old(breakAt), |trace|))
    {
      hide *;
      var i := 0;
      trace, mems := [Account()], [mem];
      WatchedStart(ops, Account(), mem, requests);
      NoneYet(ops, trace, requests, breakAt);
      CountIs();
      FirstPeak(Account(), peakBytes);
      while i < |ops|
        invariant i <= |ops| && Valid() && |trace| == i + 1 && trace[i] == Account() && trace[0] == old(Account())
        invariant requests == old(requests) + Requests(ops, i) && breakAt == old(breakAt)
        invariant old(clean) && AllObey(ops, trace, old(requests), breakAt, i) ==> clean
        invariant forall k :: 0 <= k < i ==>
                    Follows(ops[k], trace[k], trace[k + 1], old(requests) + Requests(ops, k), failAfter)
        invariant Watched(ops, trace, mems, old(requests)) && |mems| == i + 1 && mems[i] == mem && mems[0] == old(mem)
        invariant failAfter == old(failAfter) && RunningMax(trace, old(peakBytes), peakBytes)
        invariant table.slots == old(table.slots) || fresh(table.slots)
      {
        OneMore(ops, trace, old(requests), breakAt, i);
        ghost var peak := peakBytes;
        var outcome := Perform(ops[i]);
        if outcome.Halted? {
          return true, trace, mems;
        }
        CountIs();
        NextPeak(trace, Account(), old(peakBytes), peak);
        SameStart(ops, trace, Account(), old(requests), breakAt, i + 1);
        WatchedStep(ops, trace, mems, old(requests), Account(), mem);
        trace, mems := trace + [Account()], mems + [mem];
        i := i + 1;
      }
      stopped := false;
    }

    lemma CountIs()
      requires Valid()
      ensures liveBytes == LiveBytes(Account().live) && liveBytes <= peakBytes
    {
      hide Conserved, AddressesApart, Clean, LiveBytes, Highest, Quarantine.Valid, Table.Valid, SerialsUpTo;
    }

    /**
     tda_debug_fail_after: of the requests to come, as long as a serial is left for them, those past
     the first `count` are refused and no other is.
     */
    method FailAfter(count: nat)
      requires Valid()
      modifies this`failAfter
      ensures Valid()
      ensures forall n: nat :: requests < n <= SIZE_MAX ==> (Refuses(failAfter, n) <==> n > requests + count)
    {
      failAfter := if requests + count > SIZE_MAX then SIZE_MAX else requests + count;
    }

    /**
     A run with faults injected: the first `count` requests of the run are answered as the parent
     answers, and every one after them is refused and changes nothing, as long as there are serials left.
     */
    method RunFailing(count: nat, ops: seq<Op>)
      returns (stopped: bool, ghost trace: seq<Book>, ghost mems: seq<Memory>)
      requires Valid() && forall i :: 0 <= i < |ops| ==> ops[i].WellFormed()
      modifies this, table, table.slots, quarantine, quarantine.ring
      ensures 0 < |trace| <= |ops| + 1 && trace[0] == old(Account())
      ensures forall i :: 0 <= i < |trace| - 1 && ops[i].OpAlloc? && old(requests) + Requests(ops, i) < SIZE_MAX ==>
                Answers(ops[i], trace[i], trace[i + 1], old(requests) + Requests(ops, i), Requests(ops, i) < count)
      ensures !stopped ==> Valid() && |trace| == |ops| + 1 && trace[|ops|] == Account()
      ensures Watched(ops, trace, mems, old(requests)) && mems[0] == old(mem) && (!stopped ==> mems[|ops|] == mem)
      ensures !stopped && old(clean) && AllObey(ops, trace, old(requests), old(breakAt), |ops|) ==> clean
      ensures table.slots == old(table.slots) || fresh(table.slots)
      ensures stopped ==> |trace| <= |ops| && !(old(clean) && AllObey(ops, trace, old(requests), old(breakAt), |trace|))
    {
      hide Valid, Answers, Requests, AllObey, RunningMax, Watched;
      ghost var before := requests;
      FailAfter(count);
      ghost var limit := failAfter;
      stopped, trace, mems := Run(ops);
      forall i | 0 <= i < |trace| - 1 && ops[i].OpAlloc? && before + Requests(ops, i) < SIZE_MAX
        ensures Answers(ops[i], trace[i], trace[i + 1], before + Requests(ops, i), Requests(ops, i) < count)
      {
        assert Refuses(limit, before + Requests(ops, i) + 1) <==> Requests(ops, i) + 1 > count;
      }
    }
  }

  /** Something the client does, with what the parent and the table's own allocator answer to it. */
  datatype Op = OpAlloc(layout: Layout, offered: nat, granted: bool) | OpFree(addr: nat, layout: Layout)
              | OpResize(addr: nat, layout: Layout) | OpWrite(x: nat, v: nat) | OpFlush
  {
    /** What the calls assert of their arguments. */
    predicate WellFormed() {
      && (OpAlloc? ==> layout.size > 0)
      && (OpFree? || OpResize? ==> addr != 0)
    }
  }

  /** Client and parent keep to their blocks, and no break is set on the request. */
  ghost predicate Obeys(op: Op, b: Book, requests: nat, breakAt: nat) {
    match op
    case OpAlloc(layout, offered, _) =>
      requests + 1 != breakAt && (offered != 0 ==> ApartFromAll(Record(offered, layout, requests + 1), b))
    case OpFree(addr, layout) => addr in b.live && b.live[addr].layout == layout
    case OpResize(addr, layout) => addr in b.live && b.live[addr].layout == layout
    case OpWrite(x, _) => InLiveBlock(b.live, x)
    case OpFlush => true
  }

  /**
   The account after a request, when faults let it through and when not: a block the parent gives is
   recorded, or goes straight back, which takes a table that is given no room.
   */
  predicate Answers(op: Op, b: Book, c: Book, requests: nat, through: bool)
    requires op.OpAlloc?
  {
    var r := Record(op.offered, op.layout, requests + 1);
    if through && op.layout.size + GUARD_SIZE <= SIZE_MAX && op.offered != 0
    then c == Allotted(b, r) || ((!op.granted || Crowded(|b.live|)) && c == Bounced(b, r))
    else c == b
  }

  /** The account after an operation, given the one before it. */
  predicate Follows(op: Op, b: Book, c: Book, requests: nat, failAfter: nat) {
    match op
    case OpAlloc(_, _, _) => Answers(op, b, c, requests, !Refuses(failAfter, requests + 1))
    case OpFree(addr, _) => addr in b.live && c == GivenBack(b, addr)
    case OpResize(_, _) => c == b
    case OpWrite(_, _) => c == b
    case OpFlush => c == b.(queue := [], back := b.back + b.queue)
  }

  /** The bytes an operation may change. */
  predicate Reaches(op: Op, x: nat) {
    match op
    case OpAlloc(layout, offered, _) => offered <= x < offered + layout.size + GUARD_SIZE
    case OpFree(addr, layout) => addr <= x < addr + layout.size + GUARD_SIZE
    case OpWrite(y, _) => x == y
    case _ => false
  }

  /** The memory after an operation: a block served or freed is filled, a byte written, and no other byte changes. */
  ghost predicate Rewrites(op: Op, b: Book, c: Book, m: Memory, m': Memory, requests: nat) {
    && (forall x: nat :: !Reaches(op, x) ==> m'(x) == m(x))
    && match op
       case OpAlloc(layout, offered, _) =>
         var r := Record(offered, layout, requests + 1);
         if c == Allotted(b, r) then ReadsNew(m, m', r) else m' == m
       case OpFree(addr, _) => addr in b.live && ReadsFreed(m, m', b.live[addr])
       case OpWrite(x, v) => m'(x) == v
       case _ => true
  }

  /** What the allocator has checked by the time an operation goes through. */
  ghost predicate Passes(op: Op, b: Book, c: Book, m: Memory, requests: nat) {
    match op
    case OpAlloc(_, offered, _) =>
      c == b || (offered !in b.live && forall i :: 0 <= i < |b.queue| ==> b.queue[i].addr != offered)
    case OpFree(addr, layout) =>
      && addr in b.live && b.live[addr].layout == layout
      && (forall x :: addr + layout.size <= x < addr + layout.size + GUARD_SIZE ==> m(x) == FILL_GUARD)
      && (|b.queue| == QUARANTINE_LEN ==>
            forall x :: Within(b.queue[0], x) && !Reaches(op, x) ==> m(x) == FILL_FREED)
    case OpResize(addr, layout) => addr in b.live && b.live[addr].layout == layout
    case OpWrite(_, _) => true
    case OpFlush => forall i, x :: 0 <= i < |b.queue| && Within(b.queue[i], x) ==> m(x) == FILL_FREED
  }

  /** A byte of the block or of its guard. */
  predicate Within(r: Record, x: nat) {
    r.addr <= x < r.addr + r.layout.size + GUARD_SIZE
  }

  lemma AllocPasses(op: Op, b: Book, c: Book, m: Memory, m': Memory, requests: nat)
    requires op.OpAlloc? && requests + 1 !in b.made
    requires var r := Record(op.offered, op.layout, requests + 1);
             (c == Allotted(b, r) && ReadsNew(m, m', r)) || (m' == m && (c == b || c == Bounced(b, r)))
    requires c == b || (op.offered !in b.live && !Holds(b.queue, op.offered))
    ensures Rewrites(op, b, c, m, m', requests) && Passes(op, b, c, m, requests)
  {
    var r := Record(op.offered, op.layout, requests + 1);
    assert c != Allotted(b, r) ==> m' == m;
    if c != b {
      NotHeld(b.queue, op.offered);
    }
  }

  lemma FreePasses(op: Op, b: Book, c: Book, m: Memory, m': Memory, requests: nat)
    requires op.OpFree? && Judged(Done, m, b, op.addr, op.layout)
    requires op.addr in b.live ==> b.live[op.addr].addr == op.addr && ReadsFreed(m, m', b.live[op.addr])
    ensures Rewrites(op, b, c, m, m', requests) && Passes(op, b, c, m, requests)
  {
  }

  lemma OtherPasses(op: Op, b: Book, c: Book, m: Memory, m': Memory, requests: nat)
    requires op.OpResize? || op.OpWrite? || op.OpFlush?
    requires op.OpResize? ==> op.addr in b.live && b.live[op.addr].layout == op.layout
    requires op.OpFlush? ==> forall i :: 0 <= i < |b.queue| ==> FreedIntact(m, b.queue[i])
    requires m' == if op.OpWrite? then Filled(m, op.x, 1, op.v) else m
    ensures Rewrites(op, b, c, m, m', requests) && Passes(op, b, c, m, requests)
  {
  }

  lemma LiveAddresses(b: Book)
    requires Conserved(b)
    ensures forall a :: a in b.live ==> b.live[a].addr == a
  {
  }

  // ----- damage along a run

  /** The memories along the trace: each follows from the one before, and what an operation checks held then. */
  ghost predicate Watched(ops: seq<Op>, trace: seq<Book>, mems: seq<Memory>, requests: nat) {
    && 0 < |trace| == |mems| <= |ops| + 1
    && forall i :: 0 <= i < |trace| - 1 ==>
         && Rewrites(ops[i], trace[i], trace[i + 1], mems[i], mems[i + 1], requests + Requests(ops, i))
         && Passes(ops[i], trace[i], trace[i + 1], mems[i], requests + Requests(ops, i))
  }

  lemma WatchedStart(ops: seq<Op>, b: Book, m: Memory, requests: nat)
    ensures Watched(ops, [b], [m], requests)
  {
  }

  lemma WatchedStep(ops: seq<Op>, trace: seq<Book>, mems: seq<Memory>, requests: nat, b: Book, m: Memory)
    requires Watched(ops, trace, mems, requests) && |trace| <= |ops|
    requires var i := |trace| - 1;
             && Rewrites(ops[i], trace[i], b, mems[i], m, requests + Requests(ops, i))
             && Passes(ops[i], trace[i], b, mems[i], requests + Requests(ops, i))
    ensures Watched(ops, trace + [b], mems + [m], requests)
  {
    hide Rewrites, Passes, Requests;
    var longer, more := trace + [b], mems + [m];
    forall i | 0 <= i < |longer| - 1
      ensures Rewrites(ops[i], longer[i], longer[i + 1], more[i], more[i + 1], requests + Requests(ops, i))
      ensures Passes(ops[i], longer[i], longer[i + 1], more[i], requests + Requests(ops, i))
    {
      if i < |trace| - 1 {
        assert Rewrites(ops[i], trace[i], trace[i + 1], mems[i], mems[i + 1], requests + Requests(ops, i));
      }
    }
  }

  lemma PassedAt(ops: seq<Op>, trace: seq<Book>, mems: seq<Memory>, requests: nat, i: nat)
    requires Watched(ops, trace, mems, requests) && i < |trace|
    ensures i + 1 < |trace| ==> Passes(ops[i], trace[i], trace[i + 1], mems[i], requests + Requests(ops, i))
  {
    hide Rewrites, Passes, Requests;
  }

  /** A byte that no operation reaches stays what it is. */
  lemma {:induction false} ByteStays(ops: seq<Op>, trace: seq<Book>, mems: seq<Memory>, requests: nat, k: nat, i: nat,
                                     x: nat)
    requires Watched(ops, trace, mems, requests) && k <= i < |trace|
    requires forall j :: k <= j < i ==> !Reaches(ops[j], x)
    ensures mems[i](x) == mems[k](x)
    decreases i
  {
    if k < i {
      ByteStays(ops, trace, mems, requests, k, i - 1, x);
      assert Rewrites(ops[i - 1], trace[i - 1], trace[i - 1 + 1], mems[i - 1], mems[i - 1 + 1],
                      requests + Requests(ops, i - 1));
    }
  }

  /**
   Damage is caught: a guard byte of a block that is changed, and left so until the block is freed,
   ends the run at that free.
   */
  lemma GuardDamageCaught(ops: seq<Op>, trace: seq<Book>, mems: seq<Memory>, requests: nat, k: nat, i: nat, x: nat)
    requires Watched(ops, trace, mems, requests) && k <= i < |trace| && i < |ops|
    requires ops[i].OpFree? && ops[i].addr + ops[i].layout.size <= x < ops[i].addr + ops[i].layout.size + GUARD_SIZE
    requires mems[k](x) != FILL_GUARD && forall j :: k <= j < i ==> !Reaches(ops[j], x)
    ensures |trace| == i + 1
  {
    hide Requests;
    ByteStays(ops, trace, mems, requests, k, i, x);
    PassedAt(ops, trace, mems, requests, i);
  }

  /**
   And so is a byte of a waiting block, or of its guard, changed and left so until the block is
   released, by a flush or by a free that finds the quarantine full.
   */
  lemma WaitingDamageCaught(ops: seq<Op>, trace: seq<Book>, mems: seq<Memory>, requests: nat, k: nat, i: nat, x: nat,
                            q: nat)
    requires Watched(ops, trace, mems, requests) && k <= i < |trace| && i < |ops|
    requires q < |trace[i].queue| && Within(trace[i].queue[q], x) && mems[k](x) != FILL_FREED
    requires ops[i].OpFlush? || (ops[i].OpFree? && q == 0 && |trace[i].queue| == QUARANTINE_LEN)
    requires forall j :: k <= j <= i ==> !Reaches(ops[j], x)
    ensures |trace| == i + 1
  {
    hide Requests;
    ByteStays(ops, trace, mems, requests, k, i, x);
    PassedAt(ops, trace, mems, requests, i);
  }

  /** The greatest of the live bytes along the trace and the peak before it. */
  ghost predicate RunningMax(trace: seq<Book>, before: nat, peak: nat) {
    && before <= peak && (forall i :: 0 <= i < |trace| ==> LiveBytes(trace[i].live) <= peak)
    && (peak == before || exists i :: 0 <= i < |trace| && LiveBytes(trace[i].live) == peak)
  }

  lemma FirstPeak(b: Book, peak: nat)
    requires LiveBytes(b.live) <= peak
    ensures RunningMax([b], peak, peak)
  {
  }

  lemma NextPeak(trace: seq<Book>, b: Book, before: nat, peak: nat)
    requires RunningMax(trace, before, peak)
    ensures RunningMax(trace + [b], before, if LiveBytes(b.live) > peak then LiveBytes(b.live) else peak)
  {
    var longer := trace + [b];
    assert LiveBytes(longer[|trace|].live) == LiveBytes(b.live);
    if i :| 0 <= i < |trace| && LiveBytes(trace[i].live) == peak {
      assert LiveBytes(longer[i].live) == peak;
    }
  }

  /** How many of the first n operations are requests. */
  function Requests(ops: seq<Op>, n: nat): nat
    requires n <= |ops|
  {
    if n == 0 then 0 else Requests(ops, n - 1) + if ops[n - 1].OpAlloc? then 1 else 0
  }

  /** The first n operations were all within the rules when they came. */
  ghost predicate AllObey(ops: seq<Op>, trace: seq<Book>, requests: nat, breakAt: nat, n: nat)
    requires n <= |ops| && n <= |trace|
  {
    forall i :: 0 <= i < n ==> Obeys(ops[i], trace[i], requests + Requests(ops, i), breakAt)
  }

  lemma NothingYet(mem: Memory)
    ensures var b := Book(map[], map[], [], []);
            Conserved(b) && AddressesApart(b) && Clean(mem, b) && SerialsUpTo(b.made, 0) && LiveBytes(b.live) == 0
    ensures Highest([]) == 0
  {
  }

  lemma NoneYet(ops: seq<Op>, trace: seq<Book>, requests: nat, breakAt: nat)
    ensures AllObey(ops, trace, requests, breakAt, 0) && Requests(ops, 0) == 0
  {
  }

  lemma OneMore(ops: seq<Op>, trace: seq<Book>, requests: nat, breakAt: nat, n: nat)
    requires n < |ops| && n < |trace|
    ensures AllObey(ops, trace, requests, breakAt, n + 1)
            <==> && AllObey(ops, trace, requests, breakAt, n)
                 && Obeys(ops[n], trace[n], requests + Requests(ops, n), breakAt)
    ensures Requests(ops, n + 1) == Requests(ops, n) + if ops[n].OpAlloc? then 1 else 0
  {
  }

  lemma SameStart(ops: seq<Op>, trace: seq<Book>, next: Book, requests: nat, breakAt: nat, n: nat)
    requires n <= |ops| && n <= |trace|
    ensures AllObey(ops, trace + [next], requests, breakAt, n) <==> AllObey(ops, trace, requests, breakAt, n)
  {
    assert forall i :: 0 <= i < n ==> (trace + [next])[i] == trace[i];
  }

  lemma ApartIsElsewhere(b: Book, r: Record)
    requires Conserved(b) && ApartFromAll(r, b)
    ensures r.addr !in b.live && !Holds(b.queue, r.addr)
  {
  }

  lemma CleanQueue(mem: Memory, b: Book)
    requires Clean(mem, b)
    ensures forall i :: 0 <= i < |b.queue| ==> FreedIntact(mem, b.queue[i])
  {
  }

  predicate InLiveBlock(live: map<nat, Record>, x: nat) {
    exists a :: a in live && a <= x < a + live[a].layout.size
  }

  lemma WriteStaysClean(mem: Memory, b: Book, x: nat, v: nat)
    requires Conserved(b) && Clean(mem, b) && InLiveBlock(b.live, x)
    ensures Clean(Filled(mem, x, 1, v), b)
  {
    var a :| a in b.live && a <= x < a + b.live[a].layout.size;
    WriteClean(mem, b, a, x, v);
  }

  lemma AddressOfLive(b: Book, addr: nat)
    requires Conserved(b) && addr in b.live
    ensures b.live[addr].addr == addr
  {
  }

  lemma GuardCheck(mem: Memory, r: Record)
    ensures GuardIntact(mem, r) <==> AllEqual(mem, r.addr + r.layout.size, GUARD_SIZE, FILL_GUARD)
  {
  }

  /** The accounts after a block is given back: the oldest waiting one makes room when it must. */
  function GivenBack(b: Book, addr: nat): Book
    requires addr in b.live
  {
    Freed(if |b.queue| == QUARANTINE_LEN then Released(b) else b, addr)
  }

  /** What giving a block back comes to, check by check. */
  ghost function DeallocOutcome(mem: Memory, b: Book, addr: nat, layout: Layout): Outcome {
    if addr !in b.live then Halted(if Holds(b.queue, addr) then FreedTwice else NotOurs)
    else if b.live[addr].layout != layout then Halted(WrongLayout)
    else if !GuardIntact(mem, b.live[addr]) then Halted(WrittenPastEnd)
    else if |b.queue| == QUARANTINE_LEN && !FreedIntact(FreedBlock(mem, b.live[addr]), b.queue[0])
      then Halted(WrittenAfterFree)
    else Done
  }

  /**
   The verdict on a free, reason by reason: who is told off for what, the first cause first.  A byte of
   the guard that is not FILL_GUARD is always found, and so is a byte of the block the full quarantine
   would release that is not FILL_FREED.
   */
  ghost predicate Judged(outcome: Outcome, m: Memory, b: Book, addr: nat, layout: Layout) {
    var known := addr in b.live;
    var fits := known && b.live[addr].layout == layout;
    var guarded := forall x :: addr + layout.size <= x < addr + layout.size + GUARD_SIZE ==> m(x) == FILL_GUARD;
    var full := |b.queue| == QUARANTINE_LEN;
    var rested := full ==> forall x ::
                    && b.queue[0].addr <= x < b.queue[0].addr + b.queue[0].layout.size + GUARD_SIZE
                    && !(addr <= x < addr + layout.size + GUARD_SIZE)
                    ==> m(x) == FILL_FREED;
    && (outcome == Halted(FreedTwice) <==> !known && exists i :: 0 <= i < |b.queue| && b.queue[i].addr == addr)
    && (outcome == Halted(NotOurs) <==> !known && forall i :: 0 <= i < |b.queue| ==> b.queue[i].addr != addr)
    && (outcome == Halted(WrongLayout) <==> known && !fits)
    && (outcome == Halted(WrittenPastEnd) <==> fits && !guarded)
    && (outcome == Halted(WrittenAfterFree) <==> fits && guarded && !rested)
    && (outcome == Done <==> fits && guarded && rested)
  }

  lemma Judges(m: Memory, b: Book, addr: nat, layout: Layout)
    requires Conserved(b)
    ensures Judged(DeallocOutcome(m, b, addr, layout), m, b, addr, layout)
    ensures DeallocOutcome(m, b, addr, layout) == Done || DeallocOutcome(m, b, addr, layout).Halted?
  {
    hide Conserved, FreedBlock;
    if addr in b.live && b.live[addr].layout == layout {
      AddressOfLive(b, addr);
      BlocksRead(m, b.live[addr]);
    }
  }

  lemma GivenBackKeeps(mem: Memory, b: Book, addr: nat)
    requires Conserved(b) && AddressesApart(b) && addr in b.live
    ensures Conserved(GivenBack(b, addr)) && AddressesApart(GivenBack(b, addr))
    ensures LiveBytes(b.live) == b.live[addr].layout.size + LiveBytes(GivenBack(b, addr).live)
    ensures Clean(mem, b) ==> Clean(FreedBlock(mem, b.live[addr]), GivenBack(b, addr))
  {
    hide Conserved, AddressesApart, Clean, LiveBytes, FreedBlock;
    LiveBytesWithout(b.live, addr);
    var c := b;
    if |b.queue| == QUARANTINE_LEN {
      ReleasedConserves(b);
      if Clean(mem, b) {
        ReleasedClean(mem, b);
      }
      c := Released(b);
    }
    FreedConserves(c, addr);
    if Clean(mem, b) {
      FreedClean(mem, c, addr);
    }
  }

  /** No false alarm: with every guard and fill untouched, giving back a live block succeeds. */
  lemma NoFalseAlarm(mem: Memory, b: Book, addr: nat, layout: Layout)
    requires Conserved(b) && Clean(mem, b) && addr in b.live && b.live[addr].layout == layout
    ensures DeallocOutcome(mem, b, addr, layout) == Done
  {
    hide FreedBlock, FreedIntact, GuardIntact;
    FreedClean(mem, b, addr);
    assert |b.queue| > 0 ==> Freed(b, addr).queue[0] == b.queue[0];
  }

  /** Every block made has one of the serials given out so far. */
  ghost predicate SerialsUpTo(made: map<nat, Record>, requests: nat) {
    forall n :: n in made ==> 0 < n <= requests && made[n].addr != 0
  }

  lemma SerialsGrow(made: map<nat, Record>, requests: nat, r: Record)
    requires SerialsUpTo(made, requests)
    ensures SerialsUpTo(made, requests + 1) && requests + 1 !in made
    ensures 0 < r.serial <= requests && r.addr != 0 ==> SerialsUpTo(made[r.serial := r], requests)
  {
  }

  lemma NotHeld(queue: seq<Record>, addr: nat)
    requires !Holds(queue, addr)
    ensures forall i :: 0 <= i < |queue| ==> queue[i].addr != addr
  {
  }

  lemma BouncedStaysClean(mem: Memory, b: Book, r: Record)
    ensures Clean(mem, b) ==> Clean(mem, Bounced(b, r))
  {
  }
}
