/** src/ds/deque.c: a sequence in a ring that may start anywhere and wrap past its last slot. */
module DequeRing {
  import opened Core
  import opened Arith
  import opened Span

  // ----- positions and slots

  /** tda_deque_slot_of_: the slot of the element `idx` places past the front. */
  function SlotOf(head: nat, idx: nat, cap: nat): (slot: nat)
    requires head < cap && idx < cap
    ensures slot < cap
  {
    var room := cap - head;
    if idx < room then head + idx else idx - room
  }

  /** alias_idx: the index of the element in a slot. */
  function IdxOf(head: nat, slot: nat, cap: nat): (idx: nat)
    requires head < cap && slot < cap
    ensures idx < cap
  {
    if slot >= head then slot - head else slot + cap - head
  }

  lemma SlotRoundTrip(head: nat, i: nat, cap: nat)
    requires head < cap && i < cap
    ensures IdxOf(head, SlotOf(head, i, cap), cap) == i && SlotOf(head, IdxOf(head, i, cap), cap) == i
  {
  }

  function SlotFwd(slot: nat, count: nat, cap: nat): (r: nat)
    requires slot < cap && count <= cap
    ensures r < cap
  {
    if count < cap - slot then slot + count else count - (cap - slot)
  }

  function SlotBack(slot: nat, count: nat, cap: nat): (r: nat)
    requires slot < cap && count <= cap
    ensures r < cap
  {
    if slot >= count then slot - count else slot + cap - count
  }

  /** The whole ring as read from its head, free slots included. */
  function Unrolled<T>(d: seq<T>, head: nat): (v: seq<T>)
    requires d == [] || head < |d|
    ensures |v| == |d|
  {
    seq(|d|, i requires 0 <= i < |d| => d[SlotOf(head, i, |d|)])
  }

  lemma UnrolledUpdate<T>(d: seq<T>, head: nat, i: nat, x: T)
    requires head < |d| && i < |d|
    ensures Unrolled(d[SlotOf(head, i, |d|) := x], head) == Unrolled(d, head)[i := x]
  {
  }

  /** The ring as read from `count` slots before its head, or after it. */
  function RolledBack<T>(v: seq<T>, count: nat): (r: seq<T>)
    requires count <= |v|
    ensures |r| == |v|
  {
    v[|v| - count..] + v[..|v| - count]
  }

  function RolledFwd<T>(v: seq<T>, count: nat): (r: seq<T>)
    requires count <= |v|
    ensures |r| == |v|
  {
    v[count..] + v[..count]
  }

  lemma HeadBack<T>(d: seq<T>, head: nat, count: nat)
    requires head < |d| && count <= |d|
    ensures Unrolled(d, SlotBack(head, count, |d|)) == RolledBack(Unrolled(d, head), count)
  {
  }

  lemma HeadFwd<T>(d: seq<T>, head: nat, count: nat)
    requires head < |d| && count <= |d|
    ensures Unrolled(d, SlotFwd(head, count, |d|)) == RolledFwd(Unrolled(d, head), count)
  {
  }

  // ----- moving a run of elements

  /** `v` with its run at `from` copied over the one at `to`, as if read before any write. */
  function Shifted<T>(v: seq<T>, to: nat, from: nat, count: nat): (r: seq<T>)
    requires to + count <= |v| && from + count <= |v|
    ensures |r| == |v|
  {
    Splice(v, to, to + count, v[from..from + count])
  }

  lemma ShiftUp<T>(v: seq<T>, to: nat, from: nat, i: nat)
    requires to < from && from + i < |v|
    ensures var w := Shifted(v, to, from, i);
            w[from + i] == v[from + i] && w[to + i := w[from + i]] == Shifted(v, to, from, i + 1)
  {
    var w := Shifted(v, to, from, i);
    assert w[to + i := v[from + i]] == Shifted(v, to, from, i + 1);
  }

  /** The same walking down: the run from `i` on is done. */
  lemma ShiftDown<T>(v: seq<T>, to: nat, from: nat, count: nat, i: nat)
    requires from <= to && to + count <= |v| && 0 < i <= count
    ensures var w := Shifted(v, to + i, from + i, count - i);
            && w[from + i - 1] == v[from + i - 1]
            && w[to + i - 1 := w[from + i - 1]] == Shifted(v, to + (i - 1), from + (i - 1), count - (i - 1))
  {
    var w := Shifted(v, to + i, from + i, count - i);
    assert v[from + (i - 1)..from + count] == [v[from + i - 1]] + v[from + i..from + count];
    assert w[to + i - 1 := v[from + i - 1]] == Shifted(v, to + (i - 1), from + (i - 1), count - (i - 1));
  }

  // ----- the arithmetic of growth

  const GROWTH_BASE: nat := 1
  const GROWTH_FACTOR: nat := 2

  function NextCap(cap: nat): (r: nat)
    ensures r > 0
  {
    if cap == 0 then GROWTH_BASE else if cap * GROWTH_FACTOR > SIZE_MAX then SIZE_MAX else cap * GROWTH_FACTOR
  }

  /** One slot at first, then twice as many, as far as a size_t counts. */
  ghost function TwiceCap(cap: nat): nat {
    if cap == 0 then 1 else if 2 * cap <= SIZE_MAX then 2 * cap else SIZE_MAX
  }

  /** A value passed to the deque: some other value, or the element in one of its own slots. */
  datatype Val<T> = Outside(value: T) | Own(slot: nat)

  class Deque<T(0)> {
    var data: array<T>
    var head: nat
    var len: nat
    const elemSize: nat

    ghost predicate Valid()
      reads this
    {
      && len <= data.Length <= SIZE_MAX && elemSize > 0
      && (if data.Length == 0 then head == 0 else head < data.Length)
    }

    ghost function Ring(): (v: seq<T>)
      requires Valid()
      reads this, data
    {
      Unrolled(data[..], head)
    }

    /** The sequence the deque stands for. */
    ghost function Elems(): (s: seq<T>)
      requires Valid()
      reads this, data
    {
      Ring()[..len]
    }

    constructor (elemSize: nat)
      requires elemSize > 0
      ensures Valid() && Elems() == [] && fresh(data) && data.Length == 0 && this.elemSize == elemSize
    {
      this.elemSize := elemSize;
      data := new T[0];
      head, len := 0, 0;
    }

    // ----- internals

    method StepBack(count: nat)
      requires Valid() && count <= data.Length && 0 < data.Length
      modifies this`head
      ensures Valid() && Ring() == RolledBack(old(Ring()), count)
    {
      HeadBack(data[..], head, count);
      head := SlotBack(head, count, data.Length);
    }

    method StepFwd(count: nat)
      requires Valid() && count <= data.Length && 0 < data.Length
      modifies this`head
      ensures Valid() && Ring() == RolledFwd(old(Ring()), count)
    {
      HeadFwd(data[..], head, count);
      head := SlotFwd(head, count, data.Length);
    }

    method MoveElem(to: nat, from: nat)
      requires Valid() && to < data.Length && from < data.Length
      modifies data
      ensures Ring() == old(Ring())[to := old(Ring())[from]]
    {
      ghost var d := data[..];
      UnrolledUpdate(d, head, to, d[SlotOf(head, from, data.Length)]);
      data[SlotOf(head, to, data.Length)] := data[SlotOf(head, from, data.Length)];
      assert data[..] == d[SlotOf(head, to, |d|) := d[SlotOf(head, from, |d|)]];
    }

    /** move_elems: moving down walks up, moving up walks down, so no element is lost unread. */
    method MoveElems(to: nat, from: nat, count: nat)
      requires Valid() && to + count <= data.Length && from + count <= data.Length
      modifies data
      ensures Ring() == Shifted(old(Ring()), to, from, count)
    {
      hide Unrolled, Shifted;
      if to < from {
        MoveDown(to, from, count);
      } else {
        MoveUp(to, from, count);
      }
    }

    method MoveDown(to: nat, from: nat, count: nat)
      requires Valid() && to < from && from + count <= data.Length
      modifies data
      ensures Ring() == Shifted(old(Ring()), to, from, count)
    {
      hide Unrolled, Shifted;
      ghost var v := Ring();
      ShiftNone(v, to, from, count);
      var i := 0;
      while i < count
        invariant i <= count && Ring() == Shifted(v, to, from, i)
      {
        ShiftUp(v, to, from, i);
        MoveElem(to + i, from + i);
        i := i + 1;
      }
    }

    method MoveUp(to: nat, from: nat, count: nat)
      requires Valid() && from <= to && to + count <= data.Length
      modifies data
      ensures Ring() == Shifted(old(Ring()), to, from, count)
    {
      hide Unrolled, Shifted;
      ghost var v := Ring();
      ShiftNone(v, to, from, count);
      var i: nat := count;
      while i > 0
        invariant i <= count && Ring() == Shifted(v, to + i, from + i, count - i)
      {
        ShiftDown(v, to, from, count, i);
        MoveElem(to + i - 1, from + i - 1);
        i := i - 1;
      }
    }

    /** copy_range_in: at most two runs, the second from slot 0. */
    method CopyRangeIn(idx: nat, src: seq<T>)
      requires Valid() && idx + |src| <= data.Length
      modifies data
      ensures Ring() == Splice(old(Ring()), idx, idx + |src|, src)
    {
      if |src| == 0 {
        return;
      }
      ghost var d := data[..];
      var cap, slot := data.Length, SlotOf(head, idx, data.Length);
      var run := if cap - slot < |src| then cap - slot else |src|;
      forall k | 0 <= k < run {
        data[slot + k] := src[k];
      }
      if run < |src| {
        forall k | 0 <= k < |src| - run {
          data[k] := src[run + k];
        }
      }
      RunsWritten(d, data[..], head, idx, src);
    }

    /** relocate: the contents go, unwrapped, to the front of a new block of `newCap` slots. */
    method Relocate(newCap: nat, granted: bool) returns (status: Status)
      requires Valid() && len <= newCap && 0 < newCap <= SIZE_MAX
      modifies this
      ensures Valid() && Elems() == old(Elems()) && len == old(len)
      ensures if granted then status == Ok && data.Length == newCap && fresh(data) && head == 0
              else status == NoMem && data == old(data) && head == old(head)
    {
      if !granted {
        return NoMem;
      }
      ghost var v := Elems();
      var ptr := new T[newCap];
      if len > 0 {
        var run := if data.Length - head < len then data.Length - head else len;
        forall k | 0 <= k < run {
          ptr[k] := data[head + k];
        }
        forall k | 0 <= k < len - run {
          ptr[run + k] := data[k];
        }
      }
      assert ptr[..][..len] == v;
      data, head := ptr, 0;
      assert Ring() == ptr[..];
      status := Ok;
    }

    /** tda_deque_reserve. */
    method Reserve(newCap: nat, granted: bool) returns (status: Status)
      requires Valid()
      modifies this
      ensures Valid() && Elems() == old(Elems()) && len == old(len)
      ensures status == Ok <==> newCap <= old(data.Length) || (elemSize * newCap <= SIZE_MAX && granted)
      ensures status == Ok ==> data.Length == if newCap <= old(data.Length) then old(data.Length) else newCap
      ensures (data == old(data) && head == old(head)) || (status == Ok && fresh(data))
    {
      if newCap <= data.Length {
        return Ok;
      }
      if elemSize * newCap > SIZE_MAX {
        return NoMem;
      }
      MulMonotone(1, elemSize, newCap);
      status := Relocate(newCap, granted);
    }

    /** reserve_for: by the growth factor when that is more, else exactly; the eager try may fail. */
    method ReserveFor(newLen: nat, eager: bool, exact: bool) returns (status: Status)
      requires Valid() && newLen > data.Length
      modifies this
      ensures Valid() && Elems() == old(Elems()) && len == old(len)
      ensures status == Ok ==> newLen <= data.Length && fresh(data)
      ensures status == NoMem ==> data == old(data) && head == old(head)
      ensures status == Ok <==> old(Eager(newLen, eager)) || (exact && elemSize * newLen <= SIZE_MAX)
      ensures status == Ok ==>
                data.Length == if old(Eager(newLen, eager)) then old(TwiceCap(data.Length)) else newLen
    {
      var want := NextCap(data.Length);
      if want > newLen {
        status := Reserve(want, eager);
        if status == Ok {
          return;
        }
      }
      status := Reserve(newLen, exact);
    }

    /** Twice the room is more than n, fits and is granted. */
    ghost predicate Eager(n: nat, eager: bool)
      reads this
    {
      eager && n < TwiceCap(data.Length) && elemSize * TwiceCap(data.Length) <= SIZE_MAX
    }

    /** Room for n elements is there already, or fits and is granted, by doubling or exactly. */
    ghost predicate HasRoom(n: nat, eager: bool, exact: bool)
      reads this
    {
      n <= data.Length || (n <= SIZE_MAX && (Eager(n, eager) || (exact && elemSize * n <= SIZE_MAX)))
    }

    /** reserve_one. */
    method ReserveOne(eager: bool, exact: bool) returns (status: Status)
      requires Valid()
      modifies this
      ensures Valid() && Elems() == old(Elems()) && len == old(len)
      ensures status == Ok ==> len < data.Length && (data == old(data) || fresh(data))
      ensures status == NoMem ==> data == old(data) && head == old(head)
      ensures status == Ok <==> old(HasRoom(len + 1, eager, exact))
    {
      if len < data.Length {
        return Ok;
      }
      if data.Length == SIZE_MAX {
        return NoMem;
      }
      status := ReserveFor(data.Length + 1, eager, exact);
    }

    /** What a passed value holds, and that an own one is an element and no free slot. */
    ghost predicate IsValue(val: Val<T>)
      requires Valid()
      reads this
    {
      val.Own? ==> val.slot < data.Length && IdxOf(head, val.slot, data.Length) < len
    }

    ghost function ValueOf(val: Val<T>): T
      requires Valid() && IsValue(val)
      reads this, data
    {
      match val
      case Outside(x) => x
      case Own(slot) => data[slot]
    }

    lemma OwnValue(val: Val<T>)
      requires Valid() && IsValue(val) && val.Own?
      ensures ValueOf(val) == Elems()[IdxOf(head, val.slot, data.Length)]
    {
      SlotRoundTrip(head, val.slot, data.Length);
    }

    // ----- mods

    /** tda_deque_push_back; an own element is found again by index after the block moved. */
    method PushBack(val: Val<T>, eager: bool, exact: bool) returns (status: Status)
      requires Valid() && IsValue(val)
      modifies this, data
      ensures Valid() && (data == old(data) || fresh(data))
      ensures Elems() == if status == Ok then old(Elems()) + [old(ValueOf(val))] else old(Elems())
      ensures status == Ok <==> old(HasRoom(len + 1, eager, exact))
    {
      ghost var v, x := Elems(), ValueOf(val);
      var own := if val.Own? then IdxOf(head, val.slot, data.Length) else 0;
      if val.Own? {
        OwnValue(val);
      }
      status := ReserveOne(eager, exact);
      if status == NoMem {
        return;
      }
      hide Unrolled;
      var y := if val.Own? then At(own) else val.value;
      ghost var r := Ring();
      Put(len, y);
      len := len + 1;
      assert Elems() == r[..len - 1] + [y];
    }

    /** tda_deque_push_front. */
    method PushFront(val: Val<T>, eager: bool, exact: bool) returns (status: Status)
      requires Valid() && IsValue(val)
      modifies this, data
      ensures Valid() && (data == old(data) || fresh(data))
      ensures Elems() == if status == Ok then [old(ValueOf(val))] + old(Elems()) else old(Elems())
      ensures status == Ok <==> old(HasRoom(len + 1, eager, exact))
    {
      ghost var v := Elems();
      var own := if val.Own? then IdxOf(head, val.slot, data.Length) else 0;
      if val.Own? {
        OwnValue(val);
      }
      status := ReserveOne(eager, exact);
      if status == NoMem {
        return;
      }
      hide Unrolled;
      PutFront(if val.Own? then At(own) else val.value);
    }

    method PutFront(x: T)
      requires Valid() && len < data.Length
      modifies this`head, this`len, data
      ensures Valid() && Elems() == [x] + old(Elems())
    {
      hide Unrolled;
      FrontPut(Ring(), len, x);
      StepBack(1);
      Put(0, x);
      len := len + 1;
    }

    function At(idx: nat): (x: T)
      requires Valid() && idx < len
      reads this, data
      ensures x == Elems()[idx]
    {
      data[SlotOf(head, idx, data.Length)]
    }

    method Put(idx: nat, x: T)
      requires Valid() && idx < data.Length
      modifies data
      ensures Ring() == old(Ring())[idx := x]
    {
      ghost var d := data[..];
      UnrolledUpdate(d, head, idx, x);
      data[SlotOf(head, idx, data.Length)] := x;
      assert data[..] == d[SlotOf(head, idx, |d|) := x];
    }

    /** open_gap: room for `count` elements at `idx`, the shorter side shifted. */
    method OpenGap(idx: nat, count: nat, eager: bool, exact: bool) returns (status: Status)
      requires Valid() && idx <= len && count > 0
      modifies this, data
      ensures Valid() && (data == old(data) || fresh(data))
      ensures status == NoMem ==> Elems() == old(Elems()) && len == old(len) && data == old(data) && head == old(head)
      ensures status == Ok ==> len == old(len) + count && len <= data.Length
      ensures status == Ok ==> Ring()[..idx] == old(Elems())[..idx] && Ring()[idx + count..len] == old(Elems())[idx..]
      ensures status == Ok <==> old(HasRoom(len + count, eager, exact))
    {
      hide Unrolled, Shifted, RolledBack;
      ghost var e := Elems();
      if len + count > SIZE_MAX {
        return NoMem;
      }
      var newLen := len + count;
      if newLen > data.Length {
        status := ReserveFor(newLen, eager, exact);
        if status == NoMem {
          return;
        }
      }
      status := Ok;
      ghost var v := Ring();
      var n := len;
      assert e[..idx] == v[..idx] && e[idx..] == v[idx..n];
      if idx < len - idx {
        GapByFront(v, n, idx, count);
        StepBack(count);
        len := newLen;
        MoveElems(0, count, idx);
      } else {
        GapByBack(v, n, idx, count);
        len := newLen;
        MoveElems(idx + count, idx, n - idx);
      }
    }

    /** insert_raw, the body of tda_deque_insert_span: the source lies outside the block. */
    method InsertSpan(idx: nat, src: seq<T>, eager: bool, exact: bool) returns (status: Status)
      requires Valid() && idx <= len
      modifies this, data
      ensures Valid() && (data == old(data) || fresh(data))
      ensures Elems() == if status == Ok then old(Elems())[..idx] + src + old(Elems())[idx..] else old(Elems())
      ensures status == Ok <==> old(HasRoom(len + |src|, eager, exact))
    {
      hide Unrolled;
      ghost var e, n := Elems(), len;
      if |src| == 0 {
        assert e == e[..idx] + src + e[idx..];
        return Ok;
      }
      status := OpenGap(idx, |src|, eager, exact);
      if status == NoMem {
        return;
      }
      GapFilled(Ring(), e, n, idx, src);
      CopyRangeIn(idx, src);
    }

    /** tda_deque_insert, of its own elements too. */
    method Insert(idx: nat, val: Val<T>, eager: bool, exact: bool) returns (status: Status)
      requires Valid() && idx <= len && IsValue(val)
      modifies this, data
      ensures Valid() && (data == old(data) || fresh(data))
      ensures Elems() == if status == Ok then old(Elems())[..idx] + [old(ValueOf(val))] + old(Elems())[idx..]
                         else old(Elems())
      ensures status == Ok <==> old(HasRoom(len + 1, eager, exact))
    {
      if val.Outside? {
        status := InsertSpan(idx, [val.value], eager, exact);
      } else {
        OwnValue(val);
        status := InsertOwn(idx, IdxOf(head, val.slot, data.Length), eager, exact);
      }
    }

    method InsertOwn(idx: nat, from: nat, eager: bool, exact: bool) returns (status: Status)
      requires Valid() && idx <= len && from < len
      modifies this, data
      ensures Valid() && (data == old(data) || fresh(data))
      ensures Elems() == if status == Ok then old(Elems())[..idx] + [old(Elems())[from]] + old(Elems())[idx..]
                         else old(Elems())
      ensures status == Ok <==> old(HasRoom(len + 1, eager, exact))
    {
      hide Unrolled, Splice;
      ghost var e, n := Elems(), len;
      status := OpenGap(idx, 1, eager, exact);
      if status == Ok {
        ghost var w := Ring();
        OwnAfterGap(w, e, n, idx, from);
        MoveElem(idx, if from < idx then from else from + 1);
        SpliceOne(w, idx, e[from]);
        GapFilled(w, e, n, idx, [e[from]]);
      }
    }

    /** tda_deque_remove_range: the shorter side slides over the gap. */
    method RemoveRange(idx: nat, count: nat)
      requires Valid() && idx + count <= len
      modifies this, data
      ensures Valid() && data == old(data)
      ensures Elems() == old(Elems())[..idx] + old(Elems())[idx + count..]
    {
      hide Unrolled, Shifted, RolledFwd;
      if count == 0 {
        assert Elems() == Elems()[..idx] + Elems()[idx..];
        return;
      }
      if idx < len - idx - count {
        CloseFromFront(idx, count);
      } else {
        CloseFromBack(idx, count);
      }
    }

    method CloseFromFront(idx: nat, count: nat)
      requires Valid() && 0 < count && idx + count <= len
      modifies this`head, this`len, data
      ensures Valid() && Elems() == old(Elems())[..idx] + old(Elems())[idx + count..]
    {
      hide Unrolled, Shifted, RolledFwd;
      GapClosedByFront(Ring(), len, idx, count);
      MoveElems(count, 0, idx);
      StepFwd(count);
      len := len - count;
    }

    method CloseFromBack(idx: nat, count: nat)
      requires Valid() && 0 < count && idx + count <= len
      modifies this`len, data
      ensures Valid() && Elems() == old(Elems())[..idx] + old(Elems())[idx + count..]
    {
      hide Unrolled, Shifted;
      GapClosedByBack(Ring(), len, idx, count);
      MoveElems(idx, idx + count, len - idx - count);
      len := len - count;
    }

    /** tda_deque_shrink_to_fit. */
    method ShrinkToFit(granted: bool) returns (status: Status)
      requires Valid()
      modifies this
      ensures Valid() && Elems() == old(Elems()) && (data == old(data) || fresh(data))
      ensures status == Ok ==> data.Length == len
      ensures status == Ok <==> granted || old(len) == 0 || old(len) == old(data.Length)
    {
      if len == data.Length {
        return Ok;
      }
      if len == 0 {
        data := new T[0];
        head := 0;
        return Ok;
      }
      status := Relocate(len, granted);
    }

    method PopFront()
      requires Valid() && len > 0
      modifies this`head, this`len
      ensures Valid() && Elems() == old(Elems())[1..]
    {
      HeadFwd(data[..], head, 1);
      head, len := SlotFwd(head, 1, data.Length), len - 1;
    }

    method PopBack()
      requires Valid() && len > 0
      modifies this`len
      ensures Valid() && Elems() == old(Elems())[..old(len) - 1]
    {
      len := len - 1;
    }
  }

  /** Elements before the gap keep their index, the others are one up. */
  lemma OwnAfterGap<T>(w: seq<T>, e: seq<T>, n: nat, idx: nat, from: nat)
    requires n == |e| && idx <= n && from < n && n + 1 <= |w|
    requires w[..idx] == e[..idx] && w[idx + 1..n + 1] == e[idx..]
    ensures w[if from < idx then from else from + 1] == e[from]
  {
    if from < idx {
      assert w[..idx][from] == e[..idx][from];
    } else {
      assert w[idx + 1..n + 1][from - idx] == e[idx..][from - idx];
    }
  }

  lemma SpliceOne<T>(w: seq<T>, i: nat, x: T)
    requires i < |w|
    ensures w[i := x] == Splice(w, i, i + 1, [x])
  {
  }

  lemma FrontPut<T>(v: seq<T>, len: nat, x: T)
    requires len < |v|
    ensures RolledBack(v, 1)[0 := x][..len + 1] == [x] + v[..len]
  {
  }

  /** With the front shifted: the gap opens at idx and everything else keeps its order. */
  lemma GapByFront<T>(v: seq<T>, len: nat, idx: nat, count: nat)
    requires idx <= len && len + count <= |v|
    ensures var w := Shifted(RolledBack(v, count), 0, count, idx);
            w[..idx] == v[..idx] && w[idx + count..len + count] == v[idx..len]
  {
    var u := RolledBack(v, count);
    assert u[count..count + len] == v[..len];
    var w := Shifted(u, 0, count, idx);
    assert w[..idx] == u[count..count + idx];
    assert w[idx + count..len + count] == u[idx + count..len + count];
  }

  lemma GapByBack<T>(v: seq<T>, len: nat, idx: nat, count: nat)
    requires idx <= len && len + count <= |v|
    ensures var w := Shifted(v, idx + count, idx, len - idx);
            w[..idx] == v[..idx] && w[idx + count..len + count] == v[idx..len]
  {
  }

  lemma GapClosedByFront<T>(v: seq<T>, len: nat, idx: nat, count: nat)
    requires idx + count <= len <= |v|
    ensures RolledFwd(Shifted(v, count, 0, idx), count)[..len - count] == v[..len][..idx] + v[..len][idx + count..]
  {
    var w := Shifted(v, count, 0, idx);
    assert w[count..count + idx] == v[..idx];
    assert w[count + idx..] == v[count + idx..];
    assert RolledFwd(w, count)[..len - count] == w[count..len];
  }

  lemma GapClosedByBack<T>(v: seq<T>, len: nat, idx: nat, count: nat)
    requires idx + count <= len <= |v|
    ensures Shifted(v, idx, idx + count, len - idx - count)[..len - count] == v[..len][..idx] + v[..len][idx + count..]
  {
  }

  lemma GapFilled<T>(w: seq<T>, v: seq<T>, len: nat, idx: nat, src: seq<T>)
    requires idx <= len <= |v| && len + |src| <= |w|
    requires w[..idx] == v[..idx] && w[idx + |src|..len + |src|] == v[idx..len]
    ensures Splice(w, idx, idx + |src|, src)[..len + |src|] == v[..idx] + src + v[idx..len]
  {
  }

  lemma ShiftNone<T>(v: seq<T>, to: nat, from: nat, count: nat)
    requires to + count <= |v| && from + count <= |v|
    ensures Shifted(v, to, from, 0) == v && Shifted(v, to + count, from + count, 0) == v
  {
  }

  lemma RunsWritten<T>(d: seq<T>, e: seq<T>, head: nat, idx: nat, src: seq<T>)
    requires head < |d| == |e| && 0 < |src| && idx + |src| <= |d|
    requires var slot := SlotOf(head, idx, |d|);
             var run := if |d| - slot < |src| then |d| - slot else |src|;
             && (forall k :: slot <= k < slot + run ==> e[k] == src[k - slot])
             && (forall k :: 0 <= k < |src| - run ==> e[k] == src[run + k])
             && (forall k :: |src| - run <= k < slot || slot + run <= k < |d| ==> e[k] == d[k])
    ensures Unrolled(e, head) == Splice(Unrolled(d, head), idx, idx + |src|, src)
  {
    var v, w := Unrolled(d, head), Unrolled(e, head);
    forall i | 0 <= i < |d| ensures w[i] == if idx <= i < idx + |src| then src[i - idx] else v[i] {
    }
  }
}
