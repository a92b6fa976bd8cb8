/**
 The bounded draws of src/core/rng.c, Lemire's rejection method.  A raw draw is an integer
 below m = 2^W; the product with the range has its top half as the result and its bottom
 half as the test.
 */
module BoundedDraw {
  import opened Core
  import opened Arith

  /** -range % range in W-bit arithmetic. */
  function Threshold(r: nat, m: nat): nat
    requires 0 < r < m
  {
    (m - r) % r
  }

  function High(x: nat, r: nat, m: nat): nat
    requires m > 0
  {
    (x * r) / m
  }

  function Low(x: nat, r: nat, m: nat): nat
    requires m > 0
  {
    (x * r) % m
  }

  predicate Accepted(x: nat, r: nat, m: nat)
    requires 0 < r < m
  {
    Low(x, r, m) >= Threshold(r, m)
  }

  lemma ThresholdIs(r: nat, m: nat)
    requires 0 < r < m
    ensures Threshold(r, m) == m % r < r
  {
    assert m == (m / r) * r + m % r;
    assert m - r == (m / r - 1) * r + m % r;
    DivModIs(m - r, r, m / r - 1, m % r);
  }

  /** The smallest x whose product with r reaches n. */
  lemma CeilingIs(n: nat, r: nat, x: nat)
    requires r > 0
    ensures x * r >= n <==> x >= (n + r - 1) / r
  {
    var c := (n + r - 1) / r;
    assert n + r - 1 == c * r + (n + r - 1) % r;
    assert (c - 1) * r == c * r - r;
    MulMonotone(c, x, r);
    MulMonotone(x, c - 1, r);
  }

  /** The draws accepted for v are those whose product lands in one interval of floor(m / r) * r. */
  lemma AcceptedInterval(x: nat, r: nat, m: nat, v: nat)
    requires 0 < r < m
    ensures var from := v * m + m % r;
            (Accepted(x, r, m) && High(x, r, m) == v) <==> from <= x * r < from + (m / r) * r
  {
    hide Accepted, High, Low, Threshold;
    var from := v * m + m % r;
    HalvesOfProduct(x, r, m, v);
    assert from + (m / r) * r == v * m + m by {
      assert m == (m / r) * r + m % r;
    }
  }

  lemma HalvesOfProduct(x: nat, r: nat, m: nat, v: nat)
    requires 0 < r < m
    ensures (Accepted(x, r, m) && High(x, r, m) == v) <==> v * m + m % r <= x * r < v * m + m
  {
    ThresholdIs(r, m);
    var p := x * r;
    assert p == (p / m) * m + p % m;
    if v * m <= p < v * m + m {
      DivModIs(p, m, v, p - v * m);
    }
  }

  /** Where the draws accepted for v start. */
  ghost function FirstHit(r: nat, m: nat, v: nat): nat
    requires 0 < r < m
  {
    (v * m + m % r + r - 1) / r
  }

  lemma HitsAreConsecutive(x: nat, r: nat, m: nat, v: nat)
    requires 0 < r < m && v < r
    ensures (x < m && Accepted(x, r, m) && High(x, r, m) == v)
            <==> FirstHit(r, m, v) <= x < FirstHit(r, m, v) + m / r
  {
    hide Accepted, High;
    var q, from := m / r, v * m + m % r;
    AcceptedInterval(x, r, m, v);
    CeilingIs(from, r, x);
    CeilingIs(from + q * r, r, x);
    CeilingShift(from, q, r);
    BelowModulus(x, r, m, v);
  }

  /** The raw draws below m that are accepted with the result v. */
  ghost function Hits(r: nat, m: nat, v: nat): set<int>
    requires 0 < r < m
  {
    set x: int | 0 <= x < m && Accepted(x, r, m) && High(x, r, m) == v
  }

  /** Every value of [0, r) comes from exactly floor(m / r) accepted raw draws. */
  lemma ExactlyUniform(r: nat, m: nat, v: nat)
    requires 0 < r < m && v < r
    ensures |Hits(r, m, v)| == m / r
  {
    hide Accepted, High, FirstHit;
    var first := FirstHit(r, m, v);
    forall x: int ensures x in Hits(r, m, v) <==> x in Interval(first, first + m / r) {
      if x >= 0 {
        HitsAreConsecutive(x, r, m, v);
      }
    }
    assert Hits(r, m, v) == Interval(first, first + m / r);
  }

  lemma CeilingShift(n: nat, q: nat, r: nat)
    requires r > 0
    ensures (n + q * r + r - 1) / r == (n + r - 1) / r + q
  {
    var c := (n + r - 1) / r;
    var e := (n + r - 1) % r;
    assert n + r - 1 == c * r + e;
    assert n + q * r + r - 1 == (c + q) * r + e;
    DivModIs(n + q * r + r - 1, r, c + q, e);
  }

  lemma BelowModulus(x: nat, r: nat, m: nat, v: nat)
    requires 0 < r < m && v < r
    ensures x * r < v * m + m ==> x < m
    ensures x < m ==> x * r < r * m
  {
    MulMonotone(v + 1, r, m);
    assert (v + 1) * m == v * m + m;
    MulMonotone(m, x, r);
    MulMonotone(x + 1, m, r);
    assert (x + 1) * r == x * r + r;
  }

  // ----- the draw itself

  /** The first raw draw of the stream that is accepted. */
  ghost function FirstAccepted(raw: seq<nat>, r: nat, m: nat): (k: nat)
    requires 0 < r < m
    ensures k <= |raw|
    ensures k < |raw| ==> Accepted(raw[k], r, m)
    ensures forall i :: 0 <= i < k ==> !Accepted(raw[i], r, m)
  {
    if raw == [] || Accepted(raw[0], r, m) then 0 else 1 + FirstAccepted(raw[1..], r, m)
  }

  /**
   tda_rng_u32_max and tda_rng_u64_max over a stream of raw draws; None when the stream ends
   before a draw is accepted.  The division is paid for only when low < range.
   */
  method DrawMax(raw: seq<nat>, max: nat, m: nat) returns (value: Option<nat>, used: nat)
    requires max < m && forall i :: 0 <= i < |raw| ==> raw[i] < m
    ensures max == m - 1 ==> value == if raw == [] then None else Some(raw[0])
    ensures max < m - 1 ==> value == (var k := FirstAccepted(raw, max + 1, m);
                                      if k == |raw| then None else Some(High(raw[k], max + 1, m)))
    ensures value.Some? ==> value.value <= max
    ensures value.Some? ==> used == if max == m - 1 then 1 else 1 + FirstAccepted(raw, max + 1, m)
    ensures value.Some? && max < m - 1 ==>
              && 0 < used <= |raw| && (raw[used - 1] * (max + 1)) % m >= m % (max + 1)
              && value.value * m <= raw[used - 1] * (max + 1) < (value.value + 1) * m
              && forall i :: 0 <= i < used - 1 ==> (raw[i] * (max + 1)) % m < m % (max + 1)
  {
    value, used := Draw(raw, max, m);
    if value.Some? && max < m - 1 {
      DrawTells(raw, max + 1, m);
    }
  }

  /** What the first accepted draw is, in plain products. */
  lemma DrawTells(raw: seq<nat>, r: nat, m: nat)
    requires 0 < r < m && FirstAccepted(raw, r, m) < |raw|
    ensures var k := FirstAccepted(raw, r, m);
            && (raw[k] * r) % m >= m % r && High(raw[k], r, m) * m <= raw[k] * r < (High(raw[k], r, m) + 1) * m
            && forall i :: 0 <= i < k ==> (raw[i] * r) % m < m % r
  {
    ThresholdIs(r, m);
    var k := FirstAccepted(raw, r, m);
    QuotientBounds(raw[k] * r, m);
    assert Accepted(raw[k], r, m);
    forall i | 0 <= i < k ensures (raw[i] * r) % m < m % r {
      assert !Accepted(raw[i], r, m);
    }
  }

  method Draw(raw: seq<nat>, max: nat, m: nat) returns (value: Option<nat>, used: nat)
    requires max < m && forall i :: 0 <= i < |raw| ==> raw[i] < m
    ensures max == m - 1 ==> value == if raw == [] then None else Some(raw[0])
    ensures max < m - 1 ==> value == (var k := FirstAccepted(raw, max + 1, m);
                                      if k == |raw| then None else Some(High(raw[k], max + 1, m)))
    ensures value.Some? ==> value.value <= max
    ensures value.Some? ==> used == if max == m - 1 then 1 else 1 + FirstAccepted(raw, max + 1, m)
  {
    if raw == [] {
      return None, 0;
    }
    if max == m - 1 {
      return Some(raw[0]), 1;
    }
    var range := max + 1;
    ThresholdIs(range, m);
    var wide := raw[0] * range;
    var low := wide % m;
    used := 1;
    if low < range {
      var threshold := (m - range) % range;
      while low < threshold
        invariant 0 < used <= |raw| && wide == raw[used - 1] * range && low == wide % m
        invariant forall i :: 0 <= i < used - 1 ==> !Accepted(raw[i], range, m)
        decreases |raw| - used
      {
        assert !Accepted(raw[used - 1], range, m);
        if used == |raw| {
          return None, used;
        }
        wide := raw[used] * range;
        low := wide % m;
        used := used + 1;
      }
    }
    HighIsBelow(raw[used - 1], range, m);
    value := Some(wide / m);
  }

  lemma QuotientBounds(x: nat, m: nat)
    requires m > 0
    ensures (x / m) * m <= x < (x / m + 1) * m
  {
    assert x == (x / m) * m + x % m;
  }

  lemma HighIsBelow(x: nat, r: nat, m: nat)
    requires 0 < r < m && x < m
    ensures High(x, r, m) < r
  {
    BelowModulus(x, r, m, 0);
    var p := x * r;
    assert p == (p / m) * m + p % m;
    MulMonotone(r, p / m, m);
  }

  // ----- ranges of signed integers

  function Wrap(x: int, m: nat): nat
    requires m > 0
  {
    x % m
  }

  /** The signed reading of a W-bit word. */
  function Signed(x: nat, m: nat): int {
    if x < m / 2 then x else x - m
  }

  /** tda_rng_i32_range and tda_rng_i64_range, given the draw from [0, width]. */
  function RangeResult(lo: int, draw: nat, m: nat): int
    requires m > 0
  {
    Signed(Wrap(Wrap(lo, m) + draw, m), m)
  }

  /** The width is what unsigned wrap-around leaves of hi - lo, and the result is lo + draw. */
  lemma RangeIsExact(lo: int, hi: int, draw: nat, m: nat)
    requires m > 0 && m % 2 == 0 && -(m / 2) <= lo <= hi < m / 2
    ensures Wrap(Wrap(hi, m) - Wrap(lo, m), m) == hi - lo
    ensures draw <= hi - lo ==> RangeResult(lo, draw, m) == lo + draw
  {
    WrapIs(hi, m);
    WrapIs(lo, m);
    WrapIs(hi - lo, m);
    WrapIs(lo + draw, m);
    var l, h := Wrap(lo, m), Wrap(hi, m);
    if h - l < 0 {
      DivModIs(h - l, m, -1, h - l + m);
    } else {
      DivModIs(h - l, m, 0, h - l);
    }
    if l + draw < m {
      DivModIs(l + draw, m, 0, l + draw);
    } else if draw <= hi - lo {
      DivModIs(l + draw, m, 1, l + draw - m);
    }
  }

  lemma WrapIs(x: int, m: nat)
    requires m > 0
    ensures 0 - m <= x < 0 ==> Wrap(x, m) == x + m
    ensures 0 <= x < m ==> Wrap(x, m) == x
  {
    if 0 - m <= x < 0 {
      DivModIs(x, m, -1, x + m);
    } else if 0 <= x < m {
      DivModIs(x, m, 0, x);
    }
  }
}
