/** Positions around a ring of `cap` slots, and the bit masks that keep a position inside it. */
module Ring {
  import opened Arith

  /** How far `to` lies ahead of `from`. */
  function Ahead(from: nat, to: nat, cap: nat): (d: nat)
    requires from < cap && to < cap
    ensures d < cap
  {
    if from <= to then to - from else to + cap - from
  }

  function Next(i: nat, cap: nat): (j: nat)
    requires i < cap
    ensures j < cap
  {
    if i + 1 == cap then 0 else i + 1
  }

  lemma AheadOfSelf(a: nat, cap: nat)
    requires a < cap
    ensures Ahead(a, a, cap) == 0
  {
  }

  lemma AheadTells(a: nat, b: nat, c: nat, cap: nat)
    requires a < cap && b < cap && c < cap
    ensures Ahead(a, b, cap) == Ahead(a, c, cap) <==> b == c
  {
  }

  lemma AheadNext(a: nat, i: nat, cap: nat)
    requires a < cap && i < cap
    ensures Ahead(a, i, cap) + 1 < cap ==> Ahead(a, Next(i, cap), cap) == Ahead(a, i, cap) + 1
    ensures 1 < cap ==> Ahead(i, Next(i, cap), cap) == 1
  {
  }

  /** Distances on the way from `a` add up. */
  lemma AheadSplits(a: nat, b: nat, c: nat, cap: nat)
    requires a < cap && b < cap && c < cap
    ensures Ahead(a, b, cap) <= Ahead(a, c, cap) <==> Ahead(a, b, cap) + Ahead(b, c, cap) == Ahead(a, c, cap)
    ensures Ahead(a, b, cap) > Ahead(a, c, cap) <==> Ahead(a, b, cap) + Ahead(b, c, cap) == Ahead(a, c, cap) + cap
  {
  }

  // ----- masks

  function Pow2(k: nat): (p: nat)
    ensures p > 0
  {
    if k == 0 then 1 else 2 * Pow2(k - 1)
  }

  lemma {:induction false} Pow2Monotone(j: nat, k: nat)
    requires j <= k
    ensures Pow2(j) <= Pow2(k)
    decreases k
  {
    if j < k {
      Pow2Monotone(j, k - 1);
    }
  }

  lemma Doubles(k: nat)
    ensures Pow2(k + 1) == 2 * Pow2(k)
  {
  }

  /** The alignments: the powers of two a size_t holds. */
  predicate IsAlign(align: nat)
    ensures IsAlign(align) ==> align > 0
  {
    exists k: nat :: k < 64 && align == Pow2(k)
  }

  type BoolOp = (bool, bool) -> bool

  /** The bitwise operator that applies f to each pair of bits; f(false, false) must be false. */
  function Zip(f: BoolOp, x: nat, y: nat): nat
    decreases x + y
  {
    if x == 0 && y == 0 then 0
    else (if f(x % 2 == 1, y % 2 == 1) then 1 else 0) + 2 * Zip(f, x / 2, y / 2)
  }

  const AND: BoolOp := (p, q) => p && q

  /** Bitwise and. */
  function And(x: nat, y: nat): nat {
    Zip(AND, x, y)
  }

  lemma {:induction false} AndZero(x: nat)
    ensures And(x, 0) == 0
  {
    if x > 0 {
      AndZero(x / 2);
    }
  }

  /** Masking with one less than a power of two takes the remainder. */
  lemma {:induction false} MaskIsRemainder(x: nat, k: nat)
    ensures And(x, Pow2(k) - 1) == x % Pow2(k)
    decreases k
  {
    hide And;
    if k == 0 {
      AndZero(x);
      DivModIs(x, 1, x, 0);
    } else {
      MaskIsRemainder(x / 2, k - 1);
      RemainderStep(x, Pow2(k - 1));
      MaskStep(x, Pow2(k - 1));
    }
  }

  lemma RemainderStep(x: nat, p: nat)
    requires p > 0
    ensures x % (2 * p) == x % 2 + 2 * ((x / 2) % p)
  {
    var q, r := (x / 2) / p, (x / 2) % p;
    assert x / 2 == q * p + r;
    assert x == q * (2 * p) + (2 * r + x % 2) by {
      assert q * (2 * p) == 2 * (q * p);
    }
    DivModIs(x, 2 * p, q, 2 * r + x % 2);
  }

  lemma MaskStep(x: nat, p: nat)
    requires p > 0
    ensures And(x, 2 * p - 1) == x % 2 + 2 * And(x / 2, p - 1)
  {
    assert (2 * p - 1) % 2 == 1 && (2 * p - 1) / 2 == p - 1;
  }

  lemma {:induction false} Pow2Divides(k: nat, n: nat)
    requires k <= n
    ensures Pow2(n) == Pow2(n - k) * Pow2(k)
    decreases n - k
  {
    if k < n {
      Pow2Divides(k, n - 1);
      assert Pow2(n - k) == 2 * Pow2(n - 1 - k);
    }
  }

  /** b - a in 64-bit arithmetic. */
  function Minus(b: nat, a: nat): nat {
    (b - a) % Pow2(64)
  }

  /**
   The two masks of the block table: a step around the ring, and a difference that may have
   wrapped, are the ring step and the ring distance.
   */
  lemma MasksWalkTheRing(a: nat, b: nat, k: nat)
    requires k <= 64 && a < Pow2(k) && b < Pow2(k)
    ensures And(a + 1, Pow2(k) - 1) == Next(a, Pow2(k))
    ensures And(Minus(b, a), Pow2(k) - 1) == Ahead(a, b, Pow2(k))
  {
    hide And, Pow2;
    MaskIsRemainder(a + 1, k);
    MaskIsRemainder(Minus(b, a), k);
    Pow2Divides(k, 64);
    StepRemainder(a, Pow2(k));
    DifferenceRemainder(a, b, Pow2(k), Pow2(64 - k));
  }

  lemma StepRemainder(a: nat, cap: nat)
    requires a < cap
    ensures (a + 1) % cap == Next(a, cap)
  {
    if a + 1 == cap {
      DivModIs(a + 1, cap, 1, 0);
    } else {
      DivModIs(a + 1, cap, 0, a + 1);
    }
  }

  lemma DifferenceRemainder(a: nat, b: nat, cap: nat, m: nat)
    requires a < cap && b < cap && m > 0
    ensures m * cap > 0 && ((b - a) % (m * cap)) % cap == Ahead(a, b, cap)
  {
    MulMonotone(1, m, cap);
    var all := m * cap;
    if a <= b {
      DivModIs(b - a, all, 0, b - a);
      DivModIs(b - a, cap, 0, b - a);
    } else {
      DivModIs(b - a, all, -1, b - a + all);
      assert b - a + all == (m - 1) * cap + (b - a + cap);
      DivModIs(b - a + all, cap, m - 1, b - a + cap);
    }
  }
}
