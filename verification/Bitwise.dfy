/** 64-bit words as numbers below 2^64, bit by bit. */
module Bitwise {
  import opened Arith
  import opened Ring

  const WORD_BITS: nat := 64

  function Bit(w: nat, i: nat): bool {
    if i == 0 then w % 2 == 1 else Bit(w / 2, i - 1)
  }

  lemma {:induction false} ZipBit(f: BoolOp, x: nat, y: nat, i: nat)
    requires !f(false, false)
    ensures Bit(Zip(f, x, y), i) == f(Bit(x, i), Bit(y, i))
    decreases i
  {
    var z := Zip(f, x, y);
    if x == 0 && y == 0 {
      ZeroBit(i);
    } else {
      assert z / 2 == Zip(f, x / 2, y / 2);
      if i > 0 {
        ZipBit(f, x / 2, y / 2, i - 1);
      }
    }
  }

  lemma {:induction false} ZeroBit(i: nat)
    ensures !Bit(0, i)
  {
    if i > 0 {
      ZeroBit(i - 1);
    }
  }

  lemma {:induction false} ZipBound(f: BoolOp, x: nat, y: nat, k: nat)
    requires x < Pow2(k) && y < Pow2(k)
    ensures Zip(f, x, y) < Pow2(k)
    decreases k
  {
    if k > 0 {
      ZipBound(f, x / 2, y / 2, k - 1);
    }
  }

  /** Subtracting from all ones flips each of the k bits. */
  lemma {:induction false} FlipBit(x: nat, k: nat, i: nat)
    requires x < Pow2(k) && i < k
    ensures Bit(Pow2(k) - 1 - x, i) == !Bit(x, i)
    decreases k
  {
    var p := Pow2(k - 1);
    assert (2 * p - 1 - x) / 2 == p - 1 - x / 2;
    if i > 0 {
      FlipBit(x / 2, k - 1, i - 1);
    }
  }

  /** (1 << k) - 1 has the k low bits. */
  lemma {:induction false} MaskBit(k: nat, i: nat)
    ensures Bit(Pow2(k) - 1, i) <==> i < k
    decreases k
  {
    if k == 0 {
      ZeroBit(i);
    } else {
      assert (Pow2(k) - 1) / 2 == Pow2(k - 1) - 1 && (Pow2(k) - 1) % 2 == 1;
      if i > 0 {
        MaskBit(k - 1, i - 1);
      }
    }
  }

  /** A quotient by a power of two has the bits above it. */
  lemma {:induction false} ShiftedBit(x: nat, k: nat, i: nat)
    ensures x / Pow2(k) >= 0 && Bit(x / Pow2(k), i) == Bit(x, k + i)
    decreases k
  {
    QuotientIsNat(x, Pow2(k));
    if k == 0 {
      assert x / 1 == x;
    } else {
      ShiftedBit(x / 2, k - 1, i);
      HalfThenRest(x, Pow2(k - 1));
    }
  }

  lemma HalfThenRest(x: nat, p: nat)
    requires p > 0
    ensures x / (2 * p) == (x / 2) / p
  {
    var q, r := (x / 2) / p, (x / 2) % p;
    assert x / 2 == q * p + r;
    assert x == q * (2 * p) + (2 * r + x % 2) by {
      assert q * (2 * p) == 2 * (q * p);
    }
    DivModIs(x, 2 * p, q, 2 * r + x % 2);
  }

  /** Words with the same bits are the same word. */
  lemma {:induction false} SameBits(x: nat, y: nat, k: nat)
    requires x < Pow2(k) && y < Pow2(k) && forall i :: 0 <= i < k ==> Bit(x, i) == Bit(y, i)
    ensures x == y
    decreases k
  {
    if k > 0 {
      assert Bit(x, 0) == Bit(y, 0);
      forall i | 0 <= i < k - 1 ensures Bit(x / 2, i) == Bit(y / 2, i) {
        assert Bit(x, i + 1) == Bit(y, i + 1);
      }
      SameBits(x / 2, y / 2, k - 1);
    }
  }

  // ----- the lowest, the highest and the number of the one bits

  /** tda_bit_ctz. */
  function LowBit(w: nat): nat
    requires w > 0
  {
    if w % 2 == 1 then 0 else 1 + LowBit(w / 2)
  }

  lemma {:induction false} LowBitIs(w: nat, k: nat)
    requires 0 < w < Pow2(k)
    ensures LowBit(w) < k && Bit(w, LowBit(w)) && forall i :: 0 <= i < LowBit(w) ==> !Bit(w, i)
    decreases k
  {
    if w % 2 != 1 {
      LowBitIs(w / 2, k - 1);
    }
  }

  lemma {:induction false} LowBitOf(k: nat, m: nat)
    requires m % 2 == 1
    ensures m * Pow2(k) > 0 && LowBit(m * Pow2(k)) == k
  {
    if k > 0 {
      LowBitOf(k - 1, m);
      assert m * Pow2(k) == 2 * (m * Pow2(k - 1));
    }
  }

  /** Log2 is 63 - tda_bit_clz: the highest one bit. */
  lemma {:induction false} HighBitIs(w: nat, k: nat)
    requires 0 < w < Pow2(k)
    ensures Log2(w) < k && Bit(w, Log2(w)) && forall i :: Log2(w) < i < k ==> !Bit(w, i)
    decreases k
  {
    if w == 1 {
      forall i | 0 < i < k ensures !Bit(w, i) {
        ZeroBit(i - 1);
      }
      assert Pow2(0) == 1;
    } else {
      HighBitIs(w / 2, k - 1);
      forall i | Log2(w) < i < k ensures !Bit(w, i) {
        assert !Bit(w / 2, i - 1);
      }
    }
  }

  function PopCount(w: nat): nat {
    if w == 0 then 0 else w % 2 + PopCount(w / 2)
  }

  /** The one bits below k, moved up by `base`. */
  ghost function Ones(w: nat, k: nat, base: nat): set<nat> {
    if k == 0 then {} else Ones(w, k - 1, base) + (if Bit(w, k - 1) then {base + k - 1} else {})
  }

  lemma {:induction false} OnesAre(w: nat, k: nat, base: nat)
    ensures forall x :: x in Ones(w, k, base) <==> base <= x < base + k && Bit(w, x - base)
  {
    if k > 0 {
      OnesAre(w, k - 1, base);
    }
  }

  function Count(w: nat, k: nat): nat {
    if k == 0 then 0 else Count(w, k - 1) + if Bit(w, k - 1) then 1 else 0
  }

  lemma {:induction false} OnesCount(w: nat, k: nat, base: nat)
    ensures |Ones(w, k, base)| == Count(w, k)
  {
    if k > 0 {
      OnesCount(w, k - 1, base);
      OnesAre(w, k - 1, base);
    }
  }

  lemma {:induction false} CountHalves(w: nat, k: nat)
    requires k > 0
    ensures Count(w, k) == w % 2 + Count(w / 2, k - 1)
  {
    if k > 1 {
      CountHalves(w, k - 1);
    } else {
      assert Count(w, 0) == 0 && Count(w / 2, 0) == 0;
    }
  }

  lemma {:induction false} PopCountIs(w: nat, k: nat)
    requires w < Pow2(k)
    ensures PopCount(w) == Count(w, k)
    decreases k
  {
    if k > 0 {
      CountHalves(w, k);
      PopCountIs(w / 2, k - 1);
    }
  }
}
