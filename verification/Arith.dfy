/** Facts about products, quotients and intervals of integers that the proofs share. */
module Arith {

  lemma MulMonotone(a: int, b: int, m: nat)
    ensures a <= b ==> a * m <= b * m
  {
  }

  /** The quotient and the remainder are the only pair that fits. */
  lemma DivModIs(x: int, m: nat, q: int, r: int)
    requires m > 0 && x == q * m + r && 0 <= r < m
    ensures x / m == q && x % m == r
  {
    var d := q - x / m;
    assert d * m == x % m - r by {
      assert x == (x / m) * m + x % m;
      assert d * m == q * m - (x / m) * m;
    }
    MulMonotone(1, d, m);
    MulMonotone(d, -1, m);
  }

  lemma QuotientIsNat(x: nat, m: nat)
    requires m > 0
    ensures x / m >= 0
  {
    assert x == (x / m) * m + x % m;
    MulMonotone(x / m, -1, m);
  }

  lemma Multiple(q: nat, m: nat)
    requires m > 0
    ensures (q * m) % m == 0
  {
    DivModIs(q * m, m, q, 0);
  }

  /** Multiples of m lie m apart. */
  lemma MultiplesApart(j: nat, i: nat, m: nat)
    requires m > 0 && j % m == 0 && i % m == 0
    ensures j < i + m ==> j <= i
    ensures j < i ==> j + m <= i
  {
    var p, q := j / m, i / m;
    assert j == p * m && i == q * m;
    MulMonotone(q + 1, p, m);
    MulMonotone(p + 1, q, m);
    MulMonotone(q, p, m);
    assert (q + 1) * m == i + m && (p + 1) * m == j + m;
  }

  /** The whole part of the binary logarithm. */
  function Log2(n: nat): nat
    requires n >= 1
  {
    if n == 1 then 0 else 1 + Log2(n / 2)
  }

  /** The integers of [lo, hi). */
  ghost function Interval(lo: int, hi: int): (s: set<int>)
    requires lo <= hi
    ensures |s| == hi - lo && forall x :: x in s <==> lo <= x < hi
    decreases hi - lo
  {
    if lo == hi then {} else Interval(lo, hi - 1) + {hi - 1}
  }
}
