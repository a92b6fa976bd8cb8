/** src/core/rng.c: SplitMix64 seeding, the xoshiro256++ state and the words it gives. */
module Rng {

  // ----- words and their bits

  /** Bit i of a word; positions wrap at 64. */
  predicate Bit(x: bv64, i: bv6) { (x >> i) & 1 == 1 }

  function Xor(x: bv64, y: bv64): bv64 { x ^ y }

  function Plus(x: bv64, y: bv64): bv64 { x + y }

  function Minus(x: bv64, y: bv64): bv64 { x - y }

  lemma RawXorBit(x: bv64, y: bv64, i: bv6)
    ensures Bit(x ^ y, i) == (Bit(x, i) != Bit(y, i))
  {
  }

  lemma XorBit(x: bv64, y: bv64, i: bv6)
    ensures Bit(Xor(x, y), i) == (Bit(x, i) != Bit(y, i))
  {
    hide Bit;
    RawXorBit(x, y, i);
  }

  lemma MinusUndoesPlus(x: bv64, y: bv64)
    ensures Minus(Plus(x, y), y) == x && Plus(Minus(x, y), y) == x
  {
    calc {
      Minus(Plus(x, y), y);
      Minus(x + y, y);
      (x + y) - y;
      x;
    }
    calc {
      Plus(Minus(x, y), y);
      Plus(x - y, y);
      (x - y) + y;
      x;
    }
  }

  lemma PlusCommutes(x: bv64, y: bv64)
    ensures Plus(x, y) == Plus(y, x)
  {
    calc {
      Plus(x, y);
      x + y;
      y + x;
      Plus(y, x);
    }
  }

  // ----- SplitMix64, stage by stage, each with its inverse

  function Shift30(z: bv64): bv64 { z ^ (z >> 30) }

  function Unshift30(y: bv64): bv64 { y ^ (y >> 30) ^ (y >> 60) }

  function Shift27(z: bv64): bv64 { z ^ (z >> 27) }

  function Unshift27(y: bv64): bv64 { y ^ (y >> 27) ^ (y >> 54) }

  function Shift31(z: bv64): bv64 { z ^ (z >> 31) }

  function Unshift31(y: bv64): bv64 { y ^ (y >> 31) ^ (y >> 62) }

  function Times1(z: bv64): bv64 { z * 0xbf58476d1ce4e5b9 }

  function Untimes1(y: bv64): bv64 { y * 0x96de1b173f119089 }

  function Times2(z: bv64): bv64 { z * 0x94d049bb133111eb }

  function Untimes2(y: bv64): bv64 { y * 0x319642b2d24d8ec3 }

  lemma Shift30Inverts(z: bv64)
    ensures Unshift30(Shift30(z)) == z && Shift30(Unshift30(z)) == z
  {
    calc {
      Unshift30(Shift30(z));
      Unshift30(z ^ (z >> 30));
      (z ^ (z >> 30)) ^ ((z ^ (z >> 30)) >> 30) ^ ((z ^ (z >> 30)) >> 60);
      z;
    }
    calc {
      Shift30(Unshift30(z));
      Shift30(z ^ (z >> 30) ^ (z >> 60));
      (z ^ (z >> 30) ^ (z >> 60)) ^ ((z ^ (z >> 30) ^ (z >> 60)) >> 30);
      z;
    }
  }

  lemma Shift27Inverts(z: bv64)
    ensures Unshift27(Shift27(z)) == z && Shift27(Unshift27(z)) == z
  {
    calc {
      Unshift27(Shift27(z));
      Unshift27(z ^ (z >> 27));
      (z ^ (z >> 27)) ^ ((z ^ (z >> 27)) >> 27) ^ ((z ^ (z >> 27)) >> 54);
      z;
    }
    calc {
      Shift27(Unshift27(z));
      Shift27(z ^ (z >> 27) ^ (z >> 54));
      (z ^ (z >> 27) ^ (z >> 54)) ^ ((z ^ (z >> 27) ^ (z >> 54)) >> 27);
      z;
    }
  }

  lemma Shift31Inverts(z: bv64)
    ensures Unshift31(Shift31(z)) == z && Shift31(Unshift31(z)) == z
  {
    calc {
      Unshift31(Shift31(z));
      Unshift31(z ^ (z >> 31));
      (z ^ (z >> 31)) ^ ((z ^ (z >> 31)) >> 31) ^ ((z ^ (z >> 31)) >> 62);
      z;
    }
    calc {
      Shift31(Unshift31(z));
      Shift31(z ^ (z >> 31) ^ (z >> 62));
      (z ^ (z >> 31) ^ (z >> 62)) ^ ((z ^ (z >> 31) ^ (z >> 62)) >> 31);
      z;
    }
  }

  // both multipliers are odd, so each has an inverse modulo 2^64

  lemma Times1Inverts(z: bv64)
    ensures Untimes1(Times1(z)) == z && Times1(Untimes1(z)) == z
  {
    calc {
      Untimes1(Times1(z));
      Untimes1(z * 0xbf58476d1ce4e5b9);
      z * 0xbf58476d1ce4e5b9 * 0x96de1b173f119089;
      z;
    }
    calc {
      Times1(Untimes1(z));
      Times1(z * 0x96de1b173f119089);
      z * 0x96de1b173f119089 * 0xbf58476d1ce4e5b9;
      z;
    }
  }

  lemma Times2Inverts(z: bv64)
    ensures Untimes2(Times2(z)) == z && Times2(Untimes2(z)) == z
  {
    calc {
      Untimes2(Times2(z));
      Untimes2(z * 0x94d049bb133111eb);
      z * 0x94d049bb133111eb * 0x319642b2d24d8ec3;
      z;
    }
    calc {
      Times2(Untimes2(z));
      Times2(z * 0x319642b2d24d8ec3);
      z * 0x319642b2d24d8ec3 * 0x94d049bb133111eb;
      z;
    }
  }

  /** What SplitMix64 makes of its counter. */
  function Mix(z: bv64): bv64 {
    Shift31(Times2(Shift27(Times1(Shift30(z)))))
  }

  function Unmix(y: bv64): bv64 {
    Unshift30(Untimes1(Unshift27(Untimes2(Unshift31(y)))))
  }

  /** The output map of SplitMix64 is a bijection. */
  lemma MixIsBijective(z: bv64)
    ensures Unmix(Mix(z)) == z && Mix(Unmix(z)) == z
  {
    hide Shift30, Unshift30, Shift27, Unshift27, Shift31, Unshift31, Times1, Untimes1, Times2, Untimes2;
    Shift30Inverts(z);
    Times1Inverts(Shift30(z));
    Shift27Inverts(Times1(Shift30(z)));
    Times2Inverts(Shift27(Times1(Shift30(z))));
    Shift31Inverts(Times2(Shift27(Times1(Shift30(z)))));
    Shift31Inverts(z);
    Times2Inverts(Unshift31(z));
    Shift27Inverts(Untimes2(Unshift31(z)));
    Times1Inverts(Unshift27(Untimes2(Unshift31(z))));
    Shift30Inverts(Untimes1(Unshift27(Untimes2(Unshift31(z)))));
  }

  lemma MixInjective(x: bv64, y: bv64)
    ensures x != y ==> Mix(x) != Mix(y)
  {
    hide *;
    MixIsBijective(x);
    MixIsBijective(y);
  }

  /** A one k positions above. */
  predicate Above(x: bv64, k: bv6, i: bv6) { i <= 63 - k && Bit(x, i + k) }

  function Shr(x: bv64, k: bv6): bv64 { x >> k }

  lemma RawShrBit30(x: bv64, i: bv6)
    ensures Bit(x >> 30, i) == Above(x, 30, i)
  {
  }

  lemma RawShrBit27(x: bv64, i: bv6)
    ensures Bit(x >> 27, i) == Above(x, 27, i)
  {
  }

  lemma RawShrBit31(x: bv64, i: bv6)
    ensures Bit(x >> 31, i) == Above(x, 31, i)
  {
  }

  lemma ShrBit(x: bv64, k: bv6, i: bv6)
    requires k == 30 || k == 27 || k == 31
    ensures Bit(Shr(x, k), i) == Above(x, k, i)
  {
    hide Bit, Above;
    if k == 30 {
      RawShrBit30(x, i);
    } else if k == 27 {
      RawShrBit27(x, i);
    } else {
      RawShrBit31(x, i);
    }
  }

  lemma ShiftsAre(z: bv64)
    ensures Shift30(z) == Xor(z, Shr(z, 30)) && Shift27(z) == Xor(z, Shr(z, 27)) && Shift31(z) == Xor(z, Shr(z, 31))
  {
    assert Shr(z, 30) == z >> 30;
    assert Xor(z, z >> 30) == z ^ (z >> 30);
    assert Shr(z, 27) == z >> 27;
    assert Xor(z, z >> 27) == z ^ (z >> 27);
    assert Shr(z, 31) == z >> 31;
    assert Xor(z, z >> 31) == z ^ (z >> 31);
  }

  /** y is x with each bit flipped that has a one k positions above it. */
  ghost predicate XorShifted(x: bv64, k: bv6, y: bv64) {
    forall i: bv6 :: Bit(y, i) == (Bit(x, i) != Above(x, k, i))
  }

  lemma XorShrBits(z: bv64, k: bv6)
    requires k == 30 || k == 27 || k == 31
    ensures XorShifted(z, k, Xor(z, Shr(z, k)))
  {
    hide Bit, Above, Shr, Xor;
    forall i: bv6 ensures Bit(Xor(z, Shr(z, k)), i) == (Bit(z, i) != Above(z, k, i)) {
      XorBit(z, Shr(z, k), i);
      ShrBit(z, k, i);
    }
  }

  /** w is what SplitMix64 gives for the counter z: two rounds of xor-shift and product, and a last xor-shift. */
  ghost predicate SplitMixed(z: bv64, w: bv64) {
    exists a, c :: XorShifted(z, 30, a) && XorShifted(Times1(a), 27, c) && XorShifted(Times2(c), 31, w)
  }

  lemma MixIs(z: bv64)
    ensures SplitMixed(z, Mix(z))
  {
    hide XorShifted, Shift30, Shift27, Shift31, Times1, Times2, Xor, Shr;
    var a := Shift30(z);
    var b := Times1(a);
    var c := Shift27(b);
    var d := Times2(c);
    ShiftsAre(z);
    ShiftsAre(b);
    ShiftsAre(d);
    XorShrBits(z, 30);
    XorShrBits(b, 27);
    XorShrBits(d, 31);
  }

  // ----- seeding

  datatype State = State(s0: bv64, s1: bv64, s2: bv64, s3: bv64)

  const ALL_ZERO := State(0, 0, 0, 0)

  /** The counter of SplitMix64 after one more step. */
  function Tick(counter: bv64): bv64 { counter + 0x9e3779b97f4a7c15 }

  function Seeded(seed: bv64): State {
    var c1 := Tick(seed);
    var c2 := Tick(c1);
    var c3 := Tick(c2);
    State(Mix(c1), Mix(c2), Mix(c3), Mix(Tick(c3)))
  }

  lemma CountersDiffer(seed: bv64)
    ensures var c1 := Tick(seed);
            var c2 := Tick(c1);
            var c3 := Tick(c2);
            var c4 := Tick(c3);
            c1 != c2 && c1 != c3 && c1 != c4 && c2 != c3 && c2 != c4 && c3 != c4
  {
  }

  /** The four words of a seeded state are distinct, so it is not the all-zero state. */
  lemma SeededWordsDiffer(seed: bv64)
    ensures var s := Seeded(seed);
            s.s0 != s.s1 && s.s0 != s.s2 && s.s0 != s.s3 && s.s1 != s.s2 && s.s1 != s.s3 && s.s2 != s.s3
    ensures Seeded(seed) != ALL_ZERO
  {
    hide Mix, Tick;
    var c1 := Tick(seed);
    var c2 := Tick(c1);
    var c3 := Tick(c2);
    var c4 := Tick(c3);
    CountersDiffer(seed);
    MixInjective(c1, c2);
    MixInjective(c1, c3);
    MixInjective(c1, c4);
    MixInjective(c2, c3);
    MixInjective(c2, c4);
    MixInjective(c3, c4);
  }

  /** The counters are the multiples of the odd constant after the seed. */
  lemma CountersAre(seed: bv64)
    ensures Tick(seed) == seed + 0x9e3779b97f4a7c15
    ensures Tick(Tick(seed)) == seed + 2 * 0x9e3779b97f4a7c15
    ensures Tick(Tick(Tick(seed))) == seed + 3 * 0x9e3779b97f4a7c15
    ensures Tick(Tick(Tick(Tick(seed)))) == seed + 4 * 0x9e3779b97f4a7c15
  {
  }

  /** The words of a seeded state are the first four outputs of SplitMix64. */
  lemma SeededWords(seed: bv64)
    ensures var s := Seeded(seed);
            && SplitMixed(seed + 0x9e3779b97f4a7c15, s.s0) && SplitMixed(seed + 2 * 0x9e3779b97f4a7c15, s.s1)
            && SplitMixed(seed + 3 * 0x9e3779b97f4a7c15, s.s2) && SplitMixed(seed + 4 * 0x9e3779b97f4a7c15, s.s3)
  {
    hide SplitMixed, Mix, Tick;
    CountersAre(seed);
    MixIs(Tick(seed));
    MixIs(Tick(Tick(seed)));
    MixIs(Tick(Tick(Tick(seed))));
    MixIs(Tick(Tick(Tick(Tick(seed)))));
  }

  // ----- the xoshiro256++ step

  function Rotl23(val: bv64): bv64 { (val << 23) | (val >> 41) }

  function Rotl45(val: bv64): bv64 { (val << 45) | (val >> 19) }

  function Rotl19(val: bv64): bv64 { (val << 19) | (val >> 45) }

  function Left17(val: bv64): bv64 { val << 17 }

  function Shl17(val: bv64): bv64 { val ^ (val << 17) }

  function Unshl17(val: bv64): bv64 { val ^ (val << 17) ^ (val << 34) ^ (val << 51) }

  lemma RotationsInvert(x: bv64)
    ensures Rotl19(Rotl45(x)) == x && Rotl45(Rotl19(x)) == x
  {
    calc {
      Rotl19(Rotl45(x));
      Rotl19((x << 45) | (x >> 19));
      (((x << 45) | (x >> 19)) << 19) | (((x << 45) | (x >> 19)) >> 45);
      x;
    }
    calc {
      Rotl45(Rotl19(x));
      Rotl45((x << 19) | (x >> 45));
      (((x << 19) | (x >> 45)) << 45) | (((x << 19) | (x >> 45)) >> 19);
      x;
    }
  }

  lemma Shl17Inverts(x: bv64)
    ensures Unshl17(Shl17(x)) == x && Shl17(Unshl17(x)) == x
  {
    calc {
      Unshl17(Shl17(x));
      Unshl17(x ^ (x << 17));
      (x ^ (x << 17)) ^ ((x ^ (x << 17)) << 17) ^ ((x ^ (x << 17)) << 34) ^ ((x ^ (x << 17)) << 51);
      x;
    }
    calc {
      Shl17(Unshl17(x));
      Shl17(x ^ (x << 17) ^ (x << 34) ^ (x << 51));
      (x ^ (x << 17) ^ (x << 34) ^ (x << 51)) ^ ((x ^ (x << 17) ^ (x << 34) ^ (x << 51)) << 17);
      x;
    }
  }

  lemma XorTwice(x: bv64, y: bv64)
    ensures Xor(Xor(x, y), y) == x
  {
    calc {
      Xor(Xor(x, y), y);
      Xor(x ^ y, y);
      (x ^ y) ^ y;
      x;
    }
  }

  /** The linear step under the scrambler. */
  function Advance(s: State): State {
    var s2 := Xor(s.s2, s.s0);
    var s3 := Xor(s.s3, s.s1);
    State(Xor(s.s0, s3), Xor(s.s1, s2), Xor(s2, Left17(s.s1)), Rotl45(s3))
  }

  function Retreat(t: State): State {
    var s3 := Rotl19(t.s3);
    var s1 := Unshl17(Xor(t.s1, t.s2));
    var s0 := Xor(t.s0, s3);
    State(s0, s1, Xor(Xor(t.s1, s1), s0), Xor(s3, s1))
  }

  lemma MiddleWords(b: bv64, m: bv64)
    ensures Xor(Xor(b, m), Xor(m, Left17(b))) == Shl17(b)
  {
    calc {
      Xor(Xor(b, m), Xor(m, Left17(b)));
      Xor(Xor(b, m), Xor(m, b << 17));
      Xor(b ^ m, m ^ (b << 17));
      (b ^ m) ^ (m ^ (b << 17));
      b ^ (b << 17);
      Shl17(b);
    }
  }

  lemma MiddleWord(b: bv64, c: bv64, a: bv64)
    ensures Xor(Xor(Xor(b, Xor(c, a)), b), a) == c
  {
    calc {
      Xor(Xor(Xor(b, Xor(c, a)), b), a);
      Xor(Xor(Xor(b, c ^ a), b), a);
      Xor(Xor(b ^ (c ^ a), b), a);
      Xor((b ^ (c ^ a)) ^ b, a);
      ((b ^ (c ^ a)) ^ b) ^ a;
      c;
    }
  }

  /** The step loses nothing: Retreat undoes it, so distinct states stay distinct. */
  lemma RetreatUndoesAdvance(s: State)
    ensures Retreat(Advance(s)) == s
  {
    hide Rotl19, Rotl45, Unshl17, Shl17, Left17, Xor;
    var m, d := Xor(s.s2, s.s0), Xor(s.s3, s.s1);
    RotationsInvert(d);
    XorTwice(s.s0, d);
    MiddleWords(s.s1, m);
    Shl17Inverts(s.s1);
    MiddleWord(s.s1, s.s2, s.s0);
    XorTwice(s.s3, s.s1);
  }

  lemma AdvanceInjective(s: State, t: State)
    ensures Advance(s) == Advance(t) ==> s == t
  {
    hide *;
    RetreatUndoesAdvance(s);
    RetreatUndoesAdvance(t);
  }

  lemma AdvanceOfZero()
    ensures Advance(ALL_ZERO) == ALL_ZERO
  {
    assert Xor(0, 0) == 0;
    assert Left17(0) == 0;
    assert Rotl45(0) == 0;
  }

  /** Only the all-zero state leads to the all-zero state. */
  lemma NonZeroStays(s: State)
    requires s != ALL_ZERO
    ensures Advance(s) != ALL_ZERO
  {
    hide Advance;
    AdvanceOfZero();
    AdvanceInjective(s, ALL_ZERO);
  }

  // ----- the generator

  /** The output word of a state. */
  function Scrambled(s: State): bv64 {
    Plus(Rotl23(Plus(s.s0, s.s3)), s.s0)
  }

  lemma Rotl23Bit(x: bv64, i: bv6)
    ensures Bit(Rotl23(x), i) == Bit(x, i + 41)
  {
  }

  lemma Rotl45Bit(x: bv64, i: bv6)
    ensures Bit(Rotl45(x), i) == Bit(x, i + 19)
  {
  }

  /** A one 17 positions below. */
  predicate Below17(x: bv64, i: bv6) { i >= 17 && Bit(x, i - 17) }

  lemma Left17Bit(x: bv64, i: bv6)
    ensures Bit(Left17(x), i) == Below17(x, i)
  {
  }

  /** The word less s0 is the sum of s0 and s3, each bit 23 positions up and around. */
  ghost predicate WordBits(s: State, word: bv64) {
    forall i: bv6 :: Bit(Minus(word, s.s0), i) == Bit(Plus(s.s0, s.s3), i + 41)
  }

  lemma ScrambledBits(s: State)
    ensures WordBits(s, Scrambled(s))
  {
    hide Rotl23, Bit, Plus, Minus;
    MinusUndoesPlus(Rotl23(Plus(s.s0, s.s3)), s.s0);
    forall i: bv6 ensures Bit(Minus(Scrambled(s), s.s0), i) == Bit(Plus(s.s0, s.s3), i + 41) {
      Rotl23Bit(Plus(s.s0, s.s3), i);
    }
  }

  /** Bit by bit w is the sum of x, y and z without carries. */
  ghost predicate Sum3(w: bv64, x: bv64, y: bv64, z: bv64) {
    forall i: bv6 :: Bit(w, i) == (Bit(x, i) != (Bit(y, i) != Bit(z, i)))
  }

  /** Of x, y and z moved up by 17. */
  ghost predicate Sum17(w: bv64, x: bv64, y: bv64, z: bv64) {
    forall i: bv6 :: Bit(w, i) == ((Bit(x, i) != Bit(y, i)) != Below17(z, i))
  }

  /** Of x and y, moved up by 45 and around. */
  ghost predicate Sum45(w: bv64, x: bv64, y: bv64) {
    forall i: bv6 :: Bit(w, i) == (Bit(x, i + 19) != Bit(y, i + 19))
  }

  lemma Sum3Is(x: bv64, y: bv64, z: bv64)
    ensures Sum3(Xor(x, Xor(y, z)), x, y, z)
  {
    hide Bit, Xor;
    forall i: bv6 ensures Bit(Xor(x, Xor(y, z)), i) == (Bit(x, i) != (Bit(y, i) != Bit(z, i))) {
      XorBit(x, Xor(y, z), i);
      XorBit(y, z, i);
    }
  }

  lemma Sum17Is(x: bv64, y: bv64, z: bv64)
    ensures Sum17(Xor(Xor(x, y), Left17(z)), x, y, z)
  {
    hide Bit, Xor, Left17, Below17;
    forall i: bv6 ensures Bit(Xor(Xor(x, y), Left17(z)), i) == ((Bit(x, i) != Bit(y, i)) != Below17(z, i)) {
      XorBit(Xor(x, y), Left17(z), i);
      XorBit(x, y, i);
      Left17Bit(z, i);
    }
  }

  lemma Sum45Is(x: bv64, y: bv64)
    ensures Sum45(Rotl45(Xor(x, y)), x, y)
  {
    hide Bit, Xor, Rotl45;
    forall i: bv6 ensures Bit(Rotl45(Xor(x, y)), i) == (Bit(x, i + 19) != Bit(y, i + 19)) {
      Rotl45Bit(Xor(x, y), i);
      XorBit(x, y, i + 19);
    }
  }

  /** The step, bit by bit. */
  ghost predicate StepBits(s: State, t: State) {
    && Sum3(t.s0, s.s0, s.s3, s.s1) && Sum3(t.s1, s.s1, s.s2, s.s0)
    && Sum17(t.s2, s.s2, s.s0, s.s1) && Sum45(t.s3, s.s3, s.s1)
  }

  lemma AdvanceBits(s: State)
    ensures StepBits(s, Advance(s))
  {
    hide Sum3, Sum17, Sum45, Xor, Left17, Rotl45;
    Sum3Is(s.s0, s.s3, s.s1);
    Sum3Is(s.s1, s.s2, s.s0);
    Sum17Is(s.s2, s.s0, s.s1);
    Sum45Is(s.s3, s.s1);
  }

  function Rotl41(val: bv64): bv64 { (val << 41) | (val >> 23) }

  lemma Rotl41Inverts(x: bv64)
    ensures Rotl41(Rotl23(x)) == x && Rotl23(Rotl41(x)) == x
  {
    calc {
      Rotl41(Rotl23(x));
      Rotl41((x << 23) | (x >> 41));
      (((x << 23) | (x >> 41)) << 41) | (((x << 23) | (x >> 41)) >> 23);
      x;
    }
    calc {
      Rotl23(Rotl41(x));
      Rotl23((x << 41) | (x >> 23));
      (((x << 41) | (x >> 23)) << 23) | (((x << 41) | (x >> 23)) >> 41);
      x;
    }
  }

  /** The s3 that makes s0 give the word. */
  function S3For(s0: bv64, word: bv64): bv64 {
    Minus(Rotl41(Minus(word, s0)), s0)
  }

  /** With s0 fixed, the word is a bijection of s3. */
  lemma WordIsBijective(s: State, word: bv64)
    ensures S3For(s.s0, Scrambled(s)) == s.s3 && Scrambled(s.(s3 := S3For(s.s0, word))) == word
  {
    hide Rotl23, Rotl41, Plus, Minus;
    MinusUndoesPlus(Rotl23(Plus(s.s0, s.s3)), s.s0);
    Rotl41Inverts(Plus(s.s0, s.s3));
    PlusCommutes(s.s0, s.s3);
    MinusUndoesPlus(s.s3, s.s0);
    var sum := Rotl41(Minus(word, s.s0));
    PlusCommutes(s.s0, Minus(sum, s.s0));
    MinusUndoesPlus(sum, s.s0);
    Rotl41Inverts(Minus(word, s.s0));
    MinusUndoesPlus(word, s.s0);
  }

  // ----- the published stream

  /** The first draws of the reference generator from the seeds 0 and 42. */
  lemma ReferenceStream()
    ensures var s := Seeded(0);
            && Scrambled(s) == 0x53175d61490b23df && Scrambled(After(s, 1)) == 0x61da6f3dc380d507
            && Scrambled(After(s, 2)) == 0x5c0fdf91ec9a7bfc && Scrambled(After(s, 3)) == 0x02eebf8c3bbe5e1a
            && Scrambled(After(s, 4)) == 0x7eca04ebaf4a5eea
    ensures var s := Seeded(42);
            && Scrambled(s) == 0xd0764d4f4476689f && Scrambled(After(s, 1)) == 0x519e4174576f3791
            && Scrambled(After(s, 2)) == 0xfbe07cfb0c24ed8c && Scrambled(After(s, 3)) == 0xb37d9f600cd835b8
            && Scrambled(After(s, 4)) == 0xcb231c3874846a73
  {
    hide Seeded;
    Seed0();
    Seed42();
  }

  lemma Seed0()
    ensures Seeded(0) == State(0xe220a8397b1dcdaf, 0x6e789e6aa1b965f4, 0x06c45d188009454f, 0xf88bb8a8724c81ec)
  {
  }

  lemma Seed42()
    ensures Seeded(42) == State(0xbdd732262feb6e95, 0x28efe333b266f103, 0x47526757130f9f52, 0x581ce1ff0e4ae394)
  {
  }

  function After(s: State, draws: nat): State {
    if draws == 0 then s else Advance(After(s, draws - 1))
  }

  /** For every seed and any number of draws the state is never all zero. */
  lemma {:induction false} NeverAllZero(seed: bv64, draws: nat)
    ensures After(Seeded(seed), draws) != ALL_ZERO
  {
    hide Advance, Seeded;
    if draws == 0 {
      SeededWordsDiffer(seed);
    } else {
      NeverAllZero(seed, draws - 1);
      NonZeroStays(After(Seeded(seed), draws - 1));
    }
  }

  class Generator {
    var s: State

    constructor FromSeed(seed: bv64)
      ensures s == Seeded(seed) && s != ALL_ZERO
      ensures SplitMixed(seed + 0x9e3779b97f4a7c15, s.s0) && SplitMixed(seed + 2 * 0x9e3779b97f4a7c15, s.s1)
      ensures SplitMixed(seed + 3 * 0x9e3779b97f4a7c15, s.s2) && SplitMixed(seed + 4 * 0x9e3779b97f4a7c15, s.s3)
    {
      hide Seeded, SplitMixed;
      s := Seeded(seed);
      SeededWordsDiffer(seed);
      SeededWords(seed);
    }

    /** next_u64; `reseeded` records whether the branch for a zeroed struct was taken. */
    method NextU64() returns (word: bv64, ghost reseeded: bool)
      modifies this
      ensures reseeded <==> old(s) == ALL_ZERO
      ensures var from := if reseeded then Seeded(0) else old(s);
              && word == Scrambled(from) && s == Advance(from) && s != ALL_ZERO
              && WordBits(from, word) && StepBits(from, s)
    {
      hide Advance, Seeded, Scrambled, WordBits, StepBits;
      reseeded := s == ALL_ZERO;
      if s.s0 == 0 && s.s1 == 0 && s.s2 == 0 && s.s3 == 0 {
        SeededWordsDiffer(0);
        s := Seeded(0);
      }
      NonZeroStays(s);
      ScrambledBits(s);
      AdvanceBits(s);
      word := Scrambled(s);
      s := Advance(s);
    }

    /** Any run of draws from a seed: the reseed branch never fires. */
    method Run(seed: bv64, draws: nat) returns (words: seq<bv64>)
      requires s == Seeded(seed)
      modifies this
      ensures |words| == draws && s == After(Seeded(seed), draws)
      ensures forall k :: 0 <= k < draws ==> words[k] == Scrambled(After(Seeded(seed), k))
    {
      hide Advance, Seeded, Scrambled, WordBits, StepBits;
      words := [];
      while |words| < draws
        invariant |words| <= draws && s == After(Seeded(seed), |words|)
        invariant forall k :: 0 <= k < |words| ==> words[k] == Scrambled(After(Seeded(seed), k))
      {
        NeverAllZero(seed, |words|);
        var word, reseeded := NextU64();
        assert !reseeded;
        words := words + [word];
      }
    }
  }
}
