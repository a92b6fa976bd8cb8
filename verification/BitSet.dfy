/** src/ds/bitset.c: a set over 0..nbits-1 in 64-bit words. */
module BitSets {
  import opened Core
  import opened Arith
  import opened Ring
  import opened Bitwise

  function Modulus(): nat { Pow2(WORD_BITS) }

  function WordOnes(): nat { Pow2(WORD_BITS) - 1 }

  const OR: BoolOp := (p, q) => p || q
  const XOR: BoolOp := (p, q) => p != q
  const AND_NOT: BoolOp := (p, q) => p && !q

  function WordsFor(nbits: nat): nat {
    nbits / WORD_BITS + if nbits % WORD_BITS != 0 then 1 else 0
  }

  function TailMask(nbits: nat): nat {
    var rem := nbits % WORD_BITS;
    if rem == 0 then WordOnes() else Pow2(rem) - 1
  }

  function Shl(x: nat, k: nat): nat { (x * Pow2(k)) % Modulus() }

  function Shr(x: nat, k: nat): nat {
    QuotientIsNat(x, Pow2(k));
    x / Pow2(k)
  }

  /** The word with the bits below `from` masked off. */
  function WordFrom(word: nat, from: nat): nat {
    Zip(AND, word, Shl(WordOnes(), from % WORD_BITS))
  }

  /** The word with the bits above `upto` masked off. */
  function WordUpto(word: nat, upto: nat): nat {
    Zip(AND, word, Shr(WordOnes(), WORD_BITS - 1 - upto % WORD_BITS))
  }

  // ----- the masks bit by bit

  lemma TailMaskBit(nbits: nat, b: nat)
    requires b < WORD_BITS
    ensures Bit(TailMask(nbits), b) <==> nbits % WORD_BITS == 0 || b < nbits % WORD_BITS
    ensures TailMask(nbits) < Modulus()
  {
    hide Pow2, Bit;
    MaskBit(WORD_BITS, b);
    MaskBit(nbits % WORD_BITS, b);
    Pow2Monotone(nbits % WORD_BITS, WORD_BITS);
  }

  lemma WordFromBit(word: nat, from: nat, b: nat)
    requires b < WORD_BITS && word < Modulus()
    ensures Bit(WordFrom(word, from), b) <==> Bit(word, b) && b >= from % WORD_BITS
    ensures WordFrom(word, from) < Modulus()
  {
    hide Bit, Zip, Pow2;
    var k := from % WORD_BITS;
    ShiftedOnes(k);
    var mask := Shl(WordOnes(), k);
    ZipBit(AND, word, mask, b);
    ZipBound(AND, word, mask, WORD_BITS);
    Pow2Monotone(k, WORD_BITS);
    FlipBit(Pow2(k) - 1, WORD_BITS, b);
    MaskBit(k, b);
  }

  lemma ShiftedOnes(k: nat)
    requires k < WORD_BITS
    ensures Shl(WordOnes(), k) == WordOnes() - (Pow2(k) - 1)
  {
    hide Pow2;
    var p, m := Pow2(k), Modulus();
    Pow2Monotone(k, WORD_BITS);
    assert WordOnes() * p == (p - 1) * m + (m - p);
    DivModIs(WordOnes() * p, m, p - 1, m - p);
  }

  lemma WordUptoBit(word: nat, upto: nat, b: nat)
    requires b < WORD_BITS && word < Modulus()
    ensures Bit(WordUpto(word, upto), b) <==> Bit(word, b) && b <= upto % WORD_BITS
    ensures WordUpto(word, upto) < Modulus()
  {
    hide Bit, Zip, Pow2;
    var k := upto % WORD_BITS;
    LoweredOnes(k);
    var mask := Shr(WordOnes(), WORD_BITS - 1 - k);
    ZipBit(AND, word, mask, b);
    Pow2Monotone(k + 1, WORD_BITS);
    ZipBound(AND, word, mask, WORD_BITS);
    MaskBit(k + 1, b);
  }

  lemma LoweredOnes(k: nat)
    requires k < WORD_BITS
    ensures Shr(WordOnes(), WORD_BITS - 1 - k) == Pow2(k + 1) - 1
  {
    hide Pow2;
    var p, q := Pow2(WORD_BITS - 1 - k), Pow2(k + 1);
    Pow2Divides(WORD_BITS - 1 - k, WORD_BITS);
    assert Modulus() == q * p;
    assert WordOnes() == (q - 1) * p + (p - 1);
    DivModIs(WordOnes(), p, q - 1, p - 1);
  }

  // ----- the set behind the words

  predicate InBits(ws: seq<nat>, i: nat) {
    i / WORD_BITS < |ws| && Bit(ws[i / WORD_BITS], i % WORD_BITS)
  }

  ghost predicate AreWords(ws: seq<nat>) {
    forall w :: 0 <= w < |ws| ==> ws[w] < Modulus()
  }

  ghost function Members(ws: seq<nat>, nbits: nat): set<nat> {
    set i | 0 <= i < nbits && InBits(ws, i)
  }

  /** The bits above the last live one are clear. */
  ghost predicate TailClear(ws: seq<nat>, nbits: nat) {
    forall i :: nbits <= i ==> !InBits(ws, i)
  }

  function Combined(f: BoolOp, ws: seq<nat>, vs: seq<nat>): (r: seq<nat>)
    requires |ws| == |vs|
    ensures |r| == |ws|
  {
    seq(|ws|, w requires 0 <= w < |ws| => Zip(f, ws[w], vs[w]))
  }

  /** A pairwise operation on the words is that operation on membership, and keeps the tail clear. */
  lemma CombinedBits(f: BoolOp, ws: seq<nat>, vs: seq<nat>, nbits: nat)
    requires |ws| == |vs| && !f(false, false) && AreWords(ws) && AreWords(vs)
    requires TailClear(ws, nbits) && TailClear(vs, nbits)
    ensures AreWords(Combined(f, ws, vs)) && TailClear(Combined(f, ws, vs), nbits)
    ensures forall i: nat :: InBits(Combined(f, ws, vs), i) == f(InBits(ws, i), InBits(vs, i))
  {
    hide Bit, Zip, Pow2;
    var r := Combined(f, ws, vs);
    forall w | 0 <= w < |r| ensures r[w] < Modulus() {
      ZipBound(f, ws[w], vs[w], WORD_BITS);
    }
    forall i: nat ensures InBits(r, i) == f(InBits(ws, i), InBits(vs, i)) {
      if i / WORD_BITS < |ws| {
        ZipBit(f, ws[i / WORD_BITS], vs[i / WORD_BITS], i % WORD_BITS);
      }
    }
  }

  // ----- counting

  /** The ones of the first n words. */
  ghost function Prefix(ws: seq<nat>, n: nat): set<nat>
    requires n <= |ws|
  {
    if n == 0 then {} else Prefix(ws, n - 1) + Ones(ws[n - 1], WORD_BITS, WORD_BITS * (n - 1))
  }

  function PopSum(ws: seq<nat>, n: nat): nat
    requires n <= |ws|
  {
    if n == 0 then 0 else PopSum(ws, n - 1) + PopCount(ws[n - 1])
  }

  lemma {:induction false} PrefixIs(ws: seq<nat>, n: nat)
    requires n <= |ws|
    ensures forall i: nat :: i in Prefix(ws, n) <==> i < WORD_BITS * n && InBits(ws, i)
  {
    hide Bit;
    if n > 0 {
      PrefixIs(ws, n - 1);
      OnesAre(ws[n - 1], WORD_BITS, WORD_BITS * (n - 1));
      forall i: nat | WORD_BITS * (n - 1) <= i < WORD_BITS * n ensures i / WORD_BITS == n - 1 {
      }
    }
  }

  lemma {:induction false} PrefixCount(ws: seq<nat>, n: nat)
    requires n <= |ws| && AreWords(ws)
    ensures |Prefix(ws, n)| == PopSum(ws, n)
  {
    hide Bit, PopCount, Ones, Pow2;
    if n > 0 {
      var ones := Ones(ws[n - 1], WORD_BITS, WORD_BITS * (n - 1));
      PrefixCount(ws, n - 1);
      PrefixIs(ws, n - 1);
      OnesAre(ws[n - 1], WORD_BITS, WORD_BITS * (n - 1));
      OnesCount(ws[n - 1], WORD_BITS, WORD_BITS * (n - 1));
      PopCountIs(ws[n - 1], WORD_BITS);
      assert Prefix(ws, n - 1) !! ones;
    }
  }

  /** With the tail clear, the ones of all words are the members. */
  lemma CountIsSize(ws: seq<nat>, nbits: nat)
    requires AreWords(ws) && TailClear(ws, nbits)
    ensures PopSum(ws, |ws|) == |Members(ws, nbits)|
  {
    hide Bit;
    PrefixCount(ws, |ws|);
    PrefixIs(ws, |ws|);
    assert Prefix(ws, |ws|) == Members(ws, nbits);
  }

  // ----- scanning

  /** Word w as a scan sees it: its complement when looking for a bit that is clear. */
  function Seen(word: nat, clear: bool): nat {
    Zip(XOR, word, if clear then WordOnes() else 0)
  }

  lemma SeenBit(word: nat, clear: bool, b: nat)
    requires b < WORD_BITS && word < Modulus()
    ensures Bit(Seen(word, clear), b) == (Bit(word, b) != clear)
    ensures Seen(word, clear) < Modulus()
  {
    hide Bit, Zip, Pow2;
    ZipBit(XOR, word, if clear then WordOnes() else 0, b);
    ZipBound(XOR, word, if clear then WordOnes() else 0, WORD_BITS);
    MaskBit(WORD_BITS, b);
    ZeroBit(b);
  }

  /** What a scan is after at bit i. */
  predicate Hit(ws: seq<nat>, i: nat, clear: bool) {
    InBits(ws, i) != clear
  }

  /** The word in hand has the hits of word w that are not before `from`. */
  ghost predicate HoldsHits(ws: seq<nat>, clear: bool, w: nat, word: nat, lo: nat, hi: nat)
  {
    && w < |ws| && word < Modulus()
    && forall b :: 0 <= b < WORD_BITS ==>
         (Bit(word, b) <==> Hit(ws, WORD_BITS * w + b, clear) && lo <= WORD_BITS * w + b <= hi)
  }

  lemma FirstWord(ws: seq<nat>, clear: bool, from: nat, hi: nat)
    requires AreWords(ws) && from / WORD_BITS < |ws| && hi >= WORD_BITS * (from / WORD_BITS) + WORD_BITS
    ensures var w := from / WORD_BITS;
            HoldsHits(ws, clear, w, WordFrom(Seen(ws[w], clear), from), from, hi)
  {
    hide Bit, WordFrom, Seen, Pow2;
    var w := from / WORD_BITS;
    forall b | 0 <= b < WORD_BITS
      ensures WordFrom(Seen(ws[w], clear), from) < Modulus()
      ensures Bit(WordFrom(Seen(ws[w], clear), from), b)
              <==> Hit(ws, WORD_BITS * w + b, clear) && from <= WORD_BITS * w + b
    {
      SeenBit(ws[w], clear, b);
      WordFromBit(Seen(ws[w], clear), from, b);
    }
    assert WordFrom(Seen(ws[w], clear), from) < Modulus() by {
      SeenBit(ws[w], clear, 0);
      WordFromBit(Seen(ws[w], clear), from, 0);
    }
  }

  lemma LastWord(ws: seq<nat>, clear: bool, upto: nat)
    requires AreWords(ws) && upto / WORD_BITS < |ws|
    ensures var w := upto / WORD_BITS;
            HoldsHits(ws, clear, w, WordUpto(Seen(ws[w], clear), upto), 0, upto)
  {
    hide Bit, WordUpto, Seen, Pow2;
    var w := upto / WORD_BITS;
    forall b | 0 <= b < WORD_BITS
      ensures Bit(WordUpto(Seen(ws[w], clear), upto), b)
              <==> Hit(ws, WORD_BITS * w + b, clear) && WORD_BITS * w + b <= upto
    {
      SeenBit(ws[w], clear, b);
      WordUptoBit(Seen(ws[w], clear), upto, b);
    }
    assert WordUpto(Seen(ws[w], clear), upto) < Modulus() by {
      SeenBit(ws[w], clear, 0);
      WordUptoBit(Seen(ws[w], clear), upto, 0);
    }
  }

  lemma OtherWord(ws: seq<nat>, clear: bool, w: nat, lo: nat, hi: nat)
    requires AreWords(ws) && w < |ws| && lo <= WORD_BITS * w && WORD_BITS * w + WORD_BITS <= hi + 1
    ensures HoldsHits(ws, clear, w, Seen(ws[w], clear), lo, hi)
  {
    hide Bit, Seen, Pow2;
    forall b | 0 <= b < WORD_BITS ensures Bit(Seen(ws[w], clear), b) <==> Hit(ws, WORD_BITS * w + b, clear) {
      SeenBit(ws[w], clear, b);
    }
    SeenBit(ws[w], clear, 0);
  }

  /** No hits in an empty word; else the lowest and the highest one bit are the outermost hits. */
  lemma HitsInWord(ws: seq<nat>, clear: bool, w: nat, word: nat, lo: nat, hi: nat)
    requires HoldsHits(ws, clear, w, word, lo, hi)
    ensures word == 0 ==> forall i :: WORD_BITS * w <= i < WORD_BITS * w + WORD_BITS && lo <= i <= hi
                            ==> !Hit(ws, i, clear)
    ensures word > 0 ==> var i := WORD_BITS * w + LowBit(word);
                         && LowBit(word) < WORD_BITS && Hit(ws, i, clear) && lo <= i <= hi
                         && forall j :: WORD_BITS * w <= j < i && lo <= j <= hi ==> !Hit(ws, j, clear)
    ensures word > 0 ==> var i := WORD_BITS * w + Log2(word);
                         && Log2(word) < WORD_BITS && Hit(ws, i, clear) && lo <= i <= hi
                         && forall j :: i < j < WORD_BITS * w + WORD_BITS && lo <= j <= hi ==> !Hit(ws, j, clear)
  {
    hide Bit, Pow2, Hit, LowBit, Log2;
    if word > 0 {
      LowBitIs(word, WORD_BITS);
      HighBitIs(word, WORD_BITS);
    }
    forall j | WORD_BITS * w <= j < WORD_BITS * w + WORD_BITS && lo <= j <= hi
      ensures Hit(ws, j, clear) <==> Bit(word, j - WORD_BITS * w)
    {
      assert WORD_BITS * w + (j - WORD_BITS * w) == j;
    }
    if word == 0 {
      forall b: nat ensures !Bit(0, b) {
        ZeroBit(b);
      }
    }
  }

  /** Clear tails make the words canonical: equal sets are equal word for word. */
  lemma WordsAreCanonical(ws: seq<nat>, vs: seq<nat>, nbits: nat)
    requires |ws| == |vs| && AreWords(ws) && AreWords(vs) && TailClear(ws, nbits) && TailClear(vs, nbits)
    ensures ws == vs <==> Members(ws, nbits) == Members(vs, nbits)
  {
    hide Bit, Pow2;
    if Members(ws, nbits) == Members(vs, nbits) {
      forall w | 0 <= w < |ws| ensures ws[w] == vs[w] {
        forall b | 0 <= b < WORD_BITS ensures Bit(ws[w], b) == Bit(vs[w], b) {
          var i := WORD_BITS * w + b;
          assert InBits(ws, i) <==> i in Members(ws, nbits);
          assert InBits(vs, i) <==> i in Members(vs, nbits);
        }
        SameBits(ws[w], vs[w], WORD_BITS);
      }
    }
  }

  /** Where a scan hits nothing, membership is uniform. */
  lemma Missed(ws: seq<nat>, nbits: nat, clear: bool, lo: nat, hi: nat)
    requires hi <= nbits && forall j: nat :: lo <= j < hi ==> !Hit(ws, j, clear)
    ensures forall j: nat :: lo <= j < hi ==> (j in Members(ws, nbits)) == clear
  {
    forall j: nat | lo <= j < hi ensures (j in Members(ws, nbits)) == clear {
      assert !Hit(ws, j, clear);
    }
  }

  // ----- the tail

  /** clear_tail: the last word keeps only its live bits. */
  function TailMasked(ws: seq<nat>, nbits: nat): (r: seq<nat>)
    ensures |r| == |ws|
  {
    if ws == [] then [] else ws[|ws| - 1 := Zip(AND, ws[|ws| - 1], TailMask(nbits))]
  }

  lemma TailMaskedBits(ws: seq<nat>, nbits: nat)
    requires |ws| == WordsFor(nbits) && AreWords(ws)
    ensures AreWords(TailMasked(ws, nbits)) && TailClear(TailMasked(ws, nbits), nbits)
    ensures forall i: nat :: InBits(TailMasked(ws, nbits), i) <==> InBits(ws, i) && i < nbits
  {
    hide Bit, Zip, Pow2, TailMask;
    var r := TailMasked(ws, nbits);
    if ws != [] {
      var last := |ws| - 1;
      TailMaskBit(nbits, 0);
      ZipBound(AND, ws[last], TailMask(nbits), WORD_BITS);
      forall i: nat ensures InBits(r, i) <==> InBits(ws, i) && i < nbits {
        if i / WORD_BITS == last {
          ZipBit(AND, ws[last], TailMask(nbits), i % WORD_BITS);
          TailMaskBit(nbits, i % WORD_BITS);
        }
      }
    }
  }

  function Not(word: nat): (r: nat)
    requires word < Modulus()
    ensures r < Modulus()
  {
    WordOnes() - word
  }

  lemma NotBit(word: nat, b: nat)
    requires word < Modulus() && b < WORD_BITS
    ensures Bit(Not(word), b) == !Bit(word, b)
  {
    hide Bit, Pow2;
    FlipBit(word, WORD_BITS, b);
  }

  lemma FlippedBits(fs: seq<nat>, ws: seq<nat>)
    requires AreWords(ws) && |fs| == |ws| && forall w :: 0 <= w < |ws| ==> fs[w] == Not(ws[w])
    ensures AreWords(fs) && forall i: nat :: i / WORD_BITS < |ws| ==> InBits(fs, i) == !InBits(ws, i)
  {
    hide Bit, Pow2, Not;
    forall i: nat | i / WORD_BITS < |ws| ensures InBits(fs, i) == !InBits(ws, i) {
      NotBit(ws[i / WORD_BITS], i % WORD_BITS);
    }
  }

  // ----- one bit

  lemma {:induction false} PowerBit(k: nat, i: nat)
    ensures Bit(Pow2(k), i) <==> i == k
    decreases k
  {
    if k == 0 {
      if i > 0 {
        ZeroBit(i - 1);
      }
    } else {
      assert Pow2(k) / 2 == Pow2(k - 1) && Pow2(k) % 2 == 0;
      if i > 0 {
        PowerBit(k - 1, i - 1);
      }
    }
  }

  lemma OneShifted(k: nat)
    requires k < WORD_BITS
    ensures Shl(1, k) == Pow2(k) < Modulus()
  {
    hide Pow2;
    Pow2Monotone(k + 1, WORD_BITS);
    Doubles(k);
    DivModIs(Pow2(k), Modulus(), 0, Pow2(k));
  }

  /** The words after one bit is set, reset or flipped through a mask. */
  function Touched(f: BoolOp, ws: seq<nat>, idx: nat): (r: seq<nat>)
    requires idx / WORD_BITS < |ws|
    ensures |r| == |ws|
  {
    var w := idx / WORD_BITS;
    ws[w := Zip(f, ws[w], Shl(1, idx % WORD_BITS))]
  }

  lemma TouchedBits(f: BoolOp, ws: seq<nat>, nbits: nat, idx: nat)
    requires AreWords(ws) && TailClear(ws, nbits) && idx < nbits && idx / WORD_BITS < |ws|
    requires !f(false, false) && f(true, false)
    ensures AreWords(Touched(f, ws, idx)) && TailClear(Touched(f, ws, idx), nbits)
    ensures Members(Touched(f, ws, idx), nbits)
            == if f(idx in Members(ws, nbits), true) then Members(ws, nbits) + {idx} else Members(ws, nbits) - {idx}
  {
    hide Bit, Zip, Pow2, Shl;
    var w, r := idx / WORD_BITS, Touched(f, ws, idx);
    var mask := Shl(1, idx % WORD_BITS);
    OneShifted(idx % WORD_BITS);
    ZipBound(f, ws[w], mask, WORD_BITS);
    forall i: nat ensures InBits(r, i) == if i == idx then f(InBits(ws, i), true) else InBits(ws, i) {
      if i / WORD_BITS == w {
        ZipBit(f, ws[w], mask, i % WORD_BITS);
        PowerBit(idx % WORD_BITS, i % WORD_BITS);
      }
    }
  }

  // ----- the bit set

  class BitSet {
    const words: array<nat>
    const nbits: nat

    ghost predicate Valid()
      reads words
    {
      && words.Length == WordsFor(nbits)
      && AreWords(words[..]) && TailClear(words[..], nbits)
    }

    ghost function Set(): set<nat>
      reads words
    {
      Members(words[..], nbits)
    }

    constructor (nbits: nat)
      ensures Valid() && Set() == {} && this.nbits == nbits && fresh(words)
    {
      hide Pow2;
      this.nbits := nbits;
      words := new nat[WordsFor(nbits)](_ => 0);
      new;
      NoBits(words[..], nbits);
    }

    method Touch(f: BoolOp, idx: nat)
      requires Valid() && idx < nbits && !f(false, false) && f(true, false)
      modifies words
      ensures Valid()
      ensures Set() == if f(idx in old(Set()), true) then old(Set()) + {idx} else old(Set()) - {idx}
    {
      hide Bit, Zip, Pow2, Shl, Members, AreWords, TailClear;
      ghost var ws := words[..];
      TouchedBits(f, ws, nbits, idx);
      words[idx / WORD_BITS] := Zip(f, words[idx / WORD_BITS], Shl(1, idx % WORD_BITS));
      assert words[..] == Touched(f, ws, idx);
    }

    method SetBit(idx: nat)
      requires Valid() && idx < nbits
      modifies words
      ensures Valid() && Set() == old(Set()) + {idx}
    {
      Touch(OR, idx);
    }

    method ResetBit(idx: nat)
      requires Valid() && idx < nbits
      modifies words
      ensures Valid() && Set() == old(Set()) - {idx}
    {
      Touch(AND_NOT, idx);
    }

    method FlipOne(idx: nat)
      requires Valid() && idx < nbits
      modifies words
      ensures Valid() && Set() == if idx in old(Set()) then old(Set()) - {idx} else old(Set()) + {idx}
    {
      Touch(XOR, idx);
    }

    /** Union, intersection, difference and symmetric difference: one loop over the words each. */
    method Combine(f: BoolOp, other: BitSet)
      requires Valid() && other.Valid() && nbits == other.nbits && !f(false, false)
      modifies words
      ensures Valid()
      ensures Set() == set i | 0 <= i < nbits && f(i in old(Set()), i in old(other.Set()))
    {
      hide Bit, Zip, Pow2, AreWords, TailClear;
      ghost var ws, vs := words[..], other.words[..];
      CombinedBits(f, ws, vs, nbits);
      var w := 0;
      while w < words.Length
        invariant w <= words.Length
        invariant forall k :: 0 <= k < w ==> words[k] == Zip(f, ws[k], vs[k])
        invariant forall k :: w <= k < words.Length ==> words[k] == ws[k] && other.words[k] == vs[k]
      {
        words[w] := Zip(f, words[w], other.words[w]);
        w := w + 1;
      }
      assert words[..] == Combined(f, ws, vs);
    }

    method Union(other: BitSet)
      requires Valid() && other.Valid() && nbits == other.nbits
      modifies words
      ensures Valid() && Set() == old(Set()) + old(other.Set())
    {
      hide Members, AreWords, TailClear;
      MembersBelow(words[..], nbits);
      MembersBelow(other.words[..], nbits);
      Combine(OR, other);
    }

    method Intersection(other: BitSet)
      requires Valid() && other.Valid() && nbits == other.nbits
      modifies words
      ensures Valid() && Set() == old(Set()) * old(other.Set())
    {
      hide Members, AreWords, TailClear;
      MembersBelow(words[..], nbits);
      Combine(AND, other);
    }

    method Difference(other: BitSet)
      requires Valid() && other.Valid() && nbits == other.nbits
      modifies words
      ensures Valid() && Set() == old(Set()) - old(other.Set())
    {
      hide Members, AreWords, TailClear;
      MembersBelow(words[..], nbits);
      Combine(AND_NOT, other);
    }

    method SymmetricDifference(other: BitSet)
      requires Valid() && other.Valid() && nbits == other.nbits
      modifies words
      ensures Valid() && Set() == (old(Set()) - old(other.Set())) + (old(other.Set()) - old(Set()))
    {
      hide Members, AreWords, TailClear;
      MembersBelow(words[..], nbits);
      MembersBelow(other.words[..], nbits);
      Combine(XOR, other);
    }

    /** tda_bitset_count. */
    method Count() returns (count: nat)
      requires Valid()
      ensures count == |Set()|
    {
      hide *;
      count := 0;
      var w := 0;
      NoSum(words[..]);
      while w < words.Length
        invariant w <= words.Length && count == PopSum(words[..], w)
      {
        SumStep(words[..], w);
        count := count + PopCount(words[w]);
        w := w + 1;
      }
      CountOf();
    }

    lemma CountOf()
      requires Valid()
      ensures PopSum(words[..], words.Length) == |Set()|
    {
      CountIsSize(words[..], nbits);
    }

    method ClearTail(ghost ws: seq<nat>)
      requires words.Length == WordsFor(nbits) && words[..] == ws && AreWords(ws)
      modifies words
      ensures words[..] == TailMasked(ws, nbits) && Valid()
      ensures Set() == set i | 0 <= i < nbits && InBits(ws, i)
    {
      hide Bit, Zip, Pow2, TailMask, AreWords, TailClear;
      TailMaskedBits(ws, nbits);
      if words.Length > 0 {
        words[words.Length - 1] := Zip(AND, words[words.Length - 1], TailMask(nbits));
      }
      assert words[..] == TailMasked(ws, nbits);
    }

    /** tda_bitset_flip_all. */
    method FlipAll()
      requires Valid()
      modifies words
      ensures Valid() && Set() == (set i | 0 <= i < nbits && i !in old(Set()))
    {
      hide Bit, Zip, Pow2, Not, Modulus;
      ghost var ws := words[..];
      var w := 0;
      while w < words.Length
        invariant w <= words.Length
        invariant forall k :: 0 <= k < w ==> words[k] == Not(ws[k])
        invariant forall k :: w <= k < words.Length ==> words[k] == ws[k]
      {
        words[w] := Not(words[w]);
        w := w + 1;
      }
      FlippedBits(words[..], ws);
      ClearTail(words[..]);
    }

    /** tda_bitset_set_all. */
    method SetAll()
      requires Valid()
      modifies words
      ensures Valid() && forall i: nat :: i in Set() <==> i < nbits
    {
      hide Bit, Zip, Pow2;
      forall w | 0 <= w < words.Length {
        words[w] := WordOnes();
      }
      AllBits(words[..]);
      ClearTail(words[..]);
    }

    /** find_next_impl: the nearest index from `from` up that is in the set, or out of it when `clear`. */
    method FindNext(clear: bool, from: nat) returns (found: Option<nat>)
      requires Valid()
      ensures match found
              case Some(idx) =>
                && from <= idx < nbits && (idx in Set()) != clear
                && forall j :: from <= j < idx ==> (j in Set()) == clear
              case None => forall j :: from <= j < nbits ==> (j in Set()) == clear
    {
      hide Bit, Zip, Pow2, Seen, WordFrom, LowBit, Log2, HoldsHits, Modulus;
      if from >= nbits {
        return None;
      }
      ghost var ws := words[..];
      ghost var hi := WORD_BITS * words.Length;
      var w := from / WORD_BITS;
      var word := WordFrom(Seen(words[w], clear), from);
      FirstWord(ws, clear, from, hi);
      while true
        invariant from / WORD_BITS <= w < words.Length && HoldsHits(ws, clear, w, word, from, hi)
        invariant forall j :: from <= j < WORD_BITS * w ==> !Hit(ws, j, clear)
        decreases words.Length - w
      {
        HitsInWord(ws, clear, w, word, from, hi);
        if word != 0 {
          var idx := WORD_BITS * w + LowBit(word);
          Missed(ws, nbits, clear, from, if idx < nbits then idx else nbits);
          return if idx >= nbits then None else Some(idx);
        }
        w := w + 1;
        if w == words.Length {
          Missed(ws, nbits, clear, from, nbits);
          return None;
        }
        OtherWord(ws, clear, w, from, hi);
        word := Seen(words[w], clear);
      }
    }

    /** find_prev_impl: the nearest index from `from` down. */
    method FindPrev(clear: bool, from: nat) returns (found: Option<nat>)
      requires Valid()
      ensures match found
              case Some(idx) =>
                && idx < nbits && idx <= from && (idx in Set()) != clear
                && forall j :: idx < j <= from && j < nbits ==> (j in Set()) == clear
              case None => forall j :: 0 <= j <= from && j < nbits ==> (j in Set()) == clear
    {
      hide Bit, Zip, Pow2, Seen, WordUpto, LowBit, Log2, HoldsHits, Modulus;
      if nbits == 0 {
        return None;
      }
      var start := if from >= nbits then nbits - 1 else from;
      ghost var ws := words[..];
      var w := start / WORD_BITS;
      var word := WordUpto(Seen(words[w], clear), start);
      LastWord(ws, clear, start);
      while true
        invariant w <= start / WORD_BITS && HoldsHits(ws, clear, w, word, 0, start)
        invariant forall j :: WORD_BITS * w + WORD_BITS <= j <= start ==> !Hit(ws, j, clear)
        decreases w
      {
        HitsInWord(ws, clear, w, word, 0, start);
        if word != 0 {
          Missed(ws, nbits, clear, WORD_BITS * w + Log2(word) + 1, start + 1);
          return Some(WORD_BITS * w + Log2(word));
        }
        if w == 0 {
          Missed(ws, nbits, clear, 0, start + 1);
          return None;
        }
        w := w - 1;
        OtherWord(ws, clear, w, 0, start);
        word := Seen(words[w], clear);
      }
    }

    /** tda_bitset_all: every word against all ones, the last against its live bits. */
    method All() returns (all: bool)
      requires Valid()
      ensures all <==> forall i :: 0 <= i < nbits ==> i in Set()
    {
      hide Bit, Zip, Pow2, TailMask, WordOnes, Modulus;
      ghost var ws := words[..];
      var w := 0;
      while w < words.Length
        invariant w <= words.Length
        invariant forall i :: 0 <= i < nbits && i < WORD_BITS * w ==> InBits(ws, i)
      {
        var want := if w + 1 == words.Length then TailMask(nbits) else WordOnes();
        FullWord(ws, nbits, w);
        if words[w] != want {
          ghost var i: nat :| WORD_BITS * w <= i < WORD_BITS * w + WORD_BITS && i < nbits && !InBits(ws, i);
          assert i !in Set();
          return false;
        }
        w := w + 1;
      }
      all := true;
    }

    /** tda_bitset_eq: the same universe and the same words. */
    method Equals(other: BitSet) returns (eq: bool)
      requires Valid() && other.Valid()
      ensures eq <==> nbits == other.nbits && Set() == other.Set()
    {
      if nbits == other.nbits {
        WordsAreCanonical(words[..], other.words[..], nbits);
      }
      eq := nbits == other.nbits && words[..] == other.words[..];
    }

    /** tda_bitset_is_subset. */
    method IsSubset(other: BitSet) returns (sub: bool)
      requires Valid() && other.Valid() && nbits == other.nbits
      ensures sub <==> Set() <= other.Set()
    {
      hide Bit, Zip, Pow2, Modulus;
      ghost var ws, vs := words[..], other.words[..];
      CombinedBits(AND_NOT, ws, vs, nbits);
      var w := 0;
      while w < words.Length
        invariant w <= words.Length
        invariant forall i :: 0 <= i < WORD_BITS * w && InBits(ws, i) ==> InBits(vs, i)
      {
        WordHasBit(Combined(AND_NOT, ws, vs), w);
        if Zip(AND_NOT, words[w], other.words[w]) != 0 {
          ghost var i: nat :| InBits(Combined(AND_NOT, ws, vs), i);
          assert i in Set() && i !in other.Set();
          return false;
        }
        w := w + 1;
      }
      sub := true;
    }
  }

  /** A word is zero exactly when none of its indices is in. */
  lemma WordHasBit(ws: seq<nat>, w: nat)
    requires w < |ws| && AreWords(ws)
    ensures ws[w] == 0 <==> forall i :: WORD_BITS * w <= i < WORD_BITS * w + WORD_BITS ==> !InBits(ws, i)
  {
    hide Bit, Pow2, LowBit;
    if ws[w] == 0 {
      forall i | WORD_BITS * w <= i < WORD_BITS * w + WORD_BITS ensures !InBits(ws, i) {
        ZeroBit(i % WORD_BITS);
      }
    } else {
      LowBitIs(ws[w], WORD_BITS);
      assert InBits(ws, WORD_BITS * w + LowBit(ws[w]));
    }
  }

  /** A word equals its mask exactly when every live index in it is in. */
  lemma FullWord(ws: seq<nat>, nbits: nat, w: nat)
    requires |ws| == WordsFor(nbits) && w < |ws| && AreWords(ws) && TailClear(ws, nbits)
    ensures ws[w] == (if w + 1 == |ws| then TailMask(nbits) else WordOnes())
            <==> forall i :: WORD_BITS * w <= i < WORD_BITS * w + WORD_BITS && i < nbits ==> InBits(ws, i)
  {
    hide Bit, Pow2, TailMask;
    var want := if w + 1 == |ws| then TailMask(nbits) else WordOnes();
    forall b: nat | b < WORD_BITS ensures Bit(want, b) <==> WORD_BITS * w + b < nbits {
      TailMaskBit(nbits, b);
      MaskBit(WORD_BITS, b);
    }
    TailMaskBit(nbits, 0);
    if forall i :: WORD_BITS * w <= i < WORD_BITS * w + WORD_BITS && i < nbits ==> InBits(ws, i) {
      forall b | 0 <= b < WORD_BITS ensures Bit(ws[w], b) == Bit(want, b) {
        assert InBits(ws, WORD_BITS * w + b) == Bit(ws[w], b);
      }
      SameBits(ws[w], want, WORD_BITS);
    }
  }

  lemma AllBits(ws: seq<nat>)
    requires forall w :: 0 <= w < |ws| ==> ws[w] == WordOnes()
    ensures AreWords(ws) && forall i: nat :: i / WORD_BITS < |ws| ==> InBits(ws, i)
  {
    hide Bit, Pow2;
    forall i: nat | i / WORD_BITS < |ws| ensures InBits(ws, i) {
      MaskBit(WORD_BITS, i % WORD_BITS);
    }
  }

  lemma NoBits(ws: seq<nat>, nbits: nat)
    requires forall w :: 0 <= w < |ws| ==> ws[w] == 0
    ensures AreWords(ws) && TailClear(ws, nbits) && Members(ws, nbits) == {}
  {
    hide Pow2;
    forall i: nat ensures !InBits(ws, i) {
      ZeroBit(i % WORD_BITS);
    }
  }

  lemma MembersBelow(ws: seq<nat>, nbits: nat)
    ensures forall i :: i in Members(ws, nbits) ==> i < nbits
  {
  }

  lemma NoSum(ws: seq<nat>)
    ensures PopSum(ws, 0) == 0
  {
  }

  lemma SumStep(ws: seq<nat>, w: nat)
    requires w < |ws|
    ensures PopSum(ws, w + 1) == PopSum(ws, w) + PopCount(ws[w])
  {
  }

  /** tda_bitset_init_nbits: the empty set, or a refusal when words are needed and not granted. */
  method InitNbits(nbits: nat, granted: bool) returns (status: Status, out: BitSet?)
    ensures status == NoMem <==> nbits > 0 && !granted
    ensures status == NoMem <==> out == null
    ensures status == Ok ==> fresh(out) && fresh(out.words) && out.Valid() && out.nbits == nbits && out.Set() == {}
  {
    status, out := NoMem, null;
    if WordsFor(nbits) == 0 || granted {
      out := new BitSet(nbits);
      status := Ok;
    }
  }
}
