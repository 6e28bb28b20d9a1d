/** The 64-bit words that a BitSet packs its elements into.  Bit `k` of a word is the lowest
    bit after `k` right shifts by one; every word operation is related to single bits through
    what it does to the lowest bit and to the remaining bits. */
module Words {

  type Word = bv64

  const ZERO: Word := 0
  const ONES: Word := 0xffff_ffff_ffff_ffff

  predicate Low(w: Word) { w & 1 == 1 }
  function Half(w: Word): Word { w >> 1 }
  function Double(w: Word): Word { w << 1 }

  function Or(a: Word, b: Word): Word { a | b }
  function And(a: Word, b: Word): Word { a & b }
  function Xor(a: Word, b: Word): Word { a ^ b }
  function Not(a: Word): Word { !a }

  /** Bit `k` of word `w`. */
  predicate Has(w: Word, k: nat) {
    if k == 0 then Low(w) else Has(Half(w), k - 1)
  }

  /** 1 shifted left by `k`. */
  function Mask(k: nat): Word {
    if k == 0 then 1 else Double(Mask(k - 1))
  }

  /** All ones shifted left by `k`. */
  function MaskFrom(k: nat): Word {
    if k == 0 then ONES else Double(MaskFrom(k - 1))
  }

  /** Binary search for the lowest set bit (Hacker's Delight, section 5-4). */
  function NumberOfTrailingZeros(i: Word): bv32 {
    if i == 0 then 64
    else
      var low := (i & 0xffff_ffff) as bv32;
      var (n, x) := if low != 0 then (31 as bv32, low) else (63 as bv32, (i >> 32) as bv32);
      var y := x << 16;
      var (n, x) := if y != 0 then (n - 16, y) else (n, x);
      var y := x << 8;
      var (n, x) := if y != 0 then (n - 8, y) else (n, x);
      var y := x << 4;
      var (n, x) := if y != 0 then (n - 4, y) else (n, x);
      var y := x << 2;
      var (n, x) := if y != 0 then (n - 2, y) else (n, x);
      n - ((x << 1) >> 31)
  }

  // ----- lowest bit and remaining bits -----

  lemma OrStep(a: Word, b: Word)
    ensures Low(Or(a, b)) <==> Low(a) || Low(b)
    ensures Half(Or(a, b)) == Or(Half(a), Half(b))
  {}

  lemma AndStep(a: Word, b: Word)
    ensures Low(And(a, b)) <==> Low(a) && Low(b)
    ensures Half(And(a, b)) == And(Half(a), Half(b))
  {}

  lemma XorStep(a: Word, b: Word)
    ensures Low(Xor(a, b)) <==> Low(a) != Low(b)
    ensures Half(Xor(a, b)) == Xor(Half(a), Half(b))
  {}

  lemma NotIsXor(a: Word)
    ensures Not(a) == Xor(a, ONES)
  {}

  lemma ZeroStep()
    ensures !Low(ZERO) && Half(ZERO) == ZERO
  {}

  lemma DoubleStep(a: Word)
    ensures !Low(Double(a))
    ensures Half(Double(a)) == And(a, Half(ONES))
  {}

  lemma OneStep()
    ensures Low(1) && Half(1) == ZERO
  {}

  lemma XorZero(a: Word, b: Word)
    ensures Xor(a, b) == ZERO ==> a == b
  {}

  // ----- trailing zeros -----

  lemma TrailingZerosOdd(i: Word)
    requires i != 0 && Low(i)
    ensures NumberOfTrailingZeros(i) == 0
  {}

  lemma HalfOfEven(i: Word)
    requires i != 0 && !Low(i)
    ensures Half(i) != 0 && Half(i) < i
  {}

  lemma TrailingZerosEven(i: Word)
    requires i != 0 && !Low(i)
    ensures NumberOfTrailingZeros(i) == NumberOfTrailingZeros(Half(i)) + 1
  {
    if i & 0xffff_ffff == 0 {
      assert NumberOfTrailingZeros(i) == NumberOfTrailingZeros(Half(i)) + 1;
    } else if i & 0xffff == 0 {
      assert NumberOfTrailingZeros(i) == NumberOfTrailingZeros(Half(i)) + 1;
    } else {
      assert NumberOfTrailingZeros(i) == NumberOfTrailingZeros(Half(i)) + 1;
    }
  }

  lemma TrailingZerosRange(i: Word)
    requires i != 0
    ensures NumberOfTrailingZeros(i) < 64
  {}

  lemma Increment(n: bv32)
    requires n < 64
    ensures (n + 1) as nat == n as nat + 1 && n as nat < 64
  {}

  lemma ZerosOfHalf(i: Word)
    requires i != ZERO && !Low(i)
    ensures Half(i) != ZERO && Half(i) < i
    ensures NumberOfTrailingZeros(i) as nat == NumberOfTrailingZeros(Half(i)) as nat + 1
  {
    hide NumberOfTrailingZeros, Low, Half;
    HalfOfEven(i);
    TrailingZerosEven(i);
    TrailingZerosRange(Half(i));
    Increment(NumberOfTrailingZeros(Half(i)));
  }

  lemma ZerosRange(i: Word)
    requires i != ZERO
    ensures NumberOfTrailingZeros(i) as nat < 64
  {
    hide NumberOfTrailingZeros;
    TrailingZerosRange(i);
    Increment(NumberOfTrailingZeros(i));
  }

  /** The number of trailing zeros of a non-zero word is the position of its lowest bit. */
  lemma {:induction false} TrailingZeros(i: Word)
    requires i != ZERO
    ensures NumberOfTrailingZeros(i) as nat < 64
    ensures Has(i, NumberOfTrailingZeros(i) as nat)
    ensures forall j: nat | j < NumberOfTrailingZeros(i) as nat :: !Has(i, j)
    decreases NumberOfTrailingZeros(i) as nat
  {
    hide NumberOfTrailingZeros, Low, Half;
    ZerosRange(i);
    if Low(i) {
      TrailingZerosOdd(i);
    } else {
      ZerosOfHalf(i);
      TrailingZeros(Half(i));
    }
  }

  // ----- bits -----

  lemma {:induction false} HasBinary(a: Word, b: Word, k: nat)
    ensures Has(Or(a, b), k) <==> Has(a, k) || Has(b, k)
    ensures Has(And(a, b), k) <==> Has(a, k) && Has(b, k)
    ensures Has(Xor(a, b), k) <==> Has(a, k) != Has(b, k)
    decreases k
  {
    hide Or, And, Xor, Low, Half;
    OrStep(a, b);
    AndStep(a, b);
    XorStep(a, b);
    if k > 0 { HasBinary(Half(a), Half(b), k - 1); }
  }

  lemma {:induction false} HasZero(k: nat)
    ensures !Has(ZERO, k)
  {
    hide Low, Half;
    ZeroStep();
    if k > 0 { HasZero(k - 1); }
  }

  /** A power of two together with all smaller bits. */
  function UpTo(q: Word): Word { q | (q - 1) }

  lemma UpToLow(q: Word)
    ensures q != 0 ==> Low(UpTo(q))
  {}

  lemma UpToStep(q: Word)
    requires !Low(q)
    ensures Half(UpTo(q)) == UpTo(Half(q)) || q == 0
  {}

  lemma {:induction false} HasUpTo(q: Word, k: nat)
    requires q != 0 && k <= NumberOfTrailingZeros(q) as nat
    ensures Has(UpTo(q), k)
    decreases k
  {
    hide NumberOfTrailingZeros, Low, Half, UpTo;
    UpToLow(q);
    if k > 0 {
      if Low(q) { TrailingZerosOdd(q); }
      HalfOfEven(q);
      UpToStep(q);
      TrailingZerosEven(q);
      TrailingZerosRange(Half(q));
      Increment(NumberOfTrailingZeros(Half(q)));
      HasUpTo(Half(q), k - 1);
    }
  }

  lemma TopBit()
    ensures NumberOfTrailingZeros(0x8000_0000_0000_0000) == 63
    ensures UpTo(0x8000_0000_0000_0000) == ONES
  {}

  lemma HasOnes(k: nat)
    requires k < 64
    ensures Has(ONES, k)
  {
    hide NumberOfTrailingZeros, UpTo, Has;
    TopBit();
    HasUpTo(0x8000_0000_0000_0000, k);
  }

  /** Each word operation is the operation on sets of bits that its name says. */
  lemma HasOps(a: Word, b: Word, j: nat)
    requires j < 64
    ensures Has(Or(a, b), j) <==> Has(a, j) || Has(b, j)
    ensures Has(And(a, b), j) <==> Has(a, j) && Has(b, j)
    ensures Has(Xor(a, b), j) <==> Has(a, j) != Has(b, j)
    ensures Has(Not(a), j) <==> !Has(a, j)
    ensures !Has(ZERO, j)
  {
    hide Has, Or, And, Xor, Not;
    HasBinary(a, b, j);
    HasZero(j);
    NotIsXor(a);
    HasBinary(a, ONES, j);
    HasOnes(j);
  }

  lemma HasDouble(a: Word, j: nat)
    requires j < 64
    ensures Has(Double(a), j) <==> j > 0 && Has(a, j - 1)
  {
    hide Low, Half, And, Double;
    DoubleStep(a);
    if j > 0 {
      HasBinary(a, Half(ONES), j - 1);
      HasOnes(j);
    }
  }

  lemma {:induction false} HasMask(k: nat, j: nat)
    requires k < 64 && j < 64
    ensures Has(Mask(k), j) <==> j == k
    ensures Has(MaskFrom(k), j) <==> k <= j
    decreases k
  {
    hide Low, Half, Double;
    if k == 0 {
      OneStep();
      HasOnes(j);
      if j > 0 { HasZero(j - 1); }
    } else {
      HasDouble(Mask(k - 1), j);
      HasDouble(MaskFrom(k - 1), j);
      if j > 0 { HasMask(k - 1, j - 1); }
    }
  }

  /** A word is determined by its bits. */
  lemma Extensional(a: Word, b: Word)
    requires forall j: nat | j < 64 :: Has(a, j) == Has(b, j)
    ensures a == b
  {
    hide Has, Xor, NumberOfTrailingZeros;
    XorZero(a, b);
    if Xor(a, b) != ZERO {
      var n := NumberOfTrailingZeros(Xor(a, b)) as nat;
      TrailingZeros(Xor(a, b));
      HasOps(a, b, n);
    }
  }

  /** Testing a word against a one-bit mask reads that bit. */
  lemma HasTest(w: Word, k: nat)
    requires k < 64
    ensures And(w, Mask(k)) != ZERO <==> Has(w, k)
  {
    hide Has, And, Mask;
    if And(w, Mask(k)) == ZERO {
      HasOps(w, Mask(k), k);
      HasMask(k, k);
    } else if !Has(w, k) {
      forall j: nat | j < 64
        ensures Has(And(w, Mask(k)), j) == Has(ZERO, j)
      {
        HasOps(w, Mask(k), j);
        HasMask(k, j);
      }
      Extensional(And(w, Mask(k)), ZERO);
    }
  }
}
