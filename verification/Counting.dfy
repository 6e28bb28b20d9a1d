/** Counting the bits of a word in parallel (Hacker's Delight, section 5-1): neighbouring counts
    are added in ever wider parts of the word, all parts at once. */
module Counting {
  import opened Words

  // ----- the computation -----

  function Pairs(i: Word): Word { i - ((i >> 1) & 0x5555_5555_5555_5555) }
  function Nibbles(i: Word): Word { (i & 0x3333_3333_3333_3333) + ((i >> 2) & 0x3333_3333_3333_3333) }
  function Bytes(i: Word): Word { (i + (i >> 4)) & 0x0f0f_0f0f_0f0f_0f0f }
  function Fold8(i: Word): Word { i + (i >> 8) }
  function Fold16(i: Word): Word { i + (i >> 16) }
  function Fold32(i: Word): Word { i + (i >> 32) }

  function InBytes(i: Word): Word { Bytes(Nibbles(Pairs(i))) }
  function InShorts(i: Word): Word { Fold8(InBytes(i)) }
  function InInts(i: Word): Word { Fold16(InShorts(i)) }

  function BitCount(i: Word): Word { Fold32(InInts(i)) & 0x7f }

  // ----- what is counted -----

  /** How many of the lowest `n` bits are set. */
  function Count(w: Word, n: nat): (c: nat)
    ensures c <= n
  {
    if n == 0 then 0 else (if Low(w) then 1 else 0) + Count(Half(w), n - 1)
  }

  function Halves(w: Word, n: nat): Word {
    if n == 0 then w else Halves(Half(w), n - 1)
  }

  lemma {:induction false} CountSplit(w: Word, a: nat, b: nat)
    ensures Count(w, a + b) == Count(w, a) + Count(Halves(w, a), b)
    decreases a
  {
    if a > 0 { CountSplit(Half(w), a - 1, b); }
  }

  lemma {:induction false} HalvesTwice(w: Word, a: nat, b: nat)
    ensures Halves(Halves(w, a), b) == Halves(w, a + b)
    decreases a
  {
    if a > 0 { HalvesTwice(Half(w), a - 1, b); }
  }

  // ----- small words as numbers -----

  function Nat(w: Word): nat { w as nat }
  function Plus(a: Word, b: Word): Word { a + b }
  function Next(a: Word): Word { a + 1 }
  function Prev(a: Word): Word { a - 1 }
  predicate Fits(a: Word, b: Word) { a <= 128 && b <= 128 - a }

  lemma NextNat(c: Word)
    requires c < 256
    ensures (c + 1) as nat == c as nat + 1
  {}

  lemma Transfer(a: Word, b: Word)
    requires a <= 128 && 0 < b <= 128 - a
    ensures (a + 1) + (b - 1) == a + b && (b - 1) + 1 == b && b - 1 <= 128 - (a + 1) && a + 1 <= 128 && b - 1 < 256
  {}

  lemma TransferFits(a: Word, b: Word)
    requires Fits(a, b) && b != 0
    ensures Plus(Next(a), Prev(b)) == Plus(a, b) && Fits(Next(a), Prev(b))
  {
    Transfer(a, b);
  }

  lemma TransferNat(a: Word, b: Word)
    requires Fits(a, b) && b != 0
    ensures Nat(Next(a)) == Nat(a) + 1 && Nat(b) == Nat(Prev(b)) + 1
  {
    Transfer(a, b);
    NextNat(a);
    NextNat(b - 1);
  }

  lemma PlusZero(a: Word)
    ensures Plus(a, 0) == a && Nat(0) == 0
  {}

  lemma {:induction false} PlusNat(a: Word, b: Word)
    requires Fits(a, b)
    ensures Nat(Plus(a, b)) == Nat(a) + Nat(b)
    decreases Nat(b)
  {
    hide *;
    if b != 0 {
      TransferFits(a, b);
      TransferNat(a, b);
      PlusNat(Next(a), Prev(b));
    } else {
      PlusZero(a);
    }
  }

  // ----- the same sums, one part at a time -----

  function S1(w: Word): Word { w >> 1 }
  function S2(w: Word): Word { w >> 2 }
  function S4(w: Word): Word { w >> 4 }
  function S8(w: Word): Word { w >> 8 }
  function S16(w: Word): Word { w >> 16 }
  function S32(w: Word): Word { w >> 32 }

  lemma Shift2(w: Word)
    ensures S2(w) == S1(S1(w))
  {}

  lemma Shift4(w: Word)
    ensures S4(w) == S2(S2(w))
  {}

  lemma Shift8(w: Word)
    ensures S8(w) == S4(S4(w))
  {}

  lemma Shift16(w: Word)
    ensures S16(w) == S8(S8(w))
  {}

  lemma Shift32(w: Word)
    ensures S32(w) == S16(S16(w))
  {}

  function Sum1(w: Word): Word { w & 1 }
  function Sum2(w: Word): Word { Plus(Sum1(w), Sum1(S1(w))) }
  function Sum4(w: Word): Word { Plus(Sum2(w), Sum2(S2(w))) }
  function Sum8(w: Word): Word { Plus(Sum4(w), Sum4(S4(w))) }
  function Sum16(w: Word): Word { Plus(Sum8(w), Sum8(S8(w))) }
  function Sum32(w: Word): Word { Plus(Sum16(w), Sum16(S16(w))) }
  function Sum64(w: Word): Word { Plus(Sum32(w), Sum32(S32(w))) }

  /** `sum` counts the lowest `n` bits of `w`, and is at most `n`. */
  ghost predicate Counts(w: Word, n: nat, m: Word, sum: Word) {
    Nat(sum) == Count(w, n) && sum <= m
  }

  lemma Bound(a: Word, b: Word, m: Word)
    requires a <= m && b <= m && m <= 32
    ensures Fits(a, b) && Plus(a, b) <= m + m
  {}

  lemma Doubled(w: Word, v: Word, n: nat, m: Word, a: Word, b: Word)
    requires Counts(w, n, m, a) && Counts(v, n, m, b) && v == Halves(w, n) && m <= 32
    ensures Counts(w, n + n, m + m, Plus(a, b))
  {
    hide Nat, Plus, Fits, Count;
    Bound(a, b, m);
    PlusNat(a, b);
    CountSplit(w, n, n);
  }

  lemma Halves1(w: Word)
    ensures Halves(w, 1) == S1(w)
  {
    assert Halves(Half(w), 0) == Half(w);
  }

  lemma Halves4(w: Word)
    ensures Halves(w, 2) == S2(w) && Halves(w, 4) == S4(w)
  {
    hide S1, S2, S4, Halves;
    HalvesTwice(w, 1, 1);
    Halves1(w);
    Halves1(S1(w));
    Shift2(w);
    HalvesTwice(w, 2, 2);
    HalvesTwice(S2(w), 1, 1);
    Halves1(S2(w));
    Halves1(S1(S2(w)));
    Shift2(S2(w));
    Shift4(w);
  }

  lemma Halves16(w: Word)
    ensures Halves(w, 8) == S8(w) && Halves(w, 16) == S16(w) && Halves(w, 32) == S32(w)
  {
    hide S1, S2, S4, S8, S16, S32, Halves;
    HalvesTwice(w, 4, 4);
    Halves4(w);
    Halves4(S4(w));
    Shift8(w);
    HalvesTwice(w, 8, 8);
    HalvesTwice(S8(w), 4, 4);
    Halves4(S8(w));
    Halves4(S4(S8(w)));
    Shift8(S8(w));
    Shift16(w);
    HalvesTwice(w, 16, 16);
    HalvesEight(S16(w));
    HalvesTwice(S16(w), 8, 8);
    HalvesEight(S8(S16(w)));
    Shift16(S16(w));
    Shift32(w);
  }

  lemma HalvesEight(w: Word)
    ensures Halves(w, 8) == S8(w)
  {
    hide S4, S8, Halves;
    HalvesTwice(w, 4, 4);
    Halves4(w);
    Halves4(S4(w));
    Shift8(w);
  }

  lemma OneBit(w: Word)
    ensures Counts(w, 1, 1, Sum1(w))
  {}

  lemma Counts2(w: Word)
    ensures Counts(w, 2, 2, Sum2(w))
  {
    hide S1, Sum1, Counts, Halves;
    OneBit(w);
    OneBit(S1(w));
    Halves1(w);
    Doubled(w, S1(w), 1, 1, Sum1(w), Sum1(S1(w)));
  }

  lemma Counts4(w: Word)
    ensures Counts(w, 4, 4, Sum4(w))
  {
    hide S2, Sum2, Counts, Halves;
    Counts2(w);
    Counts2(S2(w));
    Halves4(w);
    Doubled(w, S2(w), 2, 2, Sum2(w), Sum2(S2(w)));
  }

  lemma Counts8(w: Word)
    ensures Counts(w, 8, 8, Sum8(w))
  {
    hide S4, Sum4, Counts, Halves;
    Counts4(w);
    Counts4(S4(w));
    Halves4(w);
    Doubled(w, S4(w), 4, 4, Sum4(w), Sum4(S4(w)));
  }

  lemma Counts16(w: Word)
    ensures Counts(w, 16, 16, Sum16(w))
  {
    hide S8, Sum8, Counts, Halves;
    Counts8(w);
    Counts8(S8(w));
    Halves16(w);
    Doubled(w, S8(w), 8, 8, Sum8(w), Sum8(S8(w)));
  }

  lemma Counts32(w: Word)
    ensures Counts(w, 32, 32, Sum32(w))
  {
    hide S16, Sum16, Counts, Halves;
    Counts16(w);
    Counts16(S16(w));
    Halves16(w);
    Doubled(w, S16(w), 16, 16, Sum16(w), Sum16(S16(w)));
  }

  lemma Counts64(w: Word)
    ensures Counts(w, 64, 64, Sum64(w))
  {
    hide S32, Sum32, Counts, Halves;
    Counts32(w);
    Counts32(S32(w));
    Halves16(w);
    Doubled(w, S32(w), 32, 32, Sum32(w), Sum32(S32(w)));
  }

  // ----- all parts at once -----

  function Byte(w: Word): Word { w & 0xff }

  lemma LowByte(i: Word)
    ensures Byte(InBytes(i)) == Sum8(i)
  {}

  /** The sum of the two bits of every pair. */
  function PairSums(i: Word): Word {
    ((i ^ (i >> 1)) & 0x5555_5555_5555_5555) | (((i & (i >> 1)) & 0x5555_5555_5555_5555) << 1)
  }

  lemma PairsSum(i: Word)
    ensures Pairs(i) == PairSums(i)
  {}

  lemma SumsShift(i: Word)
    ensures S8(PairSums(i)) == PairSums(S8(i))
  {}

  lemma PairsShift(i: Word)
    ensures S8(Pairs(i)) == Pairs(S8(i))
  {
    hide *;
    PairsSum(i);
    PairsSum(S8(i));
    SumsShift(i);
  }

  predicate Low3(i: Word) { i & 0x8888_8888_8888_8888 == 0 }
  predicate Low4(i: Word) { i & 0xf0f0_f0f0_f0f0_f0f0 == 0 }
  predicate Low5(i: Word) { i & 0xe0e0_e0e0_e0e0_e0e0 == 0 }
  predicate Low6(i: Word) { i & 0xc0c0_c0c0_c0c0_c0c0 == 0 }

  lemma NibblesShift(i: Word)
    ensures S8(Nibbles(i)) == Nibbles(S8(i)) && Low3(Nibbles(i))
  {}

  lemma BytesShift(i: Word)
    requires Low3(i)
    ensures S8(Bytes(i)) == Bytes(S8(i)) && Low4(Bytes(i))
  {}

  /** Every byte is computed from its own bits only. */
  lemma InBytesShift(i: Word)
    ensures S8(InBytes(i)) == InBytes(S8(i)) && Low4(InBytes(i))
  {
    hide S8, Pairs, Nibbles, Bytes, Low3, Low4;
    PairsShift(i);
    NibblesShift(Pairs(i));
    BytesShift(Nibbles(Pairs(i)));
  }

  lemma Fold8Parts(x: Word)
    requires Low4(x)
    ensures Low5(Fold8(x)) && S8(Fold8(x)) == Fold8(S8(x))
    ensures Byte(Fold8(x)) == Plus(Byte(x), Byte(S8(x)))
  {}

  lemma Fold16Low(x: Word)
    requires Low5(x)
    ensures Low6(Fold16(x)) && Byte(Fold16(x)) == Plus(Byte(x), Byte(S16(x)))
  {}

  lemma Fold16High(x: Word)
    requires Low5(x)
    ensures Byte(S32(Fold16(x))) == Plus(Byte(S32(x)), Byte(S16(S32(x))))
  {}

  lemma Fold32Parts(x: Word)
    requires Low6(x)
    ensures Fold32(x) & 0x7f == Plus(Byte(x), Byte(S32(x)))
  {}

  lemma ShortsShift(i: Word)
    ensures S8(InShorts(i)) == InShorts(S8(i)) && Low5(InShorts(i))
    ensures Byte(InShorts(i)) == Sum16(i)
  {
    hide S8, InBytes, Fold8, Low4, Low5, Byte, Plus, Sum8;
    InBytesShift(i);
    Fold8Parts(InBytes(i));
    LowByte(i);
    LowByte(S8(i));
  }

  lemma ShortsShift32(i: Word)
    ensures S16(InShorts(i)) == InShorts(S16(i)) && S32(InShorts(i)) == InShorts(S32(i))
  {
    hide S8, S16, S32, InShorts, Low5, Byte, Sum16;
    ShortsTwice(i);
    ShortsTwice(S16(i));
    Shift32(i);
    Shift32(InShorts(i));
  }

  lemma ShortsTwice(i: Word)
    ensures S16(InShorts(i)) == InShorts(S16(i))
  {
    hide S8, S16, InShorts, Low5, Byte, Sum16;
    ShortsShift(i);
    ShortsShift(S8(i));
    Shift16(i);
    Shift16(InShorts(i));
  }

  lemma IntsParts(i: Word)
    ensures Low6(InInts(i)) && Byte(InInts(i)) == Sum32(i) && Byte(S32(InInts(i))) == Sum32(S32(i))
  {
    hide S8, S16, S32, InShorts, Fold16, Low5, Low6, Byte, Plus, Sum16;
    ShortsShift(i);
    ShortsShift(S16(i));
    ShortsShift(S32(i));
    ShortsShift(S16(S32(i)));
    ShortsShift32(i);
    ShortsTwice(S32(i));
    Fold16Low(InShorts(i));
    Fold16High(InShorts(i));
  }

  lemma BitCountFolds(i: Word)
    ensures BitCount(i) == Fold32(InInts(i)) & 0x7f
  {}

  /** The word that is computed is the number of bits set. */
  lemma BitCountIsCount(i: Word)
    ensures BitCount(i) as nat == Count(i, 64)
  {
    hide S32, InInts, Fold32, Low6, Byte, Plus, Sum32, Count, BitCount;
    IntsParts(i);
    Fold32Parts(InInts(i));
    Counts64(i);
    BitCountFolds(i);
  }

  // ----- the set -----

  /** The bits of a word, counted from `base`. */
  function Part(w: Word, base: nat, n: nat): (s: set<nat>)
    ensures forall k: nat :: k in s <==> IsPart(w, base, n, k)
  {
    set k: nat | k < base + n && IsPart(w, base, n, k)
  }

  predicate IsPart(w: Word, base: nat, n: nat, k: nat) {
    base <= k < base + n && Has(w, k - base)
  }

  lemma PartFirst(w: Word, base: nat, n: nat)
    requires n > 0
    ensures Part(w, base, n) == (if Low(w) then {base} else {}) + Part(Half(w), base + 1, n - 1)
    ensures base !in Part(Half(w), base + 1, n - 1)
  {
    hide Low, Half;
    forall k: nat
      ensures IsPart(w, base, n, k) <==> (k == base && Low(w)) || IsPart(Half(w), base + 1, n - 1, k)
    {
      if k > base { assert Has(w, k - base) == Has(Half(w), k - base - 1); }
    }
  }

  lemma {:induction false} PartSize(w: Word, base: nat, n: nat)
    ensures |Part(w, base, n)| == Count(w, n)
    decreases n
  {
    hide Low, Half, Has;
    if n == 0 {
      assert Part(w, base, n) == {};
    } else {
      PartSize(Half(w), base + 1, n - 1);
      PartFirst(w, base, n);
    }
  }
}
