/** The packed bit set: a vector of words, as short as possible.  Every operation is specified
    by the set of numbers that the vector stands for. */
module BitSets {
  import opened Words
  import opened Counting

  const WIDTH := 64

  // ----- the set a vector of words stands for -----

  predicate Holds(words: seq<Word>, n: nat) {
    n < WIDTH * |words| && Has(words[n / WIDTH], n % WIDTH)
  }

  function Elements(words: seq<Word>): (s: set<nat>)
    ensures forall n: nat :: n in s <==> Holds(words, n)
  {
    set n: nat | n < WIDTH * |words| && Holds(words, n)
  }

  /** The vector has no superfluous zero word at its end. */
  predicate Trimmed(words: seq<Word>) {
    words == [] || words[|words| - 1] != ZERO
  }

  /** `r` is the least element of `s` that is not below `from`, or -1 when there is none. */
  ghost predicate IsNext(s: set<nat>, from: nat, r: int) {
    if r == -1 then forall n | n in s :: n < from
    else from <= r && (r as nat) in s && forall n | n in s && n >= from :: r <= n
  }

  lemma Located(u: nat, n: nat)
    requires u * WIDTH <= n < (u + 1) * WIDTH
    ensures n / WIDTH == u && n == u * WIDTH + n % WIDTH
  {}

  lemma DivMod(u: nat, k: nat)
    requires k < WIDTH
    ensures (u * WIDTH + k) / WIDTH == u && (u * WIDTH + k) % WIDTH == k
  {}

  /** Dropping zero words from the end changes nothing. */
  lemma DropZero(words: seq<Word>)
    requires words != [] && words[|words| - 1] == ZERO
    ensures Elements(words[..|words| - 1]) == Elements(words)
  {
    hide Has;
    var shorter := words[..|words| - 1];
    forall n: nat
      ensures Holds(shorter, n) <==> Holds(words, n)
    {
      HasOps(ZERO, ZERO, n % WIDTH);
    }
  }

  lemma AppendZeros(words: seq<Word>, extra: nat)
    ensures Elements(words + seq(extra, _ => ZERO)) == Elements(words)
  {
    hide Has;
    forall n: nat
      ensures Holds(words + seq(extra, _ => ZERO), n) <==> Holds(words, n)
    {
      HasOps(ZERO, ZERO, n % WIDTH);
    }
  }

  /** Trimmed vectors with the same elements are equal, so comparing words compares sets. */
  lemma Canonical(a: seq<Word>, b: seq<Word>)
    requires Trimmed(a) && Trimmed(b) && Elements(a) == Elements(b)
    ensures a == b
  {
    hide Has;
    SameLength(a, b);
    SameLength(b, a);
    forall u | 0 <= u < |a|
      ensures a[u] == b[u]
    {
      forall j: nat | j < 64
        ensures Has(a[u], j) == Has(b[u], j)
      {
        DivMod(u, j);
        assert Holds(a, u * WIDTH + j) <==> u * WIDTH + j in Elements(b);
      }
      Extensional(a[u], b[u]);
    }
  }

  lemma SameLength(a: seq<Word>, b: seq<Word>)
    requires Trimmed(a) && Elements(a) == Elements(b)
    ensures |a| <= |b|
  {
    hide Has, NumberOfTrailingZeros;
    if a != [] {
      var u := |a| - 1;
      var j := NumberOfTrailingZeros(a[u]) as nat;
      TrailingZeros(a[u]);
      DivMod(u, j);
      assert Holds(a, u * WIDTH + j);
      assert u * WIDTH + j in Elements(b);
    }
  }

  lemma UnionWords(a: seq<Word>, b: seq<Word>, r: seq<Word>)
    requires |b| <= |a| == |r|
    requires forall j | 0 <= j < |b| :: r[j] == Or(a[j], b[j])
    requires forall j | |b| <= j < |r| :: r[j] == a[j]
    ensures Elements(r) == Elements(a) + Elements(b)
  {
    hide Has, Or;
    forall n: nat
      ensures Holds(r, n) <==> Holds(a, n) || Holds(b, n)
    {
      if n < WIDTH * |b| { HasOps(a[n / WIDTH], b[n / WIDTH], n % WIDTH); }
    }
  }

  lemma IntersectWords(a: seq<Word>, b: seq<Word>, r: seq<Word>)
    requires |r| == if |a| < |b| then |a| else |b|
    requires forall j | 0 <= j < |r| :: r[j] == And(a[j], b[j])
    ensures Elements(r) == Elements(a) * Elements(b)
  {
    hide Has, And;
    forall n: nat
      ensures Holds(r, n) <==> Holds(a, n) && Holds(b, n)
    {
      if n < WIDTH * |r| { HasOps(a[n / WIDTH], b[n / WIDTH], n % WIDTH); }
    }
  }

  lemma SetNotZero(w: Word, k: nat)
    requires k < 64
    ensures Or(w, Mask(k)) != ZERO
  {
    hide Has, Or, Mask;
    HasOps(w, Mask(k), k);
    HasMask(k, k);
  }

  /** All numbers from `lo` up to `hi`. */
  function Span(lo: nat, hi: nat): (s: set<nat>)
    ensures forall k: nat :: k in s <==> lo <= k < hi
    decreases if lo < hi then hi - lo else 0
  {
    if lo >= hi then {} else {lo} + Span(lo + 1, hi)
  }

  lemma OneWordMore(words: seq<Word>, i: nat)
    requires i < |words|
    ensures |Elements(words[..i + 1])| == |Elements(words[..i])| + Count(words[i], WIDTH)
  {
    hide Has, Count;
    var before, part := Elements(words[..i]), Part(words[i], i * WIDTH, WIDTH);
    forall n: nat
      ensures n in Elements(words[..i + 1]) <==> n in before || n in part
    {
      if i * WIDTH <= n < (i + 1) * WIDTH { Located(i, n); }
    }
    assert Elements(words[..i + 1]) == before + part;
    assert before !! part;
    PartSize(words[i], i * WIDTH, WIDTH);
  }

  class BitSet {
    var words: seq<Word>

    ghost predicate Valid()
      reads this
    {
      Trimmed(words)
    }

    ghost function Bits(): set<nat>
      reads this
    {
      Elements(words)
    }

    constructor ()
      ensures Valid() && Bits() == {}
    {
      words := [];
    }

    /** Step back from the end to the last non-zero word. */
    method RecalculateWordsInUse()
      modifies this
      ensures Valid() && Bits() == old(Bits())
    {
      var nsize := |words|;
      while nsize > 0
        invariant 0 <= nsize <= |words|
        invariant Elements(words[..nsize]) == Bits()
        invariant words == old(words)
      {
        if words[nsize - 1] != ZERO {
          break;
        }
        DropZero(words[..nsize]);
        assert words[..nsize][..nsize - 1] == words[..nsize - 1];
        nsize := nsize - 1;
      }
      words := words[..nsize];
    }

    /** Zero words are appended until there are at least `wordsRequired`. */
    method EnsureCapacity(wordsRequired: nat)
      modifies this
      ensures |words| == if |old(words)| < wordsRequired then wordsRequired else |old(words)|
      ensures old(words) <= words && Bits() == old(Bits())
    {
      if |words| < wordsRequired {
        var extra := wordsRequired - |words|;
        AppendZeros(words, extra);
        words := words + seq(extra, _ => ZERO);
      }
    }

    method Get(bitIndex: nat) returns (r: bool)
      ensures r <==> bitIndex in Bits()
    {
      hide Has, And, Mask;
      var wordIdx := bitIndex / WIDTH;
      if wordIdx < |words| {
        HasTest(words[wordIdx], bitIndex % WIDTH);
        r := And(words[wordIdx], Mask(bitIndex % WIDTH)) != ZERO;
      } else {
        r := false;
      }
    }

    method Flip(bitIndex: nat)
      modifies this
      ensures Valid()
      ensures Bits() == if bitIndex in old(Bits()) then old(Bits()) - {bitIndex} else old(Bits()) + {bitIndex}
    {
      hide Has, Xor, Mask;
      var wordIdx := bitIndex / WIDTH;
      EnsureCapacity(wordIdx + 1);
      ghost var before := words;
      words := words[wordIdx := Xor(words[wordIdx], Mask(bitIndex % WIDTH))];
      forall n: nat
        ensures Holds(words, n) <==> (n == bitIndex) != Holds(before, n)
      {
        HasOps(before[wordIdx], Mask(bitIndex % WIDTH), n % WIDTH);
        HasMask(bitIndex % WIDTH, n % WIDTH);
      }
      RecalculateWordsInUse();
    }

    method Set(bitIndex: nat)
      requires Valid()
      modifies this
      ensures Valid() && Bits() == old(Bits()) + {bitIndex}
    {
      hide Has, Or, Mask;
      var wordIdx := bitIndex / WIDTH;
      EnsureCapacity(wordIdx + 1);
      ghost var before := words;
      words := words[wordIdx := Or(words[wordIdx], Mask(bitIndex % WIDTH))];
      forall n: nat
        ensures Holds(words, n) <==> n == bitIndex || Holds(before, n)
      {
        HasOps(before[wordIdx], Mask(bitIndex % WIDTH), n % WIDTH);
        HasMask(bitIndex % WIDTH, n % WIDTH);
      }
      SetNotZero(before[wordIdx], bitIndex % WIDTH);
    }

    method Clear(bitIndex: nat)
      requires Valid()
      modifies this
      ensures Valid() && Bits() == old(Bits()) - {bitIndex}
    {
      hide Has, And, Not, Mask;
      var wordIdx := bitIndex / WIDTH;
      if wordIdx < |words| {
        ghost var before := words;
        words := words[wordIdx := And(words[wordIdx], Not(Mask(bitIndex % WIDTH)))];
        forall n: nat
          ensures Holds(words, n) <==> n != bitIndex && Holds(before, n)
        {
          HasOps(Mask(bitIndex % WIDTH), ZERO, n % WIDTH);
          HasOps(before[wordIdx], Not(Mask(bitIndex % WIDTH)), n % WIDTH);
          HasMask(bitIndex % WIDTH, n % WIDTH);
        }
        RecalculateWordsInUse();
      }
    }

    method NextSetBit(fromIndex: nat) returns (r: int)
      ensures IsNext(Bits(), fromIndex, r)
    {
      hide Has, And, MaskFrom, NumberOfTrailingZeros;
      var u := fromIndex / WIDTH;
      if u >= |words| {
        return -1;
      }
      var word := And(words[u], MaskFrom(fromIndex % WIDTH));
      forall j: nat | j < 64
        ensures Has(word, j) <==> fromIndex <= u * WIDTH + j && Has(words[u], j)
      {
        HasOps(words[u], MaskFrom(fromIndex % WIDTH), j);
        HasMask(fromIndex % WIDTH, j);
      }
      while true
        invariant fromIndex / WIDTH <= u < |words|
        invariant forall j: nat | j < 64 :: Has(word, j) <==> fromIndex <= u * WIDTH + j && Has(words[u], j)
        invariant forall n | n in Bits() :: fromIndex <= n ==> u * WIDTH <= n
        decreases |words| - u
      {
        if word != ZERO {
          ghost var k := NumberOfTrailingZeros(word) as nat;
          TrailingZeros(word);
          DivMod(u, k);
          assert Holds(words, u * WIDTH + k);
          return u * WIDTH + NumberOfTrailingZeros(word) as int;
        }
        forall n | n in Bits() && fromIndex <= n
          ensures (u + 1) * WIDTH <= n
        {
          HasOps(ZERO, ZERO, n % WIDTH);
        }
        u := u + 1;
        if u == |words| {
          return -1;
        }
        word := words[u];
      }
    }

    method NextClearBit(fromIndex: nat) returns (r: nat)
      ensures fromIndex <= r && r !in Bits()
      ensures forall n | fromIndex <= n < r :: n in Bits()
    {
      hide Has, And, Not, MaskFrom, NumberOfTrailingZeros;
      var u := fromIndex / WIDTH;
      if u >= |words| {
        return fromIndex;
      }
      var word := And(Not(words[u]), MaskFrom(fromIndex % WIDTH));
      forall j: nat | j < 64
        ensures Has(word, j) <==> fromIndex <= u * WIDTH + j && !Has(words[u], j)
      {
        HasOps(words[u], ZERO, j);
        HasOps(Not(words[u]), MaskFrom(fromIndex % WIDTH), j);
        HasMask(fromIndex % WIDTH, j);
      }
      while true
        invariant fromIndex / WIDTH <= u < |words|
        invariant forall j: nat | j < 64 :: Has(word, j) <==> fromIndex <= u * WIDTH + j && !Has(words[u], j)
        invariant forall n | fromIndex <= n < u * WIDTH :: n in Bits()
        decreases |words| - u
      {
        if word != ZERO {
          ghost var k := NumberOfTrailingZeros(word) as nat;
          TrailingZeros(word);
          DivMod(u, k);
          r := u * WIDTH + NumberOfTrailingZeros(word) as nat;
          forall n | fromIndex <= n < r
            ensures n in Bits()
          {
            if n >= u * WIDTH {
              Located(u, n);
            }
          }
          return;
        }
        forall n | fromIndex <= n < (u + 1) * WIDTH
          ensures n in Bits()
        {
          if n >= u * WIDTH {
            Located(u, n);
            HasOps(ZERO, ZERO, n % WIDTH);
          }
        }
        u := u + 1;
        if u == |words| {
          return |words| * WIDTH;
        }
        word := Not(words[u]);
        forall j: nat | j < 64
          ensures Has(word, j) <==> fromIndex <= u * WIDTH + j && !Has(words[u], j)
        {
          HasOps(words[u], ZERO, j);
        }
      }
    }

    /** The number of elements. */
    method Cardinality() returns (sum: nat)
      ensures sum == |Bits()|
    {
      hide Count, BitCount;
      sum := 0;
      assert Elements(words[..0]) == {};
      for i := 0 to |words|
        invariant sum == |Elements(words[..i])|
      {
        OneWordMore(words, i);
        BitCountIsCount(words[i]);
        sum := sum + BitCount(words[i]) as nat;
      }
      assert words[..|words|] == words;
    }

    method IsEmpty() returns (r: bool)
      requires Valid()
      ensures r <==> Bits() == {}
    {
      r := words == [];
      if words != [] && Bits() == {} {
        SameLength(words, []);
      }
    }

    method Equals(other: BitSet) returns (r: bool)
      requires Valid() && other.Valid()
      ensures r <==> Bits() == other.Bits()
    {
      r := words == other.words;
      if Bits() == other.Bits() {
        Canonical(words, other.words);
      }
    }

    /** True when the two sets have a common element. */
    method LogicalAnd(other: BitSet) returns (r: bool)
      ensures r <==> Bits() * other.Bits() != {}
    {
      hide Has, And, NumberOfTrailingZeros;
      var nwords := if |words| < |other.words| then |words| else |other.words|;
      for i := 0 to nwords
        invariant forall n | n in Bits() && n in other.Bits() :: i * WIDTH <= n
      {
        var both := And(words[i], other.words[i]);
        if both != ZERO {
          var k := NumberOfTrailingZeros(both) as nat;
          TrailingZeros(both);
          HasOps(words[i], other.words[i], k);
          DivMod(i, k);
          assert i * WIDTH + k in Bits() * other.Bits();
          return true;
        }
        forall n | n in Bits() && n in other.Bits()
          ensures (i + 1) * WIDTH <= n
        {
          HasOps(words[i], other.words[i], n % WIDTH);
        }
      }
      return false;
    }

    method AndWith(other: BitSet)
      requires Valid() && other.Valid()
      modifies this
      ensures Valid() && Bits() == old(Bits()) * old(other.Bits())
    {
      hide Has, And;
      if this == other {
        return;
      }
      ghost var a, b := words, other.words;
      if |other.words| < |words| {
        words := words[..|other.words|];
      }
      var e := |words|;
      for i := 0 to e
        invariant |words| == e <= |a| && other.words == b
        invariant e == |a| || e == |b|
        invariant e <= |b|
        invariant forall j | 0 <= j < i :: words[j] == And(a[j], b[j])
        invariant forall j | i <= j < e :: words[j] == a[j]
      {
        words := words[i := And(words[i], other.words[i])];
      }
      IntersectWords(a, b, words);
      RecalculateWordsInUse();
    }

    method OrWith(other: BitSet)
      requires Valid() && other.Valid()
      modifies this
      ensures Valid() && Bits() == old(Bits()) + old(other.Bits())
    {
      hide Has, Or;
      if this == other {
        return;
      }
      ghost var b := other.words;
      EnsureCapacity(|other.words|);
      ghost var a := words;
      for i := 0 to |other.words|
        invariant |words| == |a| && other.words == b
        invariant forall j | 0 <= j < i :: words[j] == Or(a[j], b[j])
        invariant forall j | i <= j < |words| :: words[j] == a[j]
      {
        words := words[i := Or(words[i], other.words[i])];
      }
      UnionWords(a, b, words);
      OrTrimmed(old(words), a, b, words);
    }

    /** Assigning the bits of `other`. */
    method Assign(other: BitSet)
      requires other.Valid()
      modifies this
      ensures Valid() && Bits() == old(other.Bits())
    {
      words := other.words;
    }

    /** Symmetric difference; a set combined with itself becomes empty. */
    method XorWith(other: BitSet)
      requires Valid() && other.Valid()
      modifies this
      ensures Valid()
      ensures Bits() == (old(Bits()) - old(other.Bits())) + (old(other.Bits()) - old(Bits()))
    {
      hide Has, Xor;
      ghost var b := other.words;
      EnsureCapacity(|other.words|);
      ghost var a := words;
      for i := 0 to |other.words|
        invariant |words| == |a|
        invariant this == other ==> a == b
        invariant this != other ==> other.words == b
        invariant |other.words| == |b|
        invariant forall j | 0 <= j < i :: words[j] == Xor(a[j], b[j])
        invariant forall j | i <= j < |words| :: words[j] == a[j]
      {
        words := words[i := Xor(words[i], other.words[i])];
      }
      forall n: nat
        ensures Holds(words, n) <==> Holds(a, n) != Holds(b, n)
      {
        if n < WIDTH * |b| { HasOps(a[n / WIDTH], b[n / WIDTH], n % WIDTH); }
      }
      RecalculateWordsInUse();
    }

    /** Adds the common elements of two sets, either of which may be this one. */
    method OrAnd(set1: BitSet, set2: BitSet)
      modifies this
      ensures Valid() && Bits() == old(Bits()) + old(set1.Bits()) * old(set2.Bits())
    {
      hide Has, Or, And;
      ghost var s1, s2 := set1.words, set2.words;
      var andlen := if |set1.words| < |set2.words| then |set1.words| else |set2.words|;
      ghost var both := seq(andlen, j requires 0 <= j < andlen && andlen <= |s1| && andlen <= |s2| => And(s1[j], s2[j]));
      EnsureCapacity(andlen);
      ghost var a := words;
      for i := 0 to andlen
        invariant |words| == |a| && andlen <= |set1.words| && andlen <= |set2.words|
        invariant forall j | i <= j < andlen :: set1.words[j] == s1[j] && set2.words[j] == s2[j]
        invariant forall j | 0 <= j < i :: words[j] == Or(a[j], both[j])
        invariant forall j | i <= j < |words| :: words[j] == a[j]
      {
        words := words[i := Or(words[i], And(set1.words[i], set2.words[i]))];
      }
      IntersectWords(s1, s2, both);
      UnionWords(a, both, words);
      RecalculateWordsInUse();
    }
  }

  /** Word-wise union keeps the last word of the longer vector non-zero. */
  lemma OrTrimmed(a0: seq<Word>, a: seq<Word>, b: seq<Word>, r: seq<Word>)
    requires Trimmed(a0) && Trimmed(b) && a0 <= a && |b| <= |a| == |r|
    requires |a| == if |a0| < |b| then |b| else |a0|
    requires forall j | 0 <= j < |b| :: r[j] == Or(a[j], b[j])
    requires forall j | |b| <= j < |r| :: r[j] == a[j]
    ensures Trimmed(r)
  {
    hide Has, NumberOfTrailingZeros, Or;
    if r != [] && r[|r| - 1] == ZERO {
      var u := |r| - 1;
      assert u < |b|;
      var w := if |a0| == |a| then a[u] else b[u];
      var k := NumberOfTrailingZeros(w) as nat;
      TrailingZeros(w);
      HasOps(a[u], b[u], k);
    }
  }
}
