/** What the bytes of a bit set are: which bit stands where, and that none are wasted. */
module BitSetForms {
  import opened Values
  import opened Words
  import opened BitSets
  import opened Wire
  import opened BitSetWire

  // ----- bits of numbers -----

  lemma BitTwo(n: nat, j: nat)
    ensures BitOf(n, j + 2) == BitOf(n / 4, j)
  {
    assert BitOf(n, j + 2) == BitOf(n / 2, j + 1);
    assert n / 2 / 2 == n / 4;
  }

  lemma BitEight(n: nat, j: nat)
    ensures BitOf(n, j + 8) == BitOf(n / 256, j)
  {
    hide BitOf;
    BitTwo(n, j + 6);
    BitTwo(n / 4, j + 4);
    BitTwo(n / 16, j + 2);
    BitTwo(n / 64, j);
    assert n / 4 / 4 == n / 16 && n / 16 / 4 == n / 64 && n / 64 / 4 == n / 256;
  }

  lemma {:induction false} BitOfDropped(n: nat, i: nat, j: nat)
    ensures BitOf(Dropped(n, i), j) == BitOf(n, 8 * i + j)
    decreases i
  {
    hide BitOf;
    if i > 0 {
      BitOfDropped(n / 256, i - 1, j);
      BitEight(n, 8 * (i - 1) + j);
    }
  }

  /** The lowest `k` bits do not depend on the others. */
  lemma {:induction false} BitLow(n: nat, q: nat, k: nat, j: nat)
    requires j < k
    ensures BitOf(Pow2(k) * q + n, j) == BitOf(n, j)
    decreases j
  {
    var h := Pow2(k - 1) * q;
    assert Pow2(k) * q == 2 * h;
    if j > 0 {
      assert (2 * h + n) / 2 == h + n / 2;
      BitLow(n / 2, q, k - 1, j - 1);
    }
  }

  lemma BitOfByte(n: nat, j: nat)
    requires j < 8
    ensures BitOf(n % 256, j) == BitOf(n, j)
  {
    hide BitOf;
    assert Pow2(8) == 256;
    BitLow(n % 256, n / 256, 8, j);
  }

  /** Bit `j` of byte `i` of a number. */
  lemma BitOfPart(w: Word, i: nat, j: nat)
    requires i < 8 && j < 8
    ensures BitOf(Dropped(WordValue(w, 64), i) % 256, j) <==> Has(w, 8 * i + j)
  {
    hide BitOf, WordValue, Dropped, Has;
    var v := WordValue(w, 64);
    BitOfByte(Dropped(v, i), j);
    BitOfDropped(v, i, j);
    BitOfValue(w, 64, 8 * i + j);
  }

  // ----- bytes of bit sets -----

  /** The null size is read as the empty set. */
  lemma NullSet(big: bool, rest: Bytes)
    ensures ReadBitSet(big, [255] + rest) == Parsed([], rest)
  {
    assert ([255] + rest)[1..] == rest;
  }

  /** Without the size. */
  function Body(words: seq<Word>, big: bool): (s: Bytes)
    ensures |s| == EncodedLength(words)
  {
    if words == [] then []
    else if LastLength(words) == 8 then LongsBytes(words, big)
    else LongsBytes(words[..|words| - 1], big) + IntBytes(WordValue(words[|words| - 1], 64), LastLength(words), false)
  }

  lemma SizeThenBody(words: seq<Word>, big: bool)
    ensures BitSetBytes(words, big) == SizeBytes(EncodedLength(words), big) + Body(words, big)
  {
    assert SizeBytes(0, big) + [] == SizeBytes(0, big);
  }

  lemma {:induction false} LongsAt(words: seq<Word>, big: bool, k: nat, b: nat)
    requires k < |words| && b < 8
    ensures LongsBytes(words, big)[8 * k + b] == IntBytes(WordValue(words[k], 64), 8, big)[b]
    decreases k
  {
    hide IntBytes, WordValue;
    if k > 0 { LongsAt(words[1..], big, k - 1, b); }
  }

  /** Where byte `i` of a set stands among `n`: the bytes of a complete word are turned round if `big`, and
      those of an incomplete last word never are. */
  function Place(n: nat, big: bool, i: nat): nat {
    if big && 8 * (i / 8) + 8 <= n then 8 * (i / 8) + 7 - i % 8 else i
  }

  /** Byte `i` of the body, for a complete word or an incomplete one. */
  lemma ByteAt(words: seq<Word>, big: bool, i: nat)
    requires i < EncodedLength(words)
    ensures Place(EncodedLength(words), big, i) < EncodedLength(words) && i / 8 < |words|
    ensures Body(words, big)[Place(EncodedLength(words), big, i)] as nat == Dropped(WordValue(words[i / 8], 64), i % 8) % 256
  {
    hide WordValue, LongsBytes, IntBytes, LastLength, Dropped;
    var k, b, n := i / 8, i % 8, |words|;
    var v := WordValue(words[k], 64);
    if k < n - 1 || LastLength(words) == 8 {
      var full := if LastLength(words) == 8 then words else words[..n - 1];
      assert full[k] == words[k];
      LongsAt(full, big, k, if big then 7 - b else b);
      IntBytesAt(v, 8, big, b);
    } else {
      IntBytesAt(v, LastLength(words), false, b);
    }
  }

  /** Bit `j` of byte `i` tells whether `8 * i + j` is an element. */
  lemma BitAt(words: seq<Word>, big: bool, i: nat, j: nat)
    requires i < EncodedLength(words) && j < 8
    ensures Place(EncodedLength(words), big, i) < EncodedLength(words)
    ensures BitOf(Body(words, big)[Place(EncodedLength(words), big, i)] as nat, j) <==> 8 * i + j in Elements(words)
  {
    hide BitOf, WordValue, LastLength, Body, Has, Place, Dropped;
    ByteAt(words, big, i);
    BitOfPart(words[i / 8], i % 8, j);
    assert (8 * i + j) / 64 == i / 8 && (8 * i + j) % 64 == 8 * (i % 8) + j;
  }

  /** There are just as many bytes as the largest element needs. */
  lemma BytesNeeded(words: seq<Word>, e: nat)
    requires Trimmed(words) && words != []
    ensures e in Elements(words) ==> e < 8 * EncodedLength(words)
    ensures exists m :: m in Elements(words) && 8 * EncodedLength(words) <= m + 8
  {
    hide BitOf, WordValue, Has, ByteLength;
    var n, l := |words|, LastLength(words);
    var last := words[n - 1];
    var v := WordValue(last, 64);
    LastNotEmpty(last, v);
    if e in Elements(words) && e / 64 == n - 1 {
      var x := e % 64;
      BitOfValue(last, 64, x);
      if x >= 8 * l { NoBitBeyond(v, x); }
    }
    LengthPositive(v);
    var j := HighestByte(v);
    var m := 64 * (n - 1) + 8 * (l - 1) + j;
    BitOfValue(last, 64, 8 * (l - 1) + j);
    assert m / 64 == n - 1 && m % 64 == 8 * (l - 1) + j;
    assert m in Elements(words);
  }

  lemma LengthPositive(v: nat)
    ensures ByteLength(v) > 0 ==> v > 0
  {}

  lemma {:induction false} NoBitBeyond(v: nat, x: nat)
    requires x >= 8 * ByteLength(v)
    ensures !BitOf(v, x)
    decreases v
  {
    hide BitOf;
    if v == 0 {
      BitOfZero(x);
    } else {
      NoBitBeyond(v / 256, x - 8);
      BitEight(v, x - 8);
    }
  }

  /** The highest byte of a number has a bit. */
  lemma {:induction false} HighestByte(v: nat) returns (j: nat)
    requires v > 0
    ensures ByteLength(v) > 0 && j < 8 && BitOf(v, 8 * (ByteLength(v) - 1) + j)
    decreases v
  {
    if v < 256 {
      j := SomeBit(v, 8);
    } else {
      j := HighestByte(v / 256);
      BitEight(v, 8 * (ByteLength(v / 256) - 1) + j);
    }
  }

  lemma {:induction false} SomeBit(v: nat, k: nat) returns (j: nat)
    requires 0 < v < Pow2(k)
    ensures j < k && BitOf(v, j)
    decreases k
  {
    if v % 2 == 1 {
      j := 0;
    } else {
      j := SomeBit(v / 2, k - 1);
      j := j + 1;
    }
  }
}
