/** The wire form of a bit set: the bytes of its words, without the zero bytes at the end.  Whole
    words are written in the byte order of the buffer; an incomplete last word is written lowest
    byte first in either order. */
module BitSetWire {
  import opened Values
  import opened Words
  import opened BitSets
  import opened Wire
  import opened Sink

  // ----- the number that a word is -----

  /** The number made of the lowest `k` bits. */
  function WordValue(w: Word, k: nat): nat {
    if k == 0 then 0 else (if Low(w) then 1 else 0) + 2 * WordValue(Half(w), k - 1)
  }

  /** The word whose lowest `k` bits are those of `n`. */
  function WordOf(n: nat, k: nat): Word {
    if k == 0 then ZERO
    else if n % 2 == 1 then Or(Double(WordOf(n / 2, k - 1)), Mask(0))
    else Double(WordOf(n / 2, k - 1))
  }

  predicate BitOf(n: nat, j: nat) {
    if j == 0 then n % 2 == 1 else BitOf(n / 2, j - 1)
  }

  lemma {:induction false} BitOfValue(w: Word, k: nat, j: nat)
    ensures BitOf(WordValue(w, k), j) <==> j < k && Has(w, j)
    decreases k
  {
    hide Low, Half;
    if k == 0 {
      BitOfZero(j);
    } else if j > 0 {
      assert WordValue(w, k) / 2 == WordValue(Half(w), k - 1);
      BitOfValue(Half(w), k - 1, j - 1);
    }
  }

  lemma {:induction false} BitOfZero(j: nat)
    ensures !BitOf(0, j)
  {
    if j > 0 { BitOfZero(j - 1); }
  }

  lemma {:induction false} HasWordOf(n: nat, k: nat, j: nat)
    requires k <= 64 && j < 64
    ensures Has(WordOf(n, k), j) <==> j < k && BitOf(n, j)
    decreases k
  {
    hide Has, Or, Mask, Double;
    HasOps(ZERO, ZERO, j);
    if k > 0 {
      var d := Double(WordOf(n / 2, k - 1));
      HasDouble(WordOf(n / 2, k - 1), j);
      HasOps(d, Mask(0), j);
      HasMask(0, j);
      if j > 0 { HasWordOf(n / 2, k - 1, j - 1); }
    }
  }

  /** A word is rebuilt from its number. */
  lemma WordRoundTrip(w: Word)
    ensures WordOf(WordValue(w, 64), 64) == w
  {
    hide Has, WordOf, WordValue, BitOf;
    forall j: nat | j < 64
      ensures Has(WordOf(WordValue(w, 64), 64), j) == Has(w, j)
    {
      HasWordOf(WordValue(w, 64), 64, j);
      BitOfValue(w, 64, j);
    }
    Extensional(WordOf(WordValue(w, 64), 64), w);
  }

  function Pow2(k: nat): (p: nat)
    ensures p >= 1
  {
    if k == 0 then 1 else 2 * Pow2(k - 1)
  }

  lemma {:induction false} WordValueRange(w: Word, k: nat)
    ensures WordValue(w, k) < Pow2(k)
    decreases k
  {
    hide Low, Half;
    if k > 0 { WordValueRange(Half(w), k - 1); }
  }

  lemma WordFitsEightBytes(w: Word)
    ensures WordValue(w, 64) < Range(8)
  {
    WordValueRange(w, 64);
    assert Pow2(8) == 256;
    Pow2Bytes(8);
  }

  lemma {:induction false} Pow2Bytes(n: nat)
    ensures Pow2(8 * n) == Range(n)
  {
    if n > 0 {
      Pow2Bytes(n - 1);
      Pow2Eight(8 * (n - 1));
    }
  }

  lemma Pow2Eight(k: nat)
    ensures Pow2(k + 8) == 256 * Pow2(k)
  {
    assert Pow2(k + 4) == 16 * Pow2(k) by { assert Pow2(k + 2) == 4 * Pow2(k); }
    assert Pow2(k + 8) == 16 * Pow2(k + 4) by { assert Pow2(k + 6) == 4 * Pow2(k + 4); }
  }

  // ----- bytes of the last word -----

  /** The number of bytes up to the highest one that is not zero. */
  function ByteLength(v: nat): nat {
    if v == 0 then 0 else 1 + ByteLength(v / 256)
  }

  lemma {:induction false} ByteLengthFits(v: nat)
    ensures v < Range(ByteLength(v))
    decreases v
  {
    if v > 0 { ByteLengthFits(v / 256); }
  }

  lemma {:induction false} ByteLengthBound(v: nat, w: nat)
    requires v < Range(w)
    ensures ByteLength(v) <= w
    decreases w
  {
    if v > 0 && w > 0 { ByteLengthBound(v / 256, w - 1); }
  }

  // ----- encoding -----

  function LongsBytes(words: seq<Word>, big: bool): (s: Bytes)
    ensures |s| == 8 * |words|
  {
    if words == [] then [] else IntBytes(WordValue(words[0], 64), 8, big) + LongsBytes(words[1..], big)
  }

  function LastLength(words: seq<Word>): (n: nat)
    requires words != []
    ensures n <= 8
  {
    var v := WordValue(words[|words| - 1], 64);
    WordFitsEightBytes(words[|words| - 1]);
    ByteLengthBound(v, 8);
    ByteLength(v)
  }

  function EncodedLength(words: seq<Word>): nat {
    if words == [] then 0 else 8 * (|words| - 1) + LastLength(words)
  }

  function BitSetBytes(words: seq<Word>, big: bool): Bytes {
    if words == [] then SizeBytes(0, big)
    else
      var last := words[|words| - 1];
      SizeBytes(EncodedLength(words), big) +
      if LastLength(words) == 8 then LongsBytes(words, big)
      else LongsBytes(words[..|words| - 1], big) + IntBytes(WordValue(last, 64), LastLength(words), false)
  }

  // ----- decoding -----

  function ReadLongs(n: nat, big: bool, s: Bytes): seq<Word>
    requires 8 * n <= |s|
  {
    if n == 0 then [] else [WordOf(IntOf(s[..8], big), 64)] + ReadLongs(n - 1, big, s[8..])
  }

  /** Zero words at the end are dropped. */
  function Trim(words: seq<Word>): (r: seq<Word>)
    ensures Trimmed(r) && |r| <= |words|
  {
    if words == [] || words[|words| - 1] != ZERO then words else Trim(words[..|words| - 1])
  }

  function WordsOf(n: nat, big: bool, s: Bytes): seq<Word>
    requires n <= |s|
  {
    var longs := n / 8;
    ReadLongs(longs, big, s) + if n % 8 == 0 then [] else [WordOf(IntOf(s[8 * longs..n], false), 64)]
  }

  /** A null size overflows to zero words. */
  function ReadBitSet(big: bool, s: Bytes): Parsed<seq<Word>> {
    match ReadSize(big, s)
    case Malformed => Malformed
    case Parsed(n, rest) =>
      if n == NULL_SIZE then Parsed([], rest)
      else if |rest| < n then Malformed
      else Parsed(Trim(WordsOf(n, big, rest)), rest[n..])
  }

  // ----- round trip -----

  lemma {:induction false} LongsRoundTrip(words: seq<Word>, big: bool, more: Bytes)
    ensures ReadLongs(|words|, big, LongsBytes(words, big) + more) == words
    decreases |words|
  {
    hide WordOf, WordValue, IntBytes, IntOf, Range;
    if words != [] {
      var v := WordValue(words[0], 64);
      var s := LongsBytes(words, big) + more;
      WordFitsEightBytes(words[0]);
      IntRoundTrip(v, 8, big);
      WordRoundTrip(words[0]);
      assert s[..8] == IntBytes(v, 8, big);
      assert s[8..] == LongsBytes(words[1..], big) + more;
      LongsRoundTrip(words[1..], big, more);
      assert words == [words[0]] + words[1..];
    }
  }

  /** A bit set comes back as it was, in either byte order. */
  lemma BitSetRoundTrip(words: seq<Word>, big: bool, rest: Bytes)
    requires Trimmed(words) && 8 * |words| < MAX_SIZE
    ensures ReadBitSet(big, BitSetBytes(words, big) + rest) == Parsed(words, rest)
  {
    hide SizeBytes, ReadSize, LongsBytes, ReadLongs, WordValue, WordOf, IntBytes, IntOf, ByteLength, Range;
    if words == [] {
      SizeRoundTrip(0, big, rest);
      LongsRoundTrip([], big, rest);
      assert LongsBytes([], big) + rest == rest && rest[0..] == rest by { NoLongs(big, rest); }
      TrimSame([]);
    } else {
      var n, L, last := EncodedLength(words), LastLength(words), words[|words| - 1];
      var v := WordValue(last, 64);
      var body := if L == 8 then LongsBytes(words, big) else LongsBytes(words[..|words| - 1], big) + IntBytes(v, L, false);
      assert |body| == n;
      assert BitSetBytes(words, big) + rest == SizeBytes(n, big) + (body + rest);
      SizeRoundTrip(n, big, body + rest);
      assert (body + rest)[n..] == rest;
      WordsOfBody(words, big, rest);
      TrimSame(words);
    }
  }

  lemma TrimSame(words: seq<Word>)
    requires Trimmed(words)
    ensures Trim(words) == words
  {}

  lemma NoLongs(big: bool, rest: Bytes)
    ensures LongsBytes([], big) + rest == rest
  {}

  lemma DivEight(k: nat, l: nat)
    requires l < 8
    ensures (8 * k + l) / 8 == k && (8 * k + l) % 8 == l
  {}

  lemma WordsOfBody(words: seq<Word>, big: bool, rest: Bytes)
    requires words != [] && Trimmed(words)
    ensures var last := words[|words| - 1];
      var body := if LastLength(words) == 8 then LongsBytes(words, big)
        else LongsBytes(words[..|words| - 1], big) + IntBytes(WordValue(last, 64), LastLength(words), false);
      EncodedLength(words) <= |body + rest| && WordsOf(EncodedLength(words), big, body + rest) == words
  {
    hide LongsBytes, ReadLongs, WordValue, WordOf, IntBytes, IntOf, Range, WordsOf, LastLength;
    if LastLength(words) == 8 {
      LongsRoundTrip(words, big, rest);
      DivEight(|words|, 0);
      WholeWords(|words|, big, LongsBytes(words, big) + rest);
    } else {
      PartialWord(words, big, rest);
    }
  }

  lemma WholeWords(k: nat, big: bool, s: Bytes)
    requires 8 * k <= |s|
    ensures WordsOf(8 * k, big, s) == ReadLongs(k, big, s)
  {
    hide ReadLongs;
    DivEight(k, 0);
  }

  lemma PartialWord(words: seq<Word>, big: bool, rest: Bytes)
    requires words != [] && Trimmed(words) && LastLength(words) < 8
    ensures var last := words[|words| - 1];
      var body := LongsBytes(words[..|words| - 1], big) + IntBytes(WordValue(last, 64), LastLength(words), false);
      EncodedLength(words) <= |body + rest| && WordsOf(EncodedLength(words), big, body + rest) == words
  {
    hide LongsBytes, ReadLongs, WordValue, WordOf, IntBytes, IntOf, Range, ByteLength;
    var last, l, k := words[|words| - 1], LastLength(words), |words| - 1;
    var v, head := WordValue(last, 64), words[..k];
    var tail := IntBytes(v, l, false);
    var s := LongsBytes(head, big) + tail + rest;
    ByteLengthFits(v);
    WordRoundTrip(last);
    LastNotEmpty(last, v);
    DivEight(k, l);
    Joined(LongsBytes(head, big), tail, rest);
    LongsRoundTrip(head, big, tail + rest);
    assert s[8 * k..8 * k + l] == tail;
    IntRoundTrip(v, l, false);
    assert words == head + [last];
  }

  lemma LastNotEmpty(last: Word, v: nat)
    requires last != ZERO && v == WordValue(last, 64)
    ensures ByteLength(v) > 0
  {
    hide WordValue;
    if v == 0 {
      WordRoundTrip(last);
      ZeroWord(64);
    }
  }

  lemma {:induction false} ZeroWord(k: nat)
    ensures WordOf(0, k) == ZERO
  {
    if k > 0 { ZeroWord(k - 1); }
  }

  // ----- the methods of BitSet -----

  /** Counts the bytes up to the highest non-zero one. */
  method CountBytes(v: nat) returns (len: nat)
    ensures len == ByteLength(v)
  {
    len := 0;
    var x := v;
    while x != 0
      invariant len + ByteLength(x) == ByteLength(v)
    {
      len := len + 1;
      x := x / 256;
    }
  }

  /** BitSet::serialize.  The bytes must fit into the buffer of the sink. */
  method Serialize(b: BitSet, sink: Serializer)
    requires b.Valid() && sink.Valid() && EncodedLength(b.words) <= sink.buffer.Length
    requires 8 * |b.words| < MAX_SIZE
    modifies sink, sink.buffer
    ensures sink.Valid() && sink.Emitted() == old(sink.Emitted()) + BitSetBytes(b.words, sink.big)
  {
    hide SizeBytes, WordValue, IntBytes, ByteLength, Serializer.Emitted, LongsBytes, WordsBytes;
    ghost var before := sink.Emitted();
    var words := b.words;
    var n := |words|;
    if n == 0 {
      sink.WriteSize(0);
      return;
    }
    var last := WordValue(words[n - 1], 64);
    var lastBytes := CountBytes(last);
    var len := 8 * (n - 1) + lastBytes;
    sink.WriteSize(len);
    sink.EnsureBuffer(len);
    n := len / 8;
    DivEight(|words| - 1, if lastBytes == 8 then 0 else lastBytes);
    Encoded(words, n, sink.big);
    PutWords(words, n, last, lastBytes, sink);
    Joined(before, SizeBytes(len, sink.big), WordsBytes(words, n, last, lastBytes, sink.big));
  }

  lemma Encoded(words: seq<Word>, n: nat, big: bool)
    requires words != [] && n == if LastLength(words) == 8 then |words| else |words| - 1
    ensures BitSetBytes(words, big) == SizeBytes(EncodedLength(words), big)
      + WordsBytes(words, n, WordValue(words[|words| - 1], 64), LastLength(words), big)
  {
    hide SizeBytes, WordValue, IntBytes, LongsBytes, LastLength;
    if n == |words| {
      assert words[..n] == words && LongsBytes(words, big) + [] == LongsBytes(words, big);
    }
  }

  function WordsBytes(words: seq<Word>, n: nat, last: nat, lastBytes: nat, big: bool): Bytes
    requires n <= |words|
  {
    LongsBytes(words[..n], big) + if n < |words| then IntBytes(last, lastBytes, false) else []
  }

  /** The first `n` words as a whole, and the bytes of an incomplete last one. */
  method PutWords(words: seq<Word>, n: nat, last: nat, lastBytes: nat, sink: Serializer)
    requires sink.Valid() && n <= |words| && sink.position + 8 * n + lastBytes <= sink.buffer.Length + (if n < |words| then 0 else lastBytes)
    modifies sink, sink.buffer
    ensures sink.Valid() && sink.Emitted() == old(sink.Emitted()) + WordsBytes(words, n, last, lastBytes, sink.big)
  {
    hide IntBytes, Serializer.Emitted, LongsBytes;
    ghost var before := sink.Emitted();
    PutLongs(words[..n], sink);
    if n < |words| {
      sink.PutBytes(IntBytes(last, lastBytes, false));
      Joined(before, LongsBytes(words[..n], sink.big), IntBytes(last, lastBytes, false));
    } else {
      assert LongsBytes(words[..n], sink.big) + [] == LongsBytes(words[..n], sink.big);
    }
  }

  method PutLongs(words: seq<Word>, sink: Serializer)
    requires sink.Valid() && sink.position + 8 * |words| <= sink.buffer.Length
    modifies sink, sink.buffer
    ensures sink.Valid() && sink.Emitted() == old(sink.Emitted()) + LongsBytes(words, sink.big)
    ensures sink.position == old(sink.position) + 8 * |words|
  {
    hide WordValue, IntBytes, Serializer.Emitted;
    ghost var before := sink.Emitted();
    for i := 0 to |words|
      invariant sink.Valid() && sink.position == old(sink.position) + 8 * i
      invariant sink.Emitted() + LongsBytes(words[i..], sink.big) == before + LongsBytes(words, sink.big)
    {
      assert words[i..][0] == words[i] && words[i..][1..] == words[i + 1..];
      ghost var now := sink.Emitted();
      sink.PutBytes(IntBytes(WordValue(words[i], 64), 8, sink.big));
      Joined(now, IntBytes(WordValue(words[i], 64), 8, sink.big), LongsBytes(words[i + 1..], sink.big));
    }
  }

  /** The first `n` words, followed by zero words if there are fewer. */
  function Resized(words: seq<Word>, n: nat): seq<Word> {
    seq(n, i requires 0 <= i < n => if i < |words| then words[i] else ZERO)
  }

  /** When the words that are left after a failed read still do not end in zero. */
  lemma ResizedTrimmed(words: seq<Word>, n: nat)
    ensures |Resized(words, n)| == n
    ensures Trimmed(Resized(words, n)) <==> n == 0 || (n <= |words| && words[n - 1] != ZERO)
  {
    if n > 0 { assert Resized(words, n)[n - 1] == if n <= |words| then words[n - 1] else ZERO; }
  }

  /** BitSet::deserialize.  When bytes are missing, the words have been resized already and stay
      so, even if the last one is now zero; otherwise the set has no zero word at its end even if the
      sender has sent some. */
  method Deserialize(b: BitSet, big: bool, s: Bytes) returns (r: Parsed<()>)
    modifies b
    ensures r.Parsed? <==> ReadBitSet(big, s).Parsed?
    ensures r.Parsed? ==> b.words == ReadBitSet(big, s).value && r.rest == ReadBitSet(big, s).rest && b.Valid()
    ensures r.Malformed? && ReadSize(big, s).Malformed? ==> b.words == old(b.words)
    ensures r.Malformed? && ReadSize(big, s).Parsed? ==>
      b.words == Resized(old(b.words), (ReadSize(big, s).value + 7) / 8)
    ensures r.Malformed? && ReadSize(big, s).Parsed? ==>
      var n := (ReadSize(big, s).value + 7) / 8;
      b.Valid() <==> n == 0 || (n <= |old(b.words)| && old(b.words)[n - 1] != ZERO)
  {
    hide ReadSize, WordOf, IntOf, Resized;
    var size := ReadSize(big, s);
    if size.Malformed? {
      return Malformed;
    }
    var rest := size.rest;
    var bytes: nat := if size.value == NULL_SIZE then 0xFFFF_FFFF else size.value;
    var wordsInUse := (bytes + 7) % 0x1_0000_0000 / 8;
    ResizedTrimmed(b.words, wordsInUse);
    b.words := Resized(b.words, wordsInUse);
    if wordsInUse == 0 {
      assert size.value == NULL_SIZE || size.value == 0;
      if size.value == 0 { TrimSame([]); }
      assert b.words == [];
      return Parsed((), rest);
    }
    if |rest| < bytes {
      return Malformed;
    }
    var longs := bytes / 8;
    var words := ReadLongs(longs, big, rest);
    LongsCount(longs, big, rest);
    var remaining := bytes - longs * 8;
    if remaining > 0 {
      words := words + [WordOf(IntOf(rest[8 * longs..bytes], false), 64)];
    }
    assert words == WordsOf(bytes, big, rest) && |words| == wordsInUse;
    b.words := words;
    while b.words != [] && b.words[|b.words| - 1] == ZERO
      invariant Trim(b.words) == Trim(words)
      decreases |b.words|
    {
      b.words := b.words[..|b.words| - 1];
    }
    return Parsed((), rest[bytes..]);
  }

  lemma {:induction false} LongsCount(n: nat, big: bool, s: Bytes)
    requires 8 * n <= |s|
    ensures |ReadLongs(n, big, s)| == n
  {
    if n > 0 { LongsCount(n - 1, big, s[8..]); }
  }

  /** The empty set that is to receive eight bytes, none of which arrive, is left with a zero word. */
  method MissingBytes(big: bool) returns (b: BitSet, r: Parsed<()>)
    ensures r.Malformed? && b.words == [ZERO] && !b.Valid()
  {
    b := new BitSet();
    SameLength(b.words, []);
    r := Deserialize(b, big, [8]);
    assert ReadSize(big, [8]) == Parsed(8, []);
    assert Resized([], 1) == [ZERO];
  }
}
