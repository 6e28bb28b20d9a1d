/** The lowest level of the wire format (EPICS pvAccess Protocol Specification, "Data Encoding"):
    integers in either byte order, sizes and strings. */
module Wire {
  import opened Values

  type Bytes = seq<byte>

  /** Reading a prefix of a buffer: the value and the bytes that are left, or an error. */
  datatype Parsed<+T> = Parsed(value: T, rest: Bytes) | Malformed

  // ----- integers -----

  /** How many numbers `w` bytes can hold. */
  function Range(w: nat): (r: nat)
    ensures r >= 1
  {
    if w == 0 then 1 else 256 * Range(w - 1)
  }

  function IntBytes(n: nat, w: nat, big: bool): (s: Bytes)
    ensures |s| == w
  {
    if w == 0 then []
    else if big then IntBytes(n / 256, w - 1, big) + [(n % 256) as byte]
    else [(n % 256) as byte] + IntBytes(n / 256, w - 1, big)
  }

  function IntOf(s: Bytes, big: bool): nat {
    if s == [] then 0
    else if big then IntOf(s[..|s| - 1], big) * 256 + s[|s| - 1] as nat
    else s[0] as nat + 256 * IntOf(s[1..], big)
  }

  lemma {:induction false} IntRoundTrip(n: nat, w: nat, big: bool)
    requires n < Range(w)
    ensures IntOf(IntBytes(n, w, big), big) == n
    decreases w
  {
    if w > 0 {
      IntRoundTrip(n / 256, w - 1, big);
      var s := IntBytes(n, w, big);
      if big {
        assert s[..|s| - 1] == IntBytes(n / 256, w - 1, big);
      } else {
        assert s[1..] == IntBytes(n / 256, w - 1, big);
      }
    }
  }

  lemma {:induction false} IntOfRange(s: Bytes, big: bool)
    ensures IntOf(s, big) < Range(|s|)
    decreases |s|
  {
    if s != [] {
      if big { IntOfRange(s[..|s| - 1], big); } else { IntOfRange(s[1..], big); }
    }
  }

  function ReadInt(w: nat, big: bool, s: Bytes): (p: Parsed<nat>)
    ensures p.Parsed? ==> |p.rest| + w == |s|
  {
    if |s| < w then Malformed else Parsed(IntOf(s[..w], big), s[w..])
  }

  lemma ReadIntBytes(n: nat, w: nat, big: bool, rest: Bytes)
    requires n < Range(w)
    ensures ReadInt(w, big, IntBytes(n, w, big) + rest) == Parsed(n, rest)
  {
    IntRoundTrip(n, w, big);
    var s := IntBytes(n, w, big) + rest;
    assert s[..w] == IntBytes(n, w, big) && s[w..] == rest;
  }

  /** `n` without its lowest `i` bytes. */
  function Dropped(n: nat, i: nat): nat {
    if i == 0 then n else Dropped(n / 256, i - 1)
  }

  /** Which byte of a number stands where: the lowest one first, or last if `big`. */
  lemma {:induction false} IntBytesAt(n: nat, w: nat, big: bool, i: nat)
    requires i < w
    ensures IntBytes(n, w, big)[if big then w - 1 - i else i] as nat == Dropped(n, i) % 256
    decreases w
  {
    if i > 0 { IntBytesAt(n / 256, w - 1, big, i - 1); }
  }

  // ----- sizes -----

  /** Sizes are signed 32-bit integers on the wire. */
  const MAX_SIZE: nat := 0x8000_0000

  /** A null size. */
  const NULL_SIZE := -1

  function SizeBytes(s: int, big: bool): Bytes
    requires NULL_SIZE <= s
  {
    if s == NULL_SIZE then [255]
    else if s < 254 then [s as byte]
    else [254] + IntBytes(s, 4, big)
  }

  function ReadSize(big: bool, s: Bytes): (p: Parsed<int>)
    ensures p.Parsed? ==> |p.rest| < |s| && NULL_SIZE <= p.value < MAX_SIZE
  {
    if s == [] then Malformed
    else if s[0] == 255 then Parsed(NULL_SIZE, s[1..])
    else if s[0] == 254 then
      match ReadInt(4, big, s[1..])
      case Malformed => Malformed
      case Parsed(n, rest) => if n >= MAX_SIZE then Malformed else Parsed(n, rest)
    else Parsed(s[0] as int, s[1..])
  }

  lemma SizeRoundTrip(n: int, big: bool, rest: Bytes)
    requires NULL_SIZE <= n < MAX_SIZE
    ensures ReadSize(big, SizeBytes(n, big) + rest) == Parsed(n, rest)
  {
    var s := SizeBytes(n, big) + rest;
    if n >= 254 {
      assert Range(4) == 0x1_0000_0000;
      assert s[1..] == IntBytes(n, 4, big) + rest;
      ReadIntBytes(n, 4, big, rest);
    } else {
      assert s[1..] == rest;
    }
  }

  /** A size below 254 is its own byte; a null size is one byte too, and other sizes take five. */
  lemma SizeForm(n: int, big: bool)
    requires NULL_SIZE <= n < MAX_SIZE
    ensures |SizeBytes(n, big)| == if n < 254 then 1 else 5
    ensures 0 <= n < 254 ==> SizeBytes(n, big) == [n as byte]
    ensures n == NULL_SIZE ==> SizeBytes(n, big) == [255]
  {}

  /** No shorter bytes are read as the same size. */
  lemma SizeShortest(n: int, big: bool, s: Bytes)
    requires ReadSize(big, s) == Parsed(n, [])
    ensures |SizeBytes(n, big)| <= |s|
  {}

  /** Every size is accepted in the long form, also a small one; one that does not fit a signed integer is
      refused. */
  lemma LongSizeRead(n: nat, big: bool, rest: Bytes)
    requires n < 0x1_0000_0000
    ensures ReadSize(big, [254] + IntBytes(n, 4, big) + rest) == if n < 0x8000_0000 then Parsed(n, rest) else Malformed
  {
    hide IntBytes;
    var s := [254] + IntBytes(n, 4, big) + rest;
    assert Range(4) == 0x1_0000_0000;
    assert s[1..] == IntBytes(n, 4, big) + rest;
    ReadIntBytes(n, 4, big, rest);
  }

  // ----- strings -----

  function StringBytes(t: Bytes, big: bool): Bytes {
    SizeBytes(|t|, big) + t
  }

  /** A null string is read as the empty string. */
  function ReadString(big: bool, s: Bytes): (p: Parsed<Bytes>)
    ensures p.Parsed? ==> |p.rest| < |s|
  {
    match ReadSize(big, s)
    case Malformed => Malformed
    case Parsed(n, rest) =>
      if n == NULL_SIZE then Parsed([], rest)
      else if |rest| < n then Malformed
      else Parsed(rest[..n], rest[n..])
  }

  lemma StringRoundTrip(t: Bytes, big: bool, rest: Bytes)
    requires |t| < MAX_SIZE
    ensures ReadString(big, StringBytes(t, big) + rest) == Parsed(t, rest)
  {
    assert StringBytes(t, big) + rest == SizeBytes(|t|, big) + (t + rest);
    SizeRoundTrip(|t|, big, t + rest);
    assert (t + rest)[..|t|] == t && (t + rest)[|t|..] == rest;
  }

  /** A null string is read as the empty one, and a string that is cut off is not read. */
  lemma OddStrings(t: Bytes, n: nat, big: bool, rest: Bytes)
    requires |t| < n < MAX_SIZE
    ensures ReadString(big, [255] + rest) == Parsed([], rest)
    ensures ReadString(big, SizeBytes(n, big) + t) == Malformed
  {
    assert ([255] + rest)[1..] == rest;
    SizeRoundTrip(n, big, t);
  }

  // ----- names -----

  /** The characters of a std::string are bytes. */
  predicate Narrow(s: string) {
    forall i | 0 <= i < |s| :: s[i] as int < 256
  }

  function BytesOf(s: string): Bytes
    requires Narrow(s)
  {
    seq(|s|, i requires 0 <= i < |s| && Narrow(s) => s[i] as int as byte)
  }

  function TextOf(b: Bytes): (s: string)
    ensures Narrow(s)
  {
    seq(|b|, i requires 0 <= i < |b| => b[i] as int as char)
  }

  lemma TextOfBytes(s: string)
    requires Narrow(s)
    ensures |BytesOf(s)| == |s| && TextOf(BytesOf(s)) == s
  {}
}
