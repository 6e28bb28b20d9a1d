/** Reading from a buffer into which the data may arrive piece by piece.  What is still to be read
    is the unread part of the buffer followed by the pieces to come, and every read gives what the
    pure decoding of those bytes gives, wherever the pieces are cut. */
module Source {
  import opened Fields
  import opened Values
  import opened Names
  import opened Wire
  import opened TypeCodec
  import opened ValueCodec
  import opened ValueLaws

  function Concat(pieces: seq<Bytes>): Bytes {
    if pieces == [] then [] else pieces[0] + Concat(pieces[1..])
  }

  /** What a read reports and leaves is what decoding says. */
  ghost predicate Agrees<T>(p: Parsed<T>, ok: bool, x: T, left: Bytes) {
    match p
    case Malformed => !ok
    case Parsed(v, rest) => ok && x == v && left == rest
  }

  /** Elements read before those of `p`. */
  function Prepend<T>(xs: seq<T>, p: Parsed<seq<T>>): Parsed<seq<T>> {
    match p
    case Malformed => Malformed
    case Parsed(ys, rest) => Parsed(xs + ys, rest)
  }

  class Deserializer {
    const big: bool
    var buffer: Bytes
    var position: nat
    var incoming: seq<Bytes>

    ghost predicate Valid()
      reads this
    {
      position <= |buffer|
    }

    /** Everything that has not been read yet. */
    ghost function Left(): Bytes
      requires Valid()
      reads this
    {
      buffer[position..] + Concat(incoming)
    }

    constructor (pieces: seq<Bytes>, big: bool)
      ensures Valid() && Left() == Concat(pieces) && this.big == big
    {
      this.big := big;
      buffer, position, incoming := [], 0, pieces;
    }

    function Remaining(): nat
      requires Valid()
      reads this
    {
      |buffer| - position
    }

    /** More data is taken in until `size` bytes are in the buffer; it is an error if there are not
        that many. */
    method EnsureData(size: nat) returns (ok: bool)
      requires Valid()
      modifies this
      ensures Valid() && Left() == old(Left())
      ensures ok <==> size <= |old(Left())|
      ensures ok ==> size <= Remaining()
    {
      while Remaining() < size
        invariant Valid() && Left() == old(Left())
        decreases |incoming|
      {
        if incoming == [] {
          return false;
        }
        assert buffer[position..] + (incoming[0] + Concat(incoming[1..])) == (buffer[position..] + incoming[0]) + Concat(incoming[1..]);
        buffer, position, incoming := buffer[position..] + incoming[0], 0, incoming[1..];
      }
      return true;
    }

    /** The next `n` bytes of the buffer. */
    method Take(n: nat) returns (s: Bytes)
      requires Valid() && n <= Remaining()
      modifies this
      ensures Valid() && old(Left()) == s + Left() && |s| == n && Remaining() == old(Remaining()) - n
    {
      s := buffer[position..position + n];
      assert buffer[position..] == s + buffer[position + n..];
      position := position + n;
    }

    method GetByte() returns (b: byte)
      requires Valid() && Remaining() >= 1
      modifies this
      ensures Valid() && old(Left()) == [b] + Left()
    {
      var s := Take(1);
      return s[0];
    }

    method GetInt(w: nat) returns (ok: bool, n: nat)
      requires Valid()
      modifies this
      ensures Valid() && Agrees(ReadInt(w, big, old(Left())), ok, n, Left())
    {
      n := 0;
      ok := EnsureData(w);
      if ok {
        var s := Take(w);
        n := IntOf(s, big);
        Cut(s, Left());
      }
    }

    method GetSize() returns (ok: bool, n: int)
      requires Valid()
      modifies this
      ensures Valid() && Agrees(ReadSize(big, old(Left())), ok, n, Left())
    {
      n := 0;
      ok := EnsureData(1);
      if !ok {
        return;
      }
      var b := GetByte();
      Cut([b], Left());
      if b == 255 {
        n := NULL_SIZE;
      } else if b == 254 {
        ok, n := GetInt(4);
        ok := ok && n < MAX_SIZE;
      } else {
        n := b as int;
      }
    }

    /** A text that is not complete in the buffer is put together from what comes. */
    method DeserializeString() returns (ok: bool, text: Bytes)
      requires Valid()
      modifies this
      ensures Valid() && Agrees(ReadString(big, old(Left())), ok, text, Left())
    {
      text := [];
      var size: int;
      ok, size := GetSize();
      if !ok || size == NULL_SIZE {
        return;
      }
      if Remaining() >= size {
        text := Take(size);
        Cut(text, Left());
        return;
      }
      ghost var whole := Left();
      while true
        invariant Valid() && ok && whole == text + Left() && |text| <= size
        decreases size - |text|, Remaining() == 0
      {
        ghost var before := text;
        var toRead := if size - |text| <= Remaining() then size - |text| else Remaining();
        var s := Take(toRead);
        text := text + s;
        assert whole == before + (s + Left());
        assert whole == text + Left();
        if |text| < size {
          ok := EnsureData(1);
          if !ok {
            return;
          }
        } else {
          Cut(text, Left());
          return;
        }
      }
    }

    // ----- arrays -----

    /** As many numbers as are complete in the buffer, or one more piece of data. */
    method GetChunk(remaining: nat, w: nat) returns (ok: bool, xs: seq<nat>)
      requires Valid() && 1 <= w && remaining > 0
      modifies this
      ensures Valid() && |xs| <= remaining
      ensures ok ==> ReadNumbers(|xs|, w, big, old(Left())) == Parsed(xs, Left())
      ensures ok ==> xs != [] || Remaining() >= w > old(Remaining())
      ensures !ok ==> |old(Left())| < w
    {
      xs := [];
      var available := Remaining() / w;
      if available == 0 {
        ok := EnsureData(w);
        return;
      }
      Whole(available, w, Remaining());
      var n := if remaining <= available then remaining else available;
      ok, xs := GetNumbers(n, w);
    }

    method GetNumbers(n: nat, w: nat) returns (ok: bool, xs: seq<nat>)
      requires Valid() && w >= 1 && n * w <= Remaining()
      modifies this
      ensures Valid() && ok && |xs| == n && ReadNumbers(n, w, big, old(Left())) == Parsed(xs, Left())
    {
      hide ReadNumbers, IntOf, Left, Concat;
      xs := [];
      ok := true;
      ghost var whole := Left();
      NothingBefore(ReadNumbers(n, w, big, whole));
      for i := 0 to n
        invariant Valid() && |xs| == i && (n - i) * w <= Remaining()
        invariant ReadNumbers(n, w, big, whole) == Prepend(xs, ReadNumbers(n - i, w, big, Left()))
      {
        OneMore(n - i, w);
        ghost var before, now := xs, Left();
        var s := Take(w);
        xs := xs + [IntOf(s, big)];
        Cut(s, Left());
        NumbersStep(n - i, w, big, now);
        Prepended(before, IntOf(s, big), ReadNumbers(n - i - 1, w, big, Left()));
      }
      NumbersEnd(w, big, Left());
      assert xs + [] == xs;
    }

    method DeserializeNumbers(size: nat, w: nat) returns (ok: bool, xs: seq<nat>)
      requires Valid() && w >= 1
      modifies this
      ensures Valid() && Agrees(ReadNumbers(size, w, big, old(Left())), ok, xs, Left())
    {
      hide ReadNumbers;
      xs, ok := [], true;
      ghost var whole := Left();
      var remaining := size;
      NothingBefore(ReadNumbers(size, w, big, whole));
      while remaining > 0
        invariant Valid() && ok && 0 <= remaining && |xs| + remaining == size
        invariant ReadNumbers(size, w, big, whole) == Prepend(xs, ReadNumbers(remaining, w, big, Left()))
        decreases remaining, Remaining() < w
      {
        ghost var before, now := xs, Left();
        var more: seq<nat>;
        ok, more := GetChunk(remaining, w);
        if !ok {
          TooFew(remaining, w, big, now);
          return;
        }
        NumbersSplit(|more|, remaining - |more|, w, big, now);
        xs := xs + more;
        remaining := remaining - |more|;
        PrependedAll(before, more, ReadNumbers(remaining, w, big, Left()));
      }
      NumbersEnd(w, big, Left());
      assert xs + [] == xs;
    }

    method DeserializeTexts(size: nat) returns (ok: bool, xs: seq<Bytes>)
      requires Valid()
      modifies this
      ensures Valid() && Agrees(ReadTexts(size, big, old(Left())), ok, xs, Left())
    {
      hide ReadString;
      xs, ok := [], true;
      ghost var whole := Left();
      NothingBefore(ReadTexts(size, big, whole));
      for i := 0 to size
        invariant Valid() && ok && ReadTexts(size, big, whole) == Prepend(xs, ReadTexts(size - i, big, Left()))
      {
        ghost var before := xs;
        var text: Bytes;
        ok, text := DeserializeString();
        if !ok {
          return;
        }
        xs := xs + [text];
        Prepended(before, text, ReadTexts(size - i - 1, big, Left()));
      }
      assert xs + [] == xs;
    }

    method DeserializeElements(t: ScalarType, size: nat) returns (ok: bool, v: Value)
      requires Valid()
      modifies this
      ensures Valid() && Agrees(ReadElements(t, size, big, old(Left())), ok, v, Left())
    {
      v := Nothing;
      if t == PvString {
        var xs: seq<Bytes>;
        ok, xs := DeserializeTexts(size);
        if ok { v := Texts(xs); }
      } else {
        var xs: seq<nat>;
        ok, xs := DeserializeNumbers(size, Width(t));
        if ok { v := Numbers(xs); }
      }
    }

    method DeserializeSized(t: ScalarType) returns (ok: bool, v: Value)
      requires Valid()
      modifies this
      ensures Valid() && Agrees(ReadSizedElements(t, big, old(Left())), ok, v, Left())
    {
      v := Nothing;
      var size: int;
      ok, size := GetSize();
      if !ok || size == NULL_SIZE {
        ok := false;
        return;
      }
      ok, v := DeserializeElements(t, size);
    }

    method DeserializeScalar(t: ScalarType) returns (ok: bool, v: Value)
      requires Valid()
      modifies this
      ensures Valid() && Agrees(ReadScalar(t, big, old(Left())), ok, v, Left())
    {
      v := Nothing;
      if t == PvString {
        var text: Bytes;
        ok, text := DeserializeString();
        if ok { v := Text(text); }
      } else {
        var n: nat;
        ok, n := GetInt(Width(t));
        if ok { v := Number(n); }
      }
    }

    // ----- types -----

    /** The type, if there is one. */
    method DeserializeType() returns (ok: bool, f: Option<Field>)
      requires Valid()
      modifies this
      ensures Valid() && Agrees(ReadType(big, old(Left())), ok, f, Left())
      decreases |Left()|, 1
    {
      hide ReadNonArray, ReadArray, ReadSize, DecodeScalar;
      f := None;
      ok := EnsureData(1);
      if !ok {
        return;
      }
      var b := GetByte();
      Cut([b], Left());
      if b == 0xFF {
        return;
      }
      var code := b as nat;
      var kind := code / 8 % 4;
      var typeCode := code - kind * 8;
      if kind == 0 {
        ok, f := DeserializeNonArray(code);
      } else if kind == 1 {
        ok, f := DeserializeArray(code, typeCode);
      } else {
        var size: int;
        ok, size := GetSize();
        if !ok {
          return;
        }
        if typeCode >= 0x80 {
          ok := false;
          return;
        }
        match DecodeScalar(code)
        case None => ok := false;
        case Some(t) =>
          f := Some(if kind == 3 then FixedScalarArray(t, UnsignedSize(size)) else BoundedScalarArray(t, UnsignedSize(size)));
      }
    }

    method DeserializeNonArray(code: nat) returns (ok: bool, f: Option<Field>)
      requires Valid()
      modifies this
      ensures Valid() && Agrees(ReadNonArray(big, code, old(Left())), ok, f, Left())
      decreases |Left()|, 3
    {
      hide ReadBody, ReadSize, DecodeScalar;
      f, ok := None, true;
      if code < 0x80 {
        match DecodeScalar(code)
        case None => ok := false;
        case Some(t) => f := Some(Scalar(t));
      } else if code == 0x80 {
        var id: string, ms: seq<Member>;
        ok, id, ms := DeserializeBody();
        if ok { f := Some(Structure(if id == "" then DEFAULT_STRUCTURE_ID else id, ms)); }
      } else if code == 0x81 {
        var id: string, ms: seq<Member>;
        ok, id, ms := DeserializeBody();
        ok := ok && !(ms == [] && id != ANY_ID);
        if ok { f := Some(Union(if id == "" then DEFAULT_UNION_ID else id, ms)); }
      } else if code == 0x82 {
        f := Some(Union(ANY_ID, []));
      } else if code == 0x83 {
        var size: int;
        ok, size := GetSize();
        ok := ok && size != 0;
        if ok { f := Some(BoundedString(UnsignedSize(size))); }
      } else {
        ok := false;
      }
    }

    method DeserializeArray(code: nat, typeCode: nat) returns (ok: bool, f: Option<Field>)
      requires Valid()
      modifies this
      ensures Valid() && Agrees(ReadArray(big, code, typeCode, old(Left())), ok, f, Left())
      decreases |Left()|, 3
    {
      hide ReadType, DecodeScalar;
      f, ok := None, true;
      if typeCode < 0x80 {
        match DecodeScalar(code)
        case None => ok := false;
        case Some(t) => f := Some(ScalarArray(t));
      } else if typeCode == 0x80 {
        var e: Option<Field>;
        ok, e := DeserializeType();
        ok := ok && e.Some? && e.value.Structure?;
        if ok { f := Some(StructureArray(e.value)); }
      } else if typeCode == 0x81 {
        var e: Option<Field>;
        ok, e := DeserializeType();
        ok := ok && e.Some? && e.value.Union?;
        if ok { f := Some(UnionArray(e.value)); }
      } else if typeCode == 0x82 {
        f := Some(UnionArray(Union(ANY_ID, [])));
      } else {
        ok := false;
      }
    }

    method DeserializeBody() returns (ok: bool, id: string, ms: seq<Member>)
      requires Valid()
      modifies this
      ensures Valid() && Agrees(ReadBody(big, old(Left())), ok, (id, ms), Left())
      decreases |Left()|, 2
    {
      hide ReadString, ReadSize, ReadMembers, TextOf, AcceptedNames;
      id, ms := "", [];
      var text: Bytes;
      ok, text := DeserializeString();
      if !ok {
        return;
      }
      id := TextOf(text);
      var size: int;
      ok, size := GetSize();
      if !ok || size == NULL_SIZE {
        ok := false;
        return;
      }
      ok, ms := DeserializeMembers(size);
      ok := ok && AcceptedNames(ms);
    }

    method DeserializeMembers(size: nat) returns (ok: bool, ms: seq<Member>)
      requires Valid()
      modifies this
      ensures Valid() && Agrees(ReadMembers(size, big, old(Left())), ok, ms, Left())
      decreases |Left()|, 0
    {
      hide ReadString, ReadType, TextOf;
      ms, ok := [], true;
      ghost var whole := Left();
      NothingBefore(ReadMembers(size, big, whole));
      for i := 0 to size
        invariant Valid() && ok && |Left()| <= |whole|
        invariant ReadMembers(size, big, whole) == Prepend(ms, ReadMembers(size - i, big, Left()))
      {
        ghost var before := ms;
        var name: Bytes, f: Option<Field>;
        ok, name := DeserializeString();
        if !ok {
          return;
        }
        ok, f := DeserializeType();
        if !ok || f.None? {
          ok := false;
          return;
        }
        ms := ms + [Member(TextOf(name), f.value)];
        Prepended(before, Member(TextOf(name), f.value), ReadMembers(size - i - 1, big, Left()));
      }
      assert ms + [] == ms;
    }

    // ----- values -----

    /** Reading into a field that holds `held`. */
    method DeserializeValue(f: Field, held: Value) returns (ok: bool, v: Value)
      requires Valid()
      modifies this
      ensures Valid() && Agrees(ReadValue(f, held, big, old(Left())), ok, v, Left())
      decreases |Left()|, f, 1
    {
      hide ReadScalar, ReadElements, ReadSizedElements, ReadFields, ReadItemsOf, ReadVariant, ReadSelected;
      v := Nothing;
      match f
      case Scalar(t) => ok, v := DeserializeScalar(t);
      case BoundedString(_) => ok, v := DeserializeScalar(PvString);
      case ScalarArray(t) => ok, v := DeserializeSized(t);
      case BoundedScalarArray(t, _) => ok, v := DeserializeSized(t);
      case FixedScalarArray(t, n) => ok, v := DeserializeElements(t, n);
      case Structure(_, ms) =>
        var vs: seq<Value>;
        ok, vs := DeserializeFields(ms, held);
        if ok { v := Struct(vs); }
      case StructureArray(e) =>
        var items: seq<Option<Value>>;
        ok, items := DeserializeItems(e, held);
        if ok { v := Structs(items); }
      case Union(_, ms) =>
        if ms == [] {
          ok, v := DeserializeVariant(ms, held);
        } else {
          ok, v := DeserializeSelected(ms, held);
        }
      case UnionArray(e) =>
        var items: seq<Option<Value>>;
        ok, items := DeserializeItems(e, held);
        if ok { v := Unions(items); }
    }

    method DeserializeVariant(ms: seq<Member>, held: Value) returns (ok: bool, v: Value)
      requires Valid()
      modifies this
      ensures Valid() && Agrees(ReadVariant(ms, held, big, old(Left())), ok, v, Left())
      decreases |Left()|, ms, 0
    {
      hide ReadType, ReadValue, OldVariant;
      v := Nothing;
      var f: Option<Field>;
      ok, f := DeserializeType();
      if !ok || f.None? {
        return;
      }
      var value: Value;
      ok, value := DeserializeValue(f.value, OldVariant(held, f.value));
      if ok { v := Variant(f.value, value); }
    }

    method DeserializeSelected(ms: seq<Member>, held: Value) returns (ok: bool, v: Value)
      requires Valid() && ms != []
      modifies this
      ensures Valid() && Agrees(ReadSelected(ms, held, big, old(Left())), ok, v, Left())
      decreases |Left()|, ms, 0
    {
      hide ReadSize, ReadValue, OldSelection;
      v := Nothing;
      var n: int;
      ok, n := GetSize();
      if !ok || n == NULL_SIZE {
        return;
      }
      if n >= |ms| {
        ok := false;
        return;
      }
      var value: Value;
      ok, value := DeserializeValue(ms[n].field, OldSelection(held, ms, n));
      if ok { v := Selected(n, value); }
    }

    method DeserializeFields(ms: seq<Member>, held: Value) returns (ok: bool, vs: seq<Value>)
      requires Valid()
      modifies this
      ensures Valid() && Agrees(ReadFields(ms, held, 0, big, old(Left())), ok, vs, Left())
      decreases |Left()|, ms, 0
    {
      hide ReadValue, OldField;
      vs, ok := [], true;
      ghost var whole := Left();
      NothingBefore(ReadFields(ms, held, 0, big, whole));
      for i := 0 to |ms|
        invariant Valid() && ok && |Left()| <= |whole|
        invariant ReadFields(ms, held, 0, big, whole) == Prepend(vs, ReadFields(ms[i..], held, i, big, Left()))
      {
        assert ms[i..][0] == ms[i] && ms[i..][1..] == ms[i + 1..];
        ghost var before := vs;
        var v: Value;
        ok, v := DeserializeValue(ms[i].field, OldField(held, i, ms[i].field));
        if !ok {
          return;
        }
        vs := vs + [v];
        Prepended(before, v, ReadFields(ms[i + 1..], held, i + 1, big, Left()));
      }
      assert vs + [] == vs;
    }

    /** The elements of an array: a byte tells whether there is one. */
    method DeserializeItems(e: Field, held: Value) returns (ok: bool, items: seq<Option<Value>>)
      requires Valid()
      modifies this
      ensures Valid() && Agrees(ReadItemsOf(e, held, big, old(Left())), ok, items, Left())
      decreases |Left()|, e, 4
    {
      hide ReadSize, ReadItem;
      items := [];
      var size: int;
      ok, size := GetSize();
      if !ok || size == NULL_SIZE {
        ok := false;
        return;
      }
      ok, items := DeserializeEach(size, e, held);
    }

    method DeserializeEach(size: nat, e: Field, held: Value) returns (ok: bool, items: seq<Option<Value>>)
      requires Valid()
      modifies this
      ensures Valid() && Agrees(ReadItems(size, e, held, 0, big, old(Left())), ok, items, Left())
      decreases |Left()|, e, 3
    {
      hide ReadItem, ReadItems, Left, Concat;
      items, ok := [], true;
      ghost var whole := Left();
      NothingBefore(ReadItems(size, e, held, 0, big, whole));
      for i := 0 to size
        invariant Valid() && ok && |Left()| <= |whole|
        invariant ReadItems(size, e, held, 0, big, whole) == Prepend(items, ReadItems(size - i, e, held, i, big, Left()))
      {
        ghost var before := items;
        ItemsStep(size - i, e, held, i, big, Left());
        var item: Option<Value>;
        ok, item := DeserializeItem(e, held, i);
        if !ok {
          return;
        }
        items := items + [item];
        Prepended(before, item, ReadItems(size - i - 1, e, held, i + 1, big, Left()));
      }
      ItemsEnd(e, held, size, big, Left());
      assert items + [] == items;
    }

    method DeserializeItem(e: Field, held: Value, i: nat) returns (ok: bool, item: Option<Value>)
      requires Valid()
      modifies this
      ensures Valid() && Agrees(ReadItem(e, held, i, big, old(Left())), ok, item, Left())
      decreases |Left()|, e, 2
    {
      hide ReadValue, OldItem;
      item := None;
      ok := EnsureData(1);
      if !ok {
        return;
      }
      var b := GetByte();
      Cut([b], Left());
      if b == 0 {
        return;
      }
      var v: Value;
      ok, v := DeserializeValue(e, OldItem(held, i, e));
      if ok { item := Some(v); }
    }
  }

  /** A value that was written comes back however the bytes are cut into pieces, whatever the
      field held before. */
  method ReceiveValue(f: Field, held: Value, v: Value, pieces: seq<Bytes>, rest: Bytes, big: bool) returns (ok: bool, received: Value)
    requires HasType(f, v) && Concat(pieces) == ValueBytes(f, v, big) + rest
    ensures ok && received == v
  {
    var d := new Deserializer(pieces, big);
    ok, received := d.DeserializeValue(f, held);
    ValueRoundTrip(f, v, held, big, rest);
  }

  lemma Cut(a: Bytes, b: Bytes)
    ensures (a + b)[..|a|] == a && (a + b)[|a|..] == b
  {}

  lemma Whole(q: nat, w: nat, room: nat)
    requires w >= 1 && q == room / w
    ensures q * w <= room && forall n: nat | n <= q :: n * w <= room
  {
    assert q * w <= room;
    forall n: nat | n <= q
      ensures n * w <= room
    {
      assert n * w <= q * w;
    }
  }

  lemma OneMore(k: nat, w: nat)
    requires k > 0
    ensures k * w == (k - 1) * w + w && (k - 1) * w >= 0
  {}

  lemma Prepended<T>(xs: seq<T>, x: T, p: Parsed<seq<T>>)
    ensures Prepend(xs, Prepend([x], p)) == Prepend(xs + [x], p)
  {
    if p.Parsed? { assert xs + ([x] + p.value) == (xs + [x]) + p.value; }
  }

  lemma PrependedAll<T>(xs: seq<T>, ys: seq<T>, p: Parsed<seq<T>>)
    ensures Prepend(xs, Prepend(ys, p)) == Prepend(xs + ys, p)
  {
    if p.Parsed? { assert xs + (ys + p.value) == (xs + ys) + p.value; }
  }

  lemma NumbersEnd(w: nat, big: bool, s: Bytes)
    ensures ReadNumbers(0, w, big, s) == Parsed([], s)
  {}

  lemma NothingBefore<T>(p: Parsed<seq<T>>)
    ensures Prepend([], p) == p
  {
    if p.Parsed? { assert [] + p.value == p.value; }
  }

  lemma NumbersStep(n: nat, w: nat, big: bool, s: Bytes)
    requires n > 0 && |s| >= w
    ensures ReadNumbers(n, w, big, s) == Prepend([IntOf(s[..w], big)], ReadNumbers(n - 1, w, big, s[w..]))
  {}

  lemma ItemsEnd(e: Field, held: Value, i: nat, big: bool, s: Bytes)
    ensures ReadItems(0, e, held, i, big, s) == Parsed([], s)
  {}

  lemma ItemsStep(n: nat, e: Field, held: Value, i: nat, big: bool, s: Bytes)
    requires n > 0
    ensures ReadItems(n, e, held, i, big, s) ==
      (match ReadItem(e, held, i, big, s)
       case Malformed => Malformed
       case Parsed(item, rest) => Prepend([item], ReadItems(n - 1, e, held, i + 1, big, rest)))
  {}

  lemma TooFew(n: nat, w: nat, big: bool, s: Bytes)
    requires n > 0 && |s| < w
    ensures ReadNumbers(n, w, big, s) == Malformed
  {}

  /** Reading `a + b` numbers is reading `a` of them and then `b`. */
  lemma {:induction false} NumbersSplit(a: nat, b: nat, w: nat, big: bool, s: Bytes)
    ensures ReadNumbers(a + b, w, big, s) ==
      (match ReadNumbers(a, w, big, s)
       case Malformed => Malformed
       case Parsed(xs, rest) => Prepend(xs, ReadNumbers(b, w, big, rest)))
    decreases a
  {
    if a == 0 {
      NothingBefore(ReadNumbers(b, w, big, s));
    } else if |s| >= w {
      NumbersSplit(a - 1, b, w, big, s[w..]);
      var x := IntOf(s[..w], big);
      var p := ReadNumbers(a - 1, w, big, s[w..]);
      if p.Parsed? { PrependedAll([x], p.value, ReadNumbers(b, w, big, p.rest)); }
    }
  }
}
