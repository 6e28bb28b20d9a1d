/** Writing through a bounded buffer.  The buffer is flushed into the output whenever room is
    needed; what has been written so far is the output followed by the pending bytes, and that is
    the pure encoding whatever the capacity. */
module Sink {
  import opened Fields
  import opened Values
  import opened Wire
  import opened TypeCodec
  import opened ValueCodec

  class Serializer {
    const buffer: array<byte>
    const big: bool
    var position: nat
    var out: Bytes

    ghost predicate Valid()
      reads this
    {
      position <= buffer.Length && buffer.Length >= 9
    }

    /** Everything written so far. */
    ghost function Emitted(): Bytes
      requires Valid()
      reads this, buffer
    {
      out + buffer[..position]
    }

    constructor (capacity: nat, big: bool)
      requires capacity >= 9
      ensures Valid() && Emitted() == [] && buffer.Length == capacity && this.big == big && fresh(buffer)
    {
      buffer := new byte[capacity];
      this.big := big;
      position := 0;
      out := [];
    }

    method FlushSerializeBuffer()
      requires Valid()
      modifies this
      ensures Valid() && Emitted() == old(Emitted()) && position == 0
    {
      out := out + buffer[..position];
      position := 0;
    }

    /** Room is made by flushing, always. */
    method EnsureBuffer(size: nat)
      requires Valid() && size <= buffer.Length
      modifies this
      ensures Valid() && Emitted() == old(Emitted()) && position == 0
    {
      FlushSerializeBuffer();
    }

    method PutByte(b: byte)
      requires Valid() && position < buffer.Length
      modifies this, buffer
      ensures Valid() && Emitted() == old(Emitted()) + [b] && position == old(position) + 1
    {
      buffer[position] := b;
      position := position + 1;
      assert buffer[..position] == old(buffer[..position]) + [b];
    }

    method PutBytes(s: Bytes)
      requires Valid() && position + |s| <= buffer.Length
      modifies this, buffer
      ensures Valid() && Emitted() == old(Emitted()) + s && position == old(position) + |s|
    {
      for i := 0 to |s|
        invariant Valid() && position == old(position) + i && Emitted() == old(Emitted()) + s[..i]
      {
        PutByte(s[i]);
        assert s[..i + 1] == s[..i] + [s[i]];
      }
      assert s[..|s|] == s;
    }

    method WriteSize(s: int)
      requires Valid() && NULL_SIZE <= s < MAX_SIZE
      modifies this, buffer
      ensures Valid() && Emitted() == old(Emitted()) + SizeBytes(s, big)
      ensures |Emitted()| == |old(Emitted())| + if s < 254 then 1 else 5
      ensures 0 <= s < 254 ==> Emitted() == old(Emitted()) + [s as byte]
    {
      hide Emitted, IntBytes;
      SizeForm(s, big);
      ghost var before := Emitted();
      EnsureBuffer(9);
      if s == NULL_SIZE {
        PutByte(255);
      } else if s < 254 {
        PutByte(s as byte);
      } else {
        PutByte(254);
        PutBytes(IntBytes(s, 4, big));
        Joined(before, [254], IntBytes(s, 4, big));
      }
    }

    /** The text is put in pieces that fit; each flush empties the buffer. */
    method SerializeString(value: Bytes)
      requires Valid() && |value| < MAX_SIZE
      modifies this, buffer
      ensures Valid() && Emitted() == old(Emitted()) + StringBytes(value, big)
    {
      hide SizeBytes;
      var len := |value|;
      Joined(Emitted(), SizeBytes(len, big), value);
      WriteSize(len);
      if len <= 0 {
        return;
      }
      ghost var before := Emitted();
      var i := 0;
      while true
        invariant Valid() && 0 <= i <= len && Emitted() == before + value[..i]
        decreases len - i, buffer.Length - position == 0
      {
        var maxToWrite := if len - i <= buffer.Length - position then len - i else buffer.Length - position;
        assert value[..i + maxToWrite] == value[..i] + value[i..i + maxToWrite];
        PutBytes(value[i..i + maxToWrite]);
        i := i + maxToWrite;
        if i < len {
          FlushSerializeBuffer();
        } else {
          assert value[..i] == value;
          return;
        }
      }
    }

    /** Numbers are put as many at a time as fit. */
    method SerializeNumbers(xs: seq<nat>, w: nat)
      requires Valid() && 1 <= w <= 8
      modifies this, buffer
      ensures Valid() && Emitted() == old(Emitted()) + NumbersBytes(xs, w, big)
    {
      hide NumbersBytes;
      NumbersNone(w, big);
      ghost var before := Emitted();
      ghost var done: nat := 0;
      var rest := xs;
      while rest != []
        invariant Valid() && done <= |xs| && rest == xs[done..]
        invariant Emitted() == before + NumbersBytes(xs[..done], w, big)
        decreases |rest|, position
      {
        var n := PutChunk(rest, w);
        NumbersChunk(xs, done, n, w, big);
        done := done + n;
        rest := rest[n..];
      }
      assert xs[..done] == xs;
    }

    /** One round of the loop: some numbers are put, or the buffer is flushed. */
    method PutChunk(rest: seq<nat>, w: nat) returns (n: nat)
      requires Valid() && 1 <= w <= 8 && rest != []
      modifies this, buffer
      ensures Valid() && n <= |rest| && Emitted() == old(Emitted()) + NumbersBytes(rest[..n], w, big)
      ensures n == 0 ==> position < old(position)
    {
      hide NumbersBytes, Quotient;
      var spaceFor := Quotient(buffer.Length - position, w);
      SpaceFor(buffer.Length - position, w);
      if spaceFor == 0 {
        NumbersNone(w, big);
        FlushSerializeBuffer();
        return 0;
      }
      n := if |rest| <= spaceFor then |rest| else spaceFor;
      Fits(n, spaceFor, w);
      PutNumbers(rest[..n], w);
    }

    method PutNumbers(xs: seq<nat>, w: nat)
      requires Valid() && |xs| * w <= buffer.Length - position
      modifies this, buffer
      ensures Valid() && Emitted() == old(Emitted()) + NumbersBytes(xs, w, big)
    {
      hide NumbersBytes;
      NumbersNone(w, big);
      for i := 0 to |xs|
        invariant Valid() && (|xs| - i) * w <= buffer.Length - position
        invariant Emitted() == old(Emitted()) + NumbersBytes(xs[..i], w, big)
      {
        OneLess(|xs| - i, w);
        PutBytes(IntBytes(xs[i], w, big));
        NumbersChunk(xs, i, 1, w, big);
        NumbersOne(xs[i], w, big);
        assert xs[i..][..1] == [xs[i]];
      }
      assert xs[..|xs|] == xs;
    }

    method SerializeTexts(xs: seq<Bytes>)
      requires Valid() && forall i | 0 <= i < |xs| :: |xs[i]| < MAX_SIZE
      modifies this, buffer
      ensures Valid() && Emitted() == old(Emitted()) + TextsBytes(xs, big)
    {
      hide StringBytes, Emitted;
      ghost var before := Emitted();
      for i := 0 to |xs|
        invariant Valid() && Emitted() + TextsBytes(xs[i..], big) == before + TextsBytes(xs, big)
      {
        assert xs[i..][0] == xs[i] && xs[i..][1..] == xs[i + 1..];
        ghost var now := Emitted();
        SerializeString(xs[i]);
        Joined(now, StringBytes(xs[i], big), TextsBytes(xs[i + 1..], big));
      }
    }

    // ----- types -----

    method SerializeType(f: Field)
      requires Valid() && Creatable(f)
      modifies this, buffer
      ensures Valid() && Emitted() == old(Emitted()) + TypeBytes(f, big)
      decreases f, 1
    {
      hide SizeBytes, BodyBytes, ScalarCode, Emitted;
      ghost var before := Emitted();
      EnsureBuffer(1);
      match f
      case Scalar(t) => PutByte(ScalarCode(t) as byte);
      case BoundedString(n) =>
        PutCodeAndSize(0x83, n);
      case ScalarArray(t) => PutByte((0x08 + ScalarCode(t)) as byte);
      case BoundedScalarArray(t, n) =>
        PutCodeAndSize((0x10 + ScalarCode(t)) as byte, n);
      case FixedScalarArray(t, n) =>
        PutCodeAndSize((0x18 + ScalarCode(t)) as byte, n);
      case Structure(id, ms) =>
        PutByte(0x80);
        var wireId := if id == DEFAULT_STRUCTURE_ID then "" else id;
        SerializeBody(wireId, ms);
        Joined(before, [0x80], BodyBytes(wireId, ms, big));
      case StructureArray(e) =>
        PutByte(0x88);
        SerializeType(e);
        Joined(before, [0x88], TypeBytes(e, big));
      case Union(id, ms) =>
        if ms == [] {
          PutByte(0x82);
        } else {
          PutByte(0x81);
          var wireId := if id == DEFAULT_UNION_ID then "" else id;
          SerializeBody(wireId, ms);
          Joined(before, [0x81], BodyBytes(wireId, ms, big));
        }
      case UnionArray(e) =>
        if e.members == [] {
          PutByte(0x8A);
        } else {
          PutByte(0x89);
          SerializeType(e);
          Joined(before, [0x89], TypeBytes(e, big));
        }
    }

    method PutCodeAndSize(code: byte, n: nat)
      requires Valid() && position < buffer.Length && n < MAX_SIZE
      modifies this, buffer
      ensures Valid() && Emitted() == old(Emitted()) + ([code] + SizeBytes(n, big))
    {
      hide SizeBytes, Emitted;
      ghost var before := Emitted();
      PutByte(code);
      WriteSize(n);
      Joined(before, [code], SizeBytes(n, big));
    }

    /** The identifier, the number of subfields, and every subfield with its name. */
    method SerializeBody(id: string, ms: seq<Member>)
      requires Valid() && Narrow(id) && |id| < MAX_SIZE && |ms| < MAX_SIZE && CreatableMembers(ms)
      modifies this, buffer
      ensures Valid() && Emitted() == old(Emitted()) + BodyBytes(id, ms, big)
      decreases ms, 1
    {
      hide SizeBytes, StringBytes, BytesOf, MembersBytes;
      TextOfBytes(id);
      SerializeString(BytesOf(id));
      WriteSize(|ms|);
      SerializeMembers(ms);
    }

    method SerializeMembers(ms: seq<Member>)
      requires Valid() && CreatableMembers(ms)
      modifies this, buffer
      ensures Valid() && Emitted() == old(Emitted()) + MembersBytes(ms, big)
      decreases ms, 0
    {
      hide TypeBytes, StringBytes, BytesOf, Emitted;
      ghost var before := Emitted();
      for i := 0 to |ms|
        invariant Valid() && CreatableMembers(ms[i..])
        invariant Emitted() + MembersBytes(ms[i..], big) == before + MembersBytes(ms, big)
      {
        assert ms[i..][0] == ms[i] && ms[i..][1..] == ms[i + 1..];
        ValidNameIsNarrow(ms[i].name);
        TextOfBytes(ms[i].name);
        ghost var now, name := Emitted(), StringBytes(BytesOf(ms[i].name), big);
        SerializeString(BytesOf(ms[i].name));
        SerializeType(ms[i].field);
        Joined(now, name, TypeBytes(ms[i].field, big));
        Joined(now, name + TypeBytes(ms[i].field, big), MembersBytes(ms[i + 1..], big));
      }
    }

    // ----- values -----

    method SerializeScalar(t: ScalarType, v: Value)
      requires Valid() && HasScalar(t, v)
      modifies this, buffer
      ensures Valid() && Emitted() == old(Emitted()) + ScalarBytes(t, v, big)
    {
      if t == PvString {
        SerializeString(v.text);
      } else {
        EnsureBuffer(Width(t));
        PutBytes(IntBytes(v.bits, Width(t), big));
      }
    }

    /** The size of an array is written unless it is fixed. */
    method SerializeArray(t: ScalarType, v: Value, sized: bool)
      requires Valid() && HasArray(t, v)
      modifies this, buffer
      ensures Valid()
      ensures Emitted() == old(Emitted()) + (if sized then SizeBytes(ArrayLength(v), big) else []) + ElementsBytes(t, v, big)
    {
      hide SizeBytes, Emitted, TextsBytes, NumbersBytes;
      ghost var before := Emitted();
      if sized {
        WriteSize(ArrayLength(v));
      } else {
        assert before + [] == before;
      }
      if t == PvString {
        SerializeTexts(v.texts);
      } else {
        SerializeNumbers(v.elements, Width(t));
      }
    }

    method SerializeValue(f: Field, v: Value)
      requires Valid() && HasType(f, v)
      modifies this, buffer
      ensures Valid() && Emitted() == old(Emitted()) + ValueBytes(f, v, big)
      decreases v, 1
    {
      hide SizeBytes, ScalarBytes, ElementsBytes, TypeBytes, FieldsBytes, ItemsBytes;
      match f
      case Scalar(t) => SerializeScalar(t, v);
      case BoundedString(_) => SerializeScalar(PvString, v);
      case ScalarArray(t) => SerializeArray(t, v, true);
      case BoundedScalarArray(t, _) => SerializeArray(t, v, true);
      case FixedScalarArray(t, _) => SerializeArray(t, v, false);
      case Structure(_, ms) => SerializeFields(ms, v.fields);
      case StructureArray(e) =>
        WriteSize(|v.items|);
        SerializeItems(e, v.items);
      case Union(_, ms) => SerializeUnion(f, v);
      case UnionArray(e) =>
        WriteSize(|v.items|);
        SerializeItems(e, v.items);
    }

    /** A variant union is written with the type of its value, another one with the number of the
        selected member. */
    method SerializeUnion(f: Field, v: Value)
      requires Valid() && f.Union? && HasType(f, v)
      modifies this, buffer
      ensures Valid() && Emitted() == old(Emitted()) + ValueBytes(f, v, big)
      decreases v, 0
    {
      hide SizeBytes, TypeBytes, Emitted;
      ghost var before := Emitted();
      if f.members == [] {
        if v == Nothing {
          EnsureBuffer(1);
          PutByte(0xFF);
        } else {
          SerializeType(v.dynamicType);
          SerializeValue(v.dynamicType, v.value);
          Joined(before, TypeBytes(v.dynamicType, big), ValueBytes(v.dynamicType, v.value, big));
        }
      } else {
        WriteSize(if v == Nothing then NULL_SIZE else v.selector);
        if v != Nothing {
          SerializeValue(f.members[v.selector].field, v.value);
          Joined(before, SizeBytes(v.selector, big), ValueBytes(f.members[v.selector].field, v.value, big));
        }
      }
    }

    method SerializeFields(ms: seq<Member>, vs: seq<Value>)
      requires Valid() && |vs| == |ms| && forall i | 0 <= i < |ms| :: HasType(ms[i].field, vs[i])
      modifies this, buffer
      ensures Valid() && Emitted() == old(Emitted()) + FieldsBytes(ms, vs, big)
      decreases vs, 0
    {
      hide ValueBytes, HasType;
      for i := 0 to |vs|
        invariant Valid() && Emitted() + FieldsBytes(ms[i..], vs[i..], big) == old(Emitted()) + FieldsBytes(ms, vs, big)
      {
        assert vs[i..][0] == vs[i] && vs[i..][1..] == vs[i + 1..];
        assert ms[i..][0] == ms[i] && ms[i..][1..] == ms[i + 1..];
        SerializeValue(ms[i].field, vs[i]);
      }
    }

    /** Every element is preceded by a byte that tells whether there is one. */
    method SerializeItems(e: Field, items: seq<Option<Value>>)
      requires Valid() && forall i | 0 <= i < |items| && items[i].Some? :: HasType(e, items[i].value)
      modifies this, buffer
      ensures Valid() && Emitted() == old(Emitted()) + ItemsBytes(e, items, big)
      decreases items, 0
    {
      hide ItemBytes, HasType, Emitted;
      ghost var before := Emitted();
      for i := 0 to |items|
        invariant Valid() && Emitted() + ItemsBytes(e, items[i..], big) == before + ItemsBytes(e, items, big)
      {
        assert items[i..][0] == items[i] && items[i..][1..] == items[i + 1..];
        ghost var now := Emitted();
        SerializeItem(e, items[i]);
        Joined(now, ItemBytes(e, items[i], big), ItemsBytes(e, items[i + 1..], big));
      }
    }

    method SerializeItem(e: Field, item: Option<Value>)
      requires Valid() && (item.Some? ==> HasType(e, item.value))
      modifies this, buffer
      ensures Valid() && Emitted() == old(Emitted()) + ItemBytes(e, item, big)
      decreases item, 2
    {
      hide ValueBytes, HasType;
      if buffer.Length - position < 1 {
        FlushSerializeBuffer();
      }
      match item
      case None => PutByte(0);
      case Some(v) =>
        PutByte(1);
        SerializeValue(e, v);
    }
  }

  /** serializeToVector: the output is the encoding, and nothing is left in the buffer. */
  method SerializeToVector(f: Field, v: Value, capacity: nat, big: bool) returns (out: Bytes)
    requires capacity >= 9 && HasType(f, v)
    ensures out == ValueBytes(f, v, big)
  {
    var s := new Serializer(capacity, big);
    s.SerializeValue(f, v);
    s.FlushSerializeBuffer();
    assert s.Emitted() == s.out;
    return s.out;
  }

  lemma Joined(a: Bytes, b: Bytes, c: Bytes)
    ensures a + b + c == a + (b + c)
  {}

  function Quotient(room: nat, w: nat): nat
    requires w >= 1
  {
    room / w
  }

  lemma SpaceFor(room: nat, w: nat)
    requires 1 <= w <= 8
    ensures room >= 9 ==> Quotient(room, w) > 0
    ensures Quotient(room, w) * w <= room
  {}

  lemma Fits(n: nat, q: nat, w: nat)
    requires n <= q
    ensures n * w <= q * w
  {}

  lemma OneLess(k: nat, w: nat)
    requires k > 0
    ensures k * w == (k - 1) * w + w && (k - 1) * w >= 0
  {}

  lemma NumbersNone(w: nat, big: bool)
    ensures NumbersBytes([], w, big) == []
  {}

  lemma NumbersOne(x: nat, w: nat, big: bool)
    ensures NumbersBytes([x], w, big) == IntBytes(x, w, big)
  {
    assert NumbersBytes([x], w, big) == IntBytes(x, w, big) + [];
  }

  /** `n` more numbers after the first `done`. */
  lemma NumbersChunk(xs: seq<nat>, done: nat, n: nat, w: nat, big: bool)
    requires done + n <= |xs|
    ensures NumbersBytes(xs[..done + n], w, big)
            == NumbersBytes(xs[..done], w, big) + NumbersBytes(xs[done..][..n], w, big)
  {
    var head := xs[..done + n];
    NumbersSplit(head, done, w, big);
    assert head[..done] == xs[..done] && head[done..] == xs[done..][..n];
  }

  lemma {:induction false} NumbersSplit(xs: seq<nat>, n: nat, w: nat, big: bool)
    requires n <= |xs|
    ensures NumbersBytes(xs, w, big) == NumbersBytes(xs[..n], w, big) + NumbersBytes(xs[n..], w, big)
    decreases n
  {
    if n == 0 {
      assert xs[..0] == [] && xs[0..] == xs;
    } else {
      NumbersSplit(xs[1..], n - 1, w, big);
      assert xs[..n][1..] == xs[1..][..n - 1] && xs[1..][n - 1..] == xs[n..];
    }
  }
}
