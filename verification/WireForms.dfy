/** What the bytes on the wire are, beyond that they can be read back (EPICS pvAccess Protocol Specification,
    chapter "Data Encoding"). */
module WireForms {
  import opened Fields
  import opened Values
  import opened Names
  import opened Wire
  import opened TypeCodec
  import opened ValueCodec

  // ----- numbers -----

  /** The width of a scalar in bits. */
  function Bits(t: ScalarType): nat
    requires t != PvString
  {
    match t
    case PvBoolean => 8 case PvByte => 8 case PvShort => 16 case PvInt => 32 case PvLong => 64
    case PvUByte => 8 case PvUShort => 16 case PvUInt => 32 case PvULong => 64
    case PvFloat => 32 case PvDouble => 64
  }

  /** The code of a type, of an array or not: the kind of scalar in the upper three bits, the width and the
      sign in the lower three, and in between whether it is an array, and with which limit. */
  lemma ScalarCodeForm(t: ScalarType)
    ensures t == PvBoolean ==> ScalarCode(t) == 0
    ensures t == PvString ==> ScalarCode(t) == 3 * 32
    ensures t != PvBoolean && t != PvString ==>
      && ScalarCode(t) / 32 == (if t == PvFloat || t == PvDouble then 2 else 1)
      && Range(Width(t)) == (match ScalarCode(t) % 4 case 0 => 0x100 case 1 => 0x1_0000 case 2 => 0x1_0000_0000 case _ => 0x1_0000_0000_0000_0000)
      && (ScalarCode(t) / 4 % 8 == 1 <==> t == PvUByte || t == PvUShort || t == PvUInt || t == PvULong)
    ensures t != PvString ==> 8 * Width(t) == Bits(t)
  {
    assert Range(1) == 0x100 && Range(2) == 0x1_0000;
    assert Range(4) == 0x1_0000_0000;
    assert Range(8) == 0x1_0000_0000_0000_0000 by { assert Range(6) == 0x1_0000_0000_0000; }
  }

  /** The elements of an array of numbers stand side by side, each in its width. */
  lemma {:induction false} NumbersAt(xs: seq<nat>, w: nat, big: bool, i: nat)
    requires i < |xs|
    ensures |NumbersBytes(xs, w, big)| == w * |xs| && w * i + w <= w * |xs|
    ensures NumbersBytes(xs, w, big)[w * i..w * i + w] == IntBytes(xs[i], w, big)
    decreases |xs|
  {
    hide IntBytes;
    NumbersLength(xs, w, big);
    Scaled(w, i, |xs|);
    var first, rest := IntBytes(xs[0], w, big), NumbersBytes(xs[1..], w, big);
    if i > 0 {
      NumbersAt(xs[1..], w, big, i - 1);
      assert w * i == w + w * (i - 1);
      Shifted(first, rest, w * (i - 1), w);
    }
  }

  lemma {:induction false} Scaled(w: nat, i: nat, n: nat)
    requires i < n
    ensures w * i + w <= w * n
    decreases n
  {
    var m := n - 1;
    assert w * n == w * m + w;
    if i < m { Scaled(w, i, m); }
  }

  lemma Shifted(a: Bytes, b: Bytes, k: nat, n: nat)
    requires k + n <= |b|
    ensures (a + b)[|a| + k..|a| + k + n] == b[k..k + n]
  {}

  lemma {:induction false} NumbersLength(xs: seq<nat>, w: nat, big: bool)
    ensures |NumbersBytes(xs, w, big)| == w * |xs|
    decreases |xs|
  {
    if xs != [] {
      NumbersLength(xs[1..], w, big);
      assert w * |xs| == w + w * (|xs| - 1);
    }
  }

  // ----- types -----

  /** The default ids of structures and unions are sent as a single zero byte, and no other id is. */
  lemma DefaultIdOmitted(id: string, ms: seq<Member>, big: bool)
    requires Creatable(Structure(id, ms)) && (ms != [] ==> Creatable(Union(id, ms)))
    ensures TypeBytes(Structure(id, ms), big)[0] == 0x80
    ensures |TypeBytes(Structure(id, ms), big)| > 1 && (TypeBytes(Structure(id, ms), big)[1] == 0 <==> id == "structure")
    ensures ms != [] ==> TypeBytes(Union(id, ms), big)[0] == 0x81
    ensures ms != [] ==> |TypeBytes(Union(id, ms), big)| > 1 && (TypeBytes(Union(id, ms), big)[1] == 0 <==> id == "union")
  {
    FirstOfId(if id == "structure" then "" else id, ms, big);
    FirstOfId(if id == "union" then "" else id, ms, big);
  }

  lemma FirstOfId(id: string, ms: seq<Member>, big: bool)
    requires Narrow(id) && |id| < MAX_SIZE && CreatableMembers(ms)
    ensures BodyBytes(id, ms, big) != [] && (BodyBytes(id, ms, big)[0] == 0 <==> id == "")
  {
    SizeForm(|id|, big);
    TextOfBytes(id);
    if |id| >= 254 { assert SizeBytes(|id|, big)[0] == 254; }
  }

  /** The first byte of the description of an array, a union or a bounded string. */
  lemma FirstByte(f: Field, big: bool)
    requires Creatable(f)
    ensures TypeBytes(f, big)[0] as nat ==
      match f
      case Scalar(t) => ScalarCode(t)
      case BoundedString(_) => 0x83
      case ScalarArray(t) => ScalarCode(t) + 0x08
      case BoundedScalarArray(t, _) => ScalarCode(t) + 0x10
      case FixedScalarArray(t, _) => ScalarCode(t) + 0x18
      case Structure(_, _) => 0x80
      case StructureArray(_) => 0x88
      case Union(_, ms) => if ms == [] then 0x82 else 0x81
      case UnionArray(e) => if e.members == [] then 0x8A else 0x89
  {}

  // ----- values -----

  /** A null element is marked by a zero byte and any other one by a one. */
  lemma Marker(e: Field, item: Option<Value>, big: bool)
    requires item.Some? ==> HasType(e, item.value)
    ensures ItemBytes(e, item, big)[0] == if item == None then 0 else 1
    ensures item == None ==> |ItemBytes(e, item, big)| == 1
  {
    hide ValueBytes;
  }

  /** A union without a value is a single byte. */
  lemma NullUnion(id: string, ms: seq<Member>, big: bool)
    ensures HasType(Union(id, ms), Nothing) && ValueBytes(Union(id, ms), Nothing, big) == [255]
  {}

  /** Only fixed arrays are sent without their length. */
  lemma ArrayForm(t: ScalarType, n: nat, xs: seq<nat>, big: bool)
    requires t != PvString && HasArray(t, Numbers(xs))
    ensures HasType(ScalarArray(t), Numbers(xs)) && HasType(BoundedScalarArray(t, n), Numbers(xs))
    ensures ValueBytes(ScalarArray(t), Numbers(xs), big) == SizeBytes(|xs|, big) + NumbersBytes(xs, Width(t), big)
    ensures ValueBytes(BoundedScalarArray(t, n), Numbers(xs), big) == SizeBytes(|xs|, big) + NumbersBytes(xs, Width(t), big)
    ensures |xs| == n ==> HasType(FixedScalarArray(t, n), Numbers(xs))
    ensures |xs| == n ==> ValueBytes(FixedScalarArray(t, n), Numbers(xs), big) == NumbersBytes(xs, Width(t), big)
  {}

  /** The fields of a structure are sent one after the other, in their order. */
  lemma {:induction false} FieldsInOrder(ms: seq<Member>, vs: seq<Value>, i: nat, big: bool)
    requires i < |ms| == |vs| && forall k | 0 <= k < |ms| :: HasType(ms[k].field, vs[k])
    ensures FieldsBytes(ms, vs, big)
            == FieldsBytes(ms[..i], vs[..i], big) + ValueBytes(ms[i].field, vs[i], big) + FieldsBytes(ms[i + 1..], vs[i + 1..], big)
    decreases i
  {
    hide ValueBytes, HasType;
    if i > 0 {
      var ns, us := ms[1..], vs[1..];
      FieldsInOrder(ns, us, i - 1, big);
      assert ns[..i - 1] == ms[..i][1..] && us[..i - 1] == vs[..i][1..] && ms[..i][0] == ms[0] && vs[..i][0] == vs[0];
      assert ns[i..] == ms[i + 1..] && us[i..] == vs[i + 1..];
      Four(ValueBytes(ms[0].field, vs[0], big), FieldsBytes(ns[..i - 1], us[..i - 1], big),
           ValueBytes(ms[i].field, vs[i], big), FieldsBytes(ns[i..], us[i..], big));
    } else {
      assert ms[..0] == [] && vs[..0] == [];
    }
  }

  /** So are the elements of an array. */
  lemma {:induction false} ItemsInOrder(e: Field, items: seq<Option<Value>>, i: nat, big: bool)
    requires i < |items| && forall k | 0 <= k < |items| && items[k].Some? :: HasType(e, items[k].value)
    ensures ItemsBytes(e, items, big)
            == ItemsBytes(e, items[..i], big) + ItemBytes(e, items[i], big) + ItemsBytes(e, items[i + 1..], big)
    decreases i
  {
    hide ItemBytes, HasType;
    if i > 0 {
      var rest := items[1..];
      ItemsInOrder(e, rest, i - 1, big);
      assert rest[..i - 1] == items[..i][1..] && rest[i..] == items[i + 1..] && items[..i][0] == items[0];
      Four(ItemBytes(e, items[0], big), ItemsBytes(e, rest[..i - 1], big), ItemBytes(e, items[i], big), ItemsBytes(e, rest[i..], big));
    } else {
      assert items[..0] == [];
    }
  }

  lemma Four(a: Bytes, b: Bytes, c: Bytes, d: Bytes)
    ensures a + (b + c + d) == (a + b) + c + d
  {}

  /** New numbers are zero, new texts, arrays and unions are empty. */
  lemma NewFieldsAreEmpty(f: Field)
    ensures match f
      case Scalar(t) => Default(f) == if t == PvString then Text([]) else Number(0)
      case BoundedString(_) => Default(f) == Text([])
      case Structure(_, ms) => Default(f).Struct? && |Default(f).fields| == |ms|
      case StructureArray(_) => Default(f) == Structs([])
      case Union(_, _) => Default(f) == Nothing
      case UnionArray(_) => Default(f) == Unions([])
      case _ => Default(f) == if f.elementType == PvString then Texts([]) else Numbers([])
  {
    if f.Structure? { DefaultsCount(f.members); }
  }

  lemma {:induction false} DefaultsCount(ms: seq<Member>)
    ensures |Defaults(ms)| == |ms| && forall i | 0 <= i < |ms| :: Defaults(ms)[i] == Default(ms[i].field)
    decreases ms
  {
    if ms != [] { DefaultsCount(ms[1..]); }
  }

  // ----- what is read -----

  /** How the code of a scalar is read: of booleans and strings only the kind counts. */
  lemma ScalarCodeRead(code: nat)
    ensures code < 32 ==> DecodeScalar(code) == Some(PvBoolean)
    ensures 32 <= code < 64 ==> DecodeScalar(code).Some? && IsNumber(DecodeScalar(code).value)
    ensures 64 <= code < 96 ==> DecodeScalar(code) == if code % 8 == 2 then Some(PvFloat) else if code % 8 == 3 then Some(PvDouble) else None
    ensures 96 <= code < 128 ==> DecodeScalar(code) == Some(PvString)
    ensures code >= 128 ==> DecodeScalar(code) == None
  {}

  predicate IsNumber(t: ScalarType) {
    t != PvBoolean && t != PvString && t != PvFloat && t != PvDouble
  }

  /** No type, the variant union, and the array of variant unions are single bytes. */
  lemma SingleBytes(big: bool, rest: Bytes)
    ensures ReadType(big, [0xFF] + rest) == Parsed(None, rest)
    ensures ReadType(big, [0x82] + rest) == Parsed(Some(Union("any", [])), rest)
    ensures ReadType(big, [0x8A] + rest) == Parsed(Some(UnionArray(Union("any", []))), rest)
  {
    assert ([0xFF] + rest)[1..] == rest && ([0x82] + rest)[1..] == rest && ([0x8A] + rest)[1..] == rest;
  }

  /** What is not read: a bounded string without room, bounded or fixed arrays of structures or unions, and
      codes that stand for nothing. */
  lemma RefusedTypes(c: byte, big: bool, rest: Bytes)
    ensures ReadType(big, [0x83, 0] + rest) == Malformed
    ensures 0x84 <= c < 0x88 || 0x8B <= c < 0xFF ==> ReadType(big, [c] + rest) == Malformed
    ensures ReadType(big, []) == Malformed
  {
    hide ReadBody;
    assert ([0x83, 0] + rest)[1..] == [0] + rest && ([0] + rest)[1..] == rest;
    assert ([c] + rest)[1..] == rest;
  }

  /** Any marker but zero stands for an element. */
  lemma MarkerRead(e: Field, held: Value, i: nat, m: byte, big: bool, rest: Bytes)
    ensures ReadItem(e, held, i, big, [m] + rest) ==
      if m == 0 then Parsed(None, rest)
      else match ReadValue(e, OldItem(held, i, e), big, rest)
        case Malformed => Malformed
        case Parsed(v, more) => Parsed(Some(v), more)
  {
    hide ReadValue;
    assert ([m] + rest)[1..] == rest;
  }

  /** All names below are valid, and the names of each level differ. */
  predicate Proper(f: Field)
    decreases f, 0
  {
    match f
    case Structure(_, ms) => ProperAll(ms)
    case Union(_, ms) => ProperAll(ms)
    case StructureArray(e) => e.Structure? && Proper(e)
    case UnionArray(e) => e.Union? && Proper(e)
    case _ => true
  }

  predicate ProperAll(ms: seq<Member>)
    decreases ms, 0
  {
    ms == [] || (ValidName(ms[0].name) && ms[0].name !in MemberNames(ms[1..]) && Proper(ms[0].field) && ProperAll(ms[1..]))
  }

  /** Whatever the bytes are, a type that is read from them has proper names. */
  lemma {:induction false} ReadTypeProper(big: bool, s: Bytes)
    ensures var p := ReadType(big, s); p.Parsed? && p.value.Some? ==> Proper(p.value.value)
    decreases |s|, 1
  {
    hide ReadBody, ReadSize, DecodeScalar;
    if s != [] && s[0] != 0xFF {
      var code := s[0] as nat;
      if code == 0x80 || code == 0x81 { ReadBodyProper(big, s[1..]); }
      if code == 0x88 || code == 0x89 { ReadTypeProper(big, s[1..]); }
    }
  }

  lemma {:induction false} ReadBodyProper(big: bool, s: Bytes)
    ensures var p := ReadBody(big, s); p.Parsed? ==> ProperAll(p.value.1)
    decreases |s|, 2
  {
    hide ReadString, ReadSize, ReadMembers;
    var p := ReadString(big, s);
    if p.Parsed? {
      var q := ReadSize(big, p.rest);
      if q.Parsed? && q.value >= 0 {
        ReadMembersProper(q.value, big, q.rest);
        var r := ReadMembers(q.value, big, q.rest);
        if r.Parsed? && AcceptedNames(r.value) { ProperIfAccepted(r.value); }
      }
    }
  }

  predicate ProperFields(ms: seq<Member>) {
    forall i | 0 <= i < |ms| :: Proper(ms[i].field)
  }

  lemma {:induction false} ReadMembersProper(n: nat, big: bool, s: Bytes)
    ensures var p := ReadMembers(n, big, s); p.Parsed? ==> ProperFields(p.value)
    decreases |s|, 0
  {
    hide ReadType, ReadString;
    if n > 0 {
      var p := ReadString(big, s);
      if p.Parsed? {
        ReadTypeProper(big, p.rest);
        var q := ReadType(big, p.rest);
        if q.Parsed? { ReadMembersProper(n - 1, big, q.rest); }
      }
    }
  }

  lemma {:induction false} ProperIfAccepted(ms: seq<Member>)
    requires ProperFields(ms) && AcceptedNames(ms)
    ensures ProperAll(ms)
    decreases ms
  {
    if ms != [] { ProperIfAccepted(ms[1..]); }
  }
}
