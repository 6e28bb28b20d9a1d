/** Introspection data on the wire: every type describes itself by a code byte and what follows. */
module TypeCodec {
  import opened Fields
  import opened Values
  import opened Names
  import opened Wire

  // ----- type codes -----

  function ScalarCode(t: ScalarType): (c: nat)
    ensures c < 0x80 && c / 8 % 4 == 0
  {
    match t
    case PvBoolean => 0x00
    case PvByte => 0x20
    case PvShort => 0x21
    case PvInt => 0x22
    case PvLong => 0x23
    case PvUByte => 0x24
    case PvUShort => 0x25
    case PvUInt => 0x26
    case PvULong => 0x27
    case PvFloat => 0x42
    case PvDouble => 0x43
    case PvString => 0x60
  }

  /** decodeScalar: the upper three bits choose the kind, the lower three the width. */
  function DecodeScalar(code: nat): Option<ScalarType> {
    match code / 32
    case 0 => Some(PvBoolean)
    case 1 =>
      (match code % 8
       case 0 => Some(PvByte) case 1 => Some(PvShort) case 2 => Some(PvInt) case 3 => Some(PvLong)
       case 4 => Some(PvUByte) case 5 => Some(PvUShort) case 6 => Some(PvUInt) case _ => Some(PvULong))
    case 2 =>
      (match code % 8
       case 2 => Some(PvFloat) case 3 => Some(PvDouble) case _ => None)
    case 3 => Some(PvString)
    case _ => None
  }

  lemma ScalarCodes(t: ScalarType)
    ensures DecodeScalar(ScalarCode(t)) == Some(t)
    ensures DecodeScalar(ScalarCode(t) + 0x08) == Some(t)
    ensures DecodeScalar(ScalarCode(t) + 0x10) == Some(t)
    ensures DecodeScalar(ScalarCode(t) + 0x18) == Some(t)
  {}

  const DEFAULT_STRUCTURE_ID := "structure"
  const DEFAULT_UNION_ID := "union"
  const ANY_ID := "any"

  // ----- types that can be created -----

  /** The conditions that the constructors check, and sizes that fit the wire format. */
  predicate Creatable(f: Field)
    decreases f, 0
  {
    match f
    case Scalar(_) => true
    case BoundedString(n) => 0 < n < MAX_SIZE
    case ScalarArray(_) => true
    case BoundedScalarArray(_, n) => n < MAX_SIZE
    case FixedScalarArray(_, n) => n < MAX_SIZE
    case Structure(id, ms) => CreatableId(id) && |ms| < MAX_SIZE && CreatableMembers(ms)
    case StructureArray(e) => e.Structure? && Creatable(e)
    case Union(id, ms) => if ms == [] then id == ANY_ID else CreatableId(id) && |ms| < MAX_SIZE && CreatableMembers(ms)
    case UnionArray(e) => e.Union? && Creatable(e)
  }

  predicate CreatableId(id: string) {
    id != "" && Narrow(id) && |id| < MAX_SIZE
  }

  predicate CreatableMembers(ms: seq<Member>)
    decreases ms, 0
  {
    ms == [] ||
    (ValidName(ms[0].name) && |ms[0].name| < MAX_SIZE && ms[0].name !in MemberNames(ms[1..]) &&
     Creatable(ms[0].field) && CreatableMembers(ms[1..]))
  }

  lemma ValidNameIsNarrow(n: string)
    requires ValidName(n)
    ensures Narrow(n)
  {}

  // ----- encoding -----

  function TypeBytes(f: Field, big: bool): (s: Bytes)
    requires Creatable(f)
    ensures s != []
    decreases f, 0
  {
    match f
    case Scalar(t) => [ScalarCode(t) as byte]
    case BoundedString(n) => [0x83] + SizeBytes(n, big)
    case ScalarArray(t) => [(0x08 + ScalarCode(t)) as byte]
    case BoundedScalarArray(t, n) => [(0x10 + ScalarCode(t)) as byte] + SizeBytes(n, big)
    case FixedScalarArray(t, n) => [(0x18 + ScalarCode(t)) as byte] + SizeBytes(n, big)
    case Structure(id, ms) => [0x80] + BodyBytes(if id == DEFAULT_STRUCTURE_ID then "" else id, ms, big)
    case StructureArray(e) => [0x88] + TypeBytes(e, big)
    case Union(id, ms) =>
      if ms == [] then [0x82] else [0x81] + BodyBytes(if id == DEFAULT_UNION_ID then "" else id, ms, big)
    case UnionArray(e) => if e.members == [] then [0x8A] else [0x89] + TypeBytes(e, big)
  }

  /** A default id is sent as the empty string. */
  function BodyBytes(id: string, ms: seq<Member>, big: bool): Bytes
    requires Narrow(id) && CreatableMembers(ms)
    decreases ms, 1
  {
    StringBytes(BytesOf(id), big) + SizeBytes(|ms|, big) + MembersBytes(ms, big)
  }

  function MembersBytes(ms: seq<Member>, big: bool): Bytes
    requires CreatableMembers(ms)
    decreases ms, 0
  {
    if ms == [] then []
    else
      ValidNameIsNarrow(ms[0].name);
      StringBytes(BytesOf(ms[0].name), big) + TypeBytes(ms[0].field, big) + MembersBytes(ms[1..], big)
  }

  // ----- decoding -----

  /** A null size stands for the largest size_t. */
  function UnsignedSize(n: int): nat
    requires NULL_SIZE <= n
  {
    if n == NULL_SIZE then 0xFFFF_FFFF_FFFF_FFFF else n
  }

  /** FieldCreate::deserialize.  The byte 0xFF stands for no type. */
  function ReadType(big: bool, s: Bytes): (p: Parsed<Option<Field>>)
    ensures p.Parsed? ==> |p.rest| < |s|
    decreases |s|, 1
  {
    if s == [] then Malformed
    else if s[0] == 0xFF then Parsed(None, s[1..])
    else
      var code := s[0] as nat;
      var kind := code / 8 % 4;
      var typeCode := code - kind * 8;
      if kind == 0 then ReadNonArray(big, code, s[1..])
      else if kind == 1 then ReadArray(big, code, typeCode, s[1..])
      else
        // fixed and bounded arrays of structures or unions are not supported
        match ReadSize(big, s[1..])
        case Malformed => Malformed
        case Parsed(n, rest) =>
          if typeCode >= 0x80 then Malformed
          else match DecodeScalar(code)
            case None => Malformed
            case Some(t) =>
              Parsed(Some(if kind == 3 then FixedScalarArray(t, UnsignedSize(n)) else BoundedScalarArray(t, UnsignedSize(n))), rest)
  }

  function ReadNonArray(big: bool, code: nat, s: Bytes): (p: Parsed<Option<Field>>)
    ensures p.Parsed? ==> |p.rest| <= |s|
    decreases |s|, 3
  {
    if code < 0x80 then
      (match DecodeScalar(code)
       case None => Malformed
       case Some(t) => Parsed(Some(Scalar(t)), s))
    else if code == 0x80 then
      (match ReadBody(big, s)
       case Malformed => Malformed
       case Parsed((id, ms), rest) => Parsed(Some(Structure(if id == "" then DEFAULT_STRUCTURE_ID else id, ms)), rest))
    else if code == 0x81 then
      (match ReadBody(big, s)
       case Malformed => Malformed
       case Parsed((id, ms), rest) =>
         if ms == [] && id != ANY_ID then Malformed
         else Parsed(Some(Union(if id == "" then DEFAULT_UNION_ID else id, ms)), rest))
    else if code == 0x82 then Parsed(Some(Union(ANY_ID, [])), s)
    else if code == 0x83 then
      (match ReadSize(big, s)
       case Malformed => Malformed
       case Parsed(n, rest) => if n == 0 then Malformed else Parsed(Some(BoundedString(UnsignedSize(n))), rest))
    else Malformed
  }

  function ReadArray(big: bool, code: nat, typeCode: nat, s: Bytes): (p: Parsed<Option<Field>>)
    ensures p.Parsed? ==> |p.rest| <= |s|
    decreases |s|, 3
  {
    if typeCode < 0x80 then
      (match DecodeScalar(code)
       case None => Malformed
       case Some(t) => Parsed(Some(ScalarArray(t)), s))
    else if typeCode == 0x80 then
      (match ReadType(big, s)
       case Parsed(Some(e), rest) => if e.Structure? then Parsed(Some(StructureArray(e)), rest) else Malformed
       case _ => Malformed)
    else if typeCode == 0x81 then
      (match ReadType(big, s)
       case Parsed(Some(e), rest) => if e.Union? then Parsed(Some(UnionArray(e)), rest) else Malformed
       case _ => Malformed)
    else if typeCode == 0x82 then Parsed(Some(UnionArray(Union(ANY_ID, []))), s)
    else Malformed
  }

  /** The names are validated and must differ; a null subfield is refused. */
  function ReadBody(big: bool, s: Bytes): (p: Parsed<(string, seq<Member>)>)
    ensures p.Parsed? ==> |p.rest| < |s|
    decreases |s|, 2
  {
    match ReadString(big, s)
    case Malformed => Malformed
    case Parsed(id, afterId) =>
      match ReadSize(big, afterId)
      case Malformed => Malformed
      case Parsed(n, afterSize) =>
        if n == NULL_SIZE then Malformed
        else match ReadMembers(n, big, afterSize)
          case Malformed => Malformed
          case Parsed(ms, rest) => if AcceptedNames(ms) then Parsed((TextOf(id), ms), rest) else Malformed
  }

  predicate AcceptedNames(ms: seq<Member>) {
    ms == [] || (ValidName(ms[0].name) && ms[0].name !in MemberNames(ms[1..]) && AcceptedNames(ms[1..]))
  }

  function ReadMembers(n: nat, big: bool, s: Bytes): (p: Parsed<seq<Member>>)
    ensures p.Parsed? ==> |p.rest| <= |s|
    decreases |s|, 0
  {
    if n == 0 then Parsed([], s)
    else match ReadString(big, s)
      case Malformed => Malformed
      case Parsed(name, afterName) =>
        match ReadType(big, afterName)
        case Parsed(Some(f), afterType) =>
          (match ReadMembers(n - 1, big, afterType)
           case Malformed => Malformed
           case Parsed(ms, rest) => Parsed([Member(TextOf(name), f)] + ms, rest))
        case _ => Malformed
  }

  // ----- round trip -----

  lemma PlainRoundTrip(f: Field, big: bool, rest: Bytes)
    requires Creatable(f) && (f.Scalar? || f.ScalarArray?)
    ensures ReadType(big, TypeBytes(f, big) + rest) == Parsed(Some(f), rest)
  {
    var s := TypeBytes(f, big) + rest;
    ScalarCodes(if f.Scalar? then f.scalarType else f.elementType);
    assert s[1..] == rest;
  }

  lemma SizedRoundTrip(f: Field, big: bool, rest: Bytes)
    requires Creatable(f) && (f.BoundedString? || f.BoundedScalarArray? || f.FixedScalarArray?)
    ensures ReadType(big, TypeBytes(f, big) + rest) == Parsed(Some(f), rest)
  {
    hide ReadSize, SizeBytes;
    var s := TypeBytes(f, big) + rest;
    var n := if f.BoundedString? then f.maxLength else if f.BoundedScalarArray? then f.bound else f.length;
    if !f.BoundedString? { ScalarCodes(f.elementType); }
    assert s[1..] == SizeBytes(n, big) + rest;
    SizeRoundTrip(n, big, rest);
  }

  lemma {:induction false} TypeRoundTrip(f: Field, big: bool, rest: Bytes)
    requires Creatable(f)
    ensures ReadType(big, TypeBytes(f, big) + rest) == Parsed(Some(f), rest)
    decreases f, 0
  {
    hide ReadSize, SizeBytes, ReadBody, BodyBytes, ReadMembers, MembersBytes, DecodeScalar, ScalarCode;
    var s := TypeBytes(f, big) + rest;
    match f
    case Structure(id, ms) =>
      var wireId := if id == DEFAULT_STRUCTURE_ID then "" else id;
      assert s[1..] == BodyBytes(wireId, ms, big) + rest;
      BodyRoundTrip(wireId, ms, big, rest);
    case StructureArray(e) =>
      assert s[1..] == TypeBytes(e, big) + rest;
      TypeRoundTrip(e, big, rest);
    case Union(id, ms) =>
      if ms == [] {
        assert s[1..] == rest;
      } else {
        var wireId := if id == DEFAULT_UNION_ID then "" else id;
        assert s[1..] == BodyBytes(wireId, ms, big) + rest;
        BodyRoundTrip(wireId, ms, big, rest);
      }
    case UnionArray(e) =>
      if e.members == [] {
        assert s[1..] == rest;
      } else {
        assert s[1..] == TypeBytes(e, big) + rest;
        TypeRoundTrip(e, big, rest);
      }
    case _ =>
      if f.Scalar? || f.ScalarArray? { PlainRoundTrip(f, big, rest); } else { SizedRoundTrip(f, big, rest); }
  }

  lemma {:induction false} BodyRoundTrip(id: string, ms: seq<Member>, big: bool, rest: Bytes)
    requires Narrow(id) && |id| < MAX_SIZE && |ms| < MAX_SIZE && CreatableMembers(ms)
    ensures ReadBody(big, BodyBytes(id, ms, big) + rest) == Parsed((id, ms), rest)
    decreases ms, 1
  {
    hide StringBytes, ReadString, SizeBytes, ReadSize, BytesOf, TextOf, MembersBytes, ReadMembers;
    TextOfBytes(id);
    var tail := MembersBytes(ms, big) + rest;
    assert BodyBytes(id, ms, big) + rest == StringBytes(BytesOf(id), big) + (SizeBytes(|ms|, big) + tail);
    StringRoundTrip(BytesOf(id), big, SizeBytes(|ms|, big) + tail);
    SizeRoundTrip(|ms|, big, tail);
    MembersRoundTrip(ms, big, rest);
    NamesAccepted(ms);
  }

  lemma {:induction false} NamesAccepted(ms: seq<Member>)
    requires CreatableMembers(ms)
    ensures AcceptedNames(ms)
  {
    if ms != [] { NamesAccepted(ms[1..]); }
  }

  lemma {:induction false} MembersRoundTrip(ms: seq<Member>, big: bool, rest: Bytes)
    requires CreatableMembers(ms)
    ensures ReadMembers(|ms|, big, MembersBytes(ms, big) + rest) == Parsed(ms, rest)
    decreases ms, 0
  {
    hide StringBytes, ReadString, TypeBytes, ReadType, BytesOf, TextOf;
    if ms == [] {
      assert MembersBytes(ms, big) + rest == rest;
    } else {
      var name, f := ms[0].name, ms[0].field;
      ValidNameIsNarrow(name);
      TextOfBytes(name);
      var afterType := MembersBytes(ms[1..], big) + rest;
      var afterName := TypeBytes(f, big) + afterType;
      assert MembersBytes(ms, big) + rest == StringBytes(BytesOf(name), big) + afterName;
      StringRoundTrip(BytesOf(name), big, afterName);
      TypeRoundTrip(f, big, afterType);
      MembersRoundTrip(ms[1..], big, rest);
      assert ms == [ms[0]] + ms[1..];
    }
  }

  /** No descriptor is the beginning of another one, and none can be taken for a missing type. */
  lemma TypesArePrefixFree(f: Field, g: Field, big: bool, more: Bytes)
    requires Creatable(f) && Creatable(g) && TypeBytes(f, big) + more == TypeBytes(g, big)
    ensures f == g && more == []
  {
    TypeRoundTrip(f, big, more);
    TypeRoundTrip(g, big, []);
    assert TypeBytes(g, big) + [] == TypeBytes(g, big);
  }

  lemma TypeIsNotNull(f: Field, big: bool)
    requires Creatable(f)
    ensures TypeBytes(f, big)[0] != 0xFF
  {
    TypeRoundTrip(f, big, []);
    assert TypeBytes(f, big) + [] == TypeBytes(f, big);
  }
}
