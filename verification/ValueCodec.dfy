/** Values on the wire.  Reading a value gives back what was written, whatever the destination
    held before. */
module ValueCodec {
  import opened Fields
  import opened Values
  import opened Wire
  import opened TypeCodec

  function Width(t: ScalarType): (w: nat)
    ensures w >= 1
  {
    match t
    case PvBoolean => 1 case PvByte => 1 case PvUByte => 1
    case PvShort => 2 case PvUShort => 2
    case PvInt => 4 case PvUInt => 4 case PvFloat => 4
    case PvLong => 8 case PvULong => 8 case PvDouble => 8
    case PvString => 1
  }

  // ----- values of a type -----

  predicate HasScalar(t: ScalarType, v: Value) {
    if t == PvString then v.Text? && |v.text| < MAX_SIZE
    else v.Number? && v.bits < Range(Width(t))
  }

  predicate HasArray(t: ScalarType, v: Value) {
    if t == PvString then v.Texts? && |v.texts| < MAX_SIZE && forall i | 0 <= i < |v.texts| :: |v.texts[i]| < MAX_SIZE
    else v.Numbers? && |v.elements| < MAX_SIZE && forall i | 0 <= i < |v.elements| :: v.elements[i] < Range(Width(t))
  }

  function ArrayLength(v: Value): nat
    requires v.Texts? || v.Numbers?
  {
    if v.Texts? then |v.texts| else |v.elements|
  }

  predicate HasType(f: Field, v: Value)
    decreases v
  {
    match f
    case Scalar(t) => HasScalar(t, v)
    case BoundedString(_) => HasScalar(PvString, v)
    case ScalarArray(t) => HasArray(t, v)
    case BoundedScalarArray(t, _) => HasArray(t, v)
    case FixedScalarArray(t, n) => HasArray(t, v) && ArrayLength(v) == n
    case Structure(_, ms) => v.Struct? && |v.fields| == |ms| && forall i | 0 <= i < |ms| :: HasType(ms[i].field, v.fields[i])
    case StructureArray(e) =>
      && v.Structs? && |v.items| < MAX_SIZE
      && forall i | 0 <= i < |v.items| && v.items[i].Some? :: HasType(e, v.items[i].value)
    case Union(_, ms) =>
      v == Nothing ||
      (if ms == [] then v.Variant? && Creatable(v.dynamicType) && HasType(v.dynamicType, v.value)
       else v.Selected? && v.selector < |ms| < MAX_SIZE && HasType(ms[v.selector].field, v.value))
    case UnionArray(e) =>
      && v.Unions? && |v.items| < MAX_SIZE
      && forall i | 0 <= i < |v.items| && v.items[i].Some? :: HasType(e, v.items[i].value)
  }

  // ----- writing -----

  function ScalarBytes(t: ScalarType, v: Value, big: bool): Bytes
    requires HasScalar(t, v)
  {
    if t == PvString then StringBytes(v.text, big) else IntBytes(v.bits, Width(t), big)
  }

  function NumbersBytes(xs: seq<nat>, w: nat, big: bool): Bytes {
    if xs == [] then [] else IntBytes(xs[0], w, big) + NumbersBytes(xs[1..], w, big)
  }

  function TextsBytes(xs: seq<Bytes>, big: bool): Bytes {
    if xs == [] then [] else StringBytes(xs[0], big) + TextsBytes(xs[1..], big)
  }

  function ElementsBytes(t: ScalarType, v: Value, big: bool): Bytes
    requires HasArray(t, v)
  {
    if t == PvString then TextsBytes(v.texts, big) else NumbersBytes(v.elements, Width(t), big)
  }

  function ValueBytes(f: Field, v: Value, big: bool): Bytes
    requires HasType(f, v)
    decreases v, 1
  {
    match f
    case Scalar(t) => ScalarBytes(t, v, big)
    case BoundedString(_) => ScalarBytes(PvString, v, big)
    case ScalarArray(t) => SizeBytes(ArrayLength(v), big) + ElementsBytes(t, v, big)
    case BoundedScalarArray(t, _) => SizeBytes(ArrayLength(v), big) + ElementsBytes(t, v, big)
    case FixedScalarArray(t, _) => ElementsBytes(t, v, big)
    case Structure(_, ms) => FieldsBytes(ms, v.fields, big)
    case StructureArray(e) => SizeBytes(|v.items|, big) + ItemsBytes(e, v.items, big)
    case Union(_, ms) =>
      if ms == [] then
        if v == Nothing then [0xFF] else TypeBytes(v.dynamicType, big) + ValueBytes(v.dynamicType, v.value, big)
      else
        if v == Nothing then SizeBytes(NULL_SIZE, big)
        else SizeBytes(v.selector, big) + ValueBytes(ms[v.selector].field, v.value, big)
    case UnionArray(e) => SizeBytes(|v.items|, big) + ItemsBytes(e, v.items, big)
  }

  function FieldsBytes(ms: seq<Member>, vs: seq<Value>, big: bool): Bytes
    requires |vs| == |ms| && forall i | 0 <= i < |ms| :: HasType(ms[i].field, vs[i])
    decreases vs, 0
  {
    if vs == [] then [] else ValueBytes(ms[0].field, vs[0], big) + FieldsBytes(ms[1..], vs[1..], big)
  }

  /** A null element is a zero byte; other elements follow a one. */
  function ItemBytes(e: Field, item: Option<Value>, big: bool): (s: Bytes)
    requires item.Some? ==> HasType(e, item.value)
    ensures s != []
    decreases item, 2
  {
    match item
    case None => [0]
    case Some(v) => [1] + ValueBytes(e, v, big)
  }

  function ItemsBytes(e: Field, items: seq<Option<Value>>, big: bool): Bytes
    requires forall i | 0 <= i < |items| && items[i].Some? :: HasType(e, items[i].value)
    decreases items, 0
  {
    if items == [] then []
    else ItemBytes(e, items[0], big) + ItemsBytes(e, items[1..], big)
  }

  // ----- reading -----

  /** The value of a newly created field. */
  function Default(f: Field): Value
    decreases f, 0
  {
    match f
    case Scalar(t) => if t == PvString then Text([]) else Number(0)
    case BoundedString(_) => Text([])
    case ScalarArray(t) => if t == PvString then Texts([]) else Numbers([])
    case BoundedScalarArray(t, _) => if t == PvString then Texts([]) else Numbers([])
    case FixedScalarArray(t, n) => if t == PvString then Texts([]) else Numbers([])
    case Structure(_, ms) => Struct(Defaults(ms))
    case StructureArray(_) => Structs([])
    case Union(_, _) => Nothing
    case UnionArray(_) => Unions([])
  }

  function Defaults(ms: seq<Member>): seq<Value>
    decreases ms, 0
  {
    if ms == [] then [] else [Default(ms[0].field)] + Defaults(ms[1..])
  }

  function ReadNumbers(n: nat, w: nat, big: bool, s: Bytes): (p: Parsed<seq<nat>>)
    ensures p.Parsed? ==> |p.rest| <= |s|
    decreases n
  {
    if n == 0 then Parsed([], s)
    else match ReadInt(w, big, s)
      case Malformed => Malformed
      case Parsed(x, rest) =>
        match ReadNumbers(n - 1, w, big, rest)
        case Malformed => Malformed
        case Parsed(xs, rest') => Parsed([x] + xs, rest')
  }

  function ReadTexts(n: nat, big: bool, s: Bytes): (p: Parsed<seq<Bytes>>)
    ensures p.Parsed? ==> |p.rest| <= |s|
    decreases n
  {
    if n == 0 then Parsed([], s)
    else match ReadString(big, s)
      case Malformed => Malformed
      case Parsed(x, rest) =>
        match ReadTexts(n - 1, big, rest)
        case Malformed => Malformed
        case Parsed(xs, rest') => Parsed([x] + xs, rest')
  }

  function ReadScalar(t: ScalarType, big: bool, s: Bytes): (p: Parsed<Value>)
    ensures p.Parsed? ==> |p.rest| <= |s|
  {
    if t == PvString then
      match ReadString(big, s)
      case Malformed => Malformed
      case Parsed(x, rest) => Parsed(Text(x), rest)
    else
      match ReadInt(Width(t), big, s)
      case Malformed => Malformed
      case Parsed(x, rest) => Parsed(Number(x), rest)
  }

  function ReadElements(t: ScalarType, n: nat, big: bool, s: Bytes): (p: Parsed<Value>)
    ensures p.Parsed? ==> |p.rest| <= |s|
  {
    if t == PvString then
      match ReadTexts(n, big, s)
      case Malformed => Malformed
      case Parsed(xs, rest) => Parsed(Texts(xs), rest)
    else
      match ReadNumbers(n, Width(t), big, s)
      case Malformed => Malformed
      case Parsed(xs, rest) => Parsed(Numbers(xs), rest)
  }

  function ReadSizedElements(t: ScalarType, big: bool, s: Bytes): (p: Parsed<Value>)
    ensures p.Parsed? ==> |p.rest| <= |s|
  {
    match ReadSize(big, s)
    case Malformed => Malformed
    case Parsed(n, rest) => if n == NULL_SIZE then Malformed else ReadElements(t, n, big, rest)
  }

  /** The field of a structure. */
  function OldField(held: Value, i: nat, f: Field): Value {
    if held.Struct? && i < |held.fields| then held.fields[i] else Default(f)
  }

  /** The element of an array; a missing or null one is created anew. */
  function OldItem(held: Value, i: nat, e: Field): Value {
    if held.Structs? && i < |held.items| && held.items[i].Some? then held.items[i].value
    else if held.Unions? && i < |held.items| && held.items[i].Some? then held.items[i].value
    else Default(e)
  }

  /** The value of a union is kept if it was selected before or has the type that is selected
      now; otherwise a new one is created. */
  function OldSelection(held: Value, ms: seq<Member>, n: nat): Value
    requires n < |ms|
  {
    if held.Selected? && (held.selector == n || (held.selector < |ms| && ms[held.selector].field == ms[n].field))
    then held.value else Default(ms[n].field)
  }

  function OldVariant(held: Value, f: Field): Value {
    if held.Variant? && held.dynamicType == f then held.value else Default(f)
  }

  /** Reading into a field that holds `held`. */
  function ReadValue(f: Field, held: Value, big: bool, s: Bytes): (p: Parsed<Value>)
    ensures p.Parsed? ==> |p.rest| <= |s|
    decreases |s|, f, 1
  {
    match f
    case Scalar(t) => ReadScalar(t, big, s)
    case BoundedString(_) => ReadScalar(PvString, big, s)
    case ScalarArray(t) => ReadSizedElements(t, big, s)
    case BoundedScalarArray(t, _) => ReadSizedElements(t, big, s)
    case FixedScalarArray(t, n) => ReadElements(t, n, big, s)
    case Structure(_, ms) =>
      (match ReadFields(ms, held, 0, big, s)
       case Malformed => Malformed
       case Parsed(vs, rest) => Parsed(Struct(vs), rest))
    case StructureArray(e) =>
      (match ReadItemsOf(e, held, big, s)
       case Malformed => Malformed
       case Parsed(items, rest) => Parsed(Structs(items), rest))
    case Union(_, ms) => if ms == [] then ReadVariant(ms, held, big, s) else ReadSelected(ms, held, big, s)
    case UnionArray(e) =>
      (match ReadItemsOf(e, held, big, s)
       case Malformed => Malformed
       case Parsed(items, rest) => Parsed(Unions(items), rest))
  }

  function ReadVariant(ms: seq<Member>, held: Value, big: bool, s: Bytes): (p: Parsed<Value>)
    ensures p.Parsed? ==> |p.rest| <= |s|
    decreases |s|, ms, 0
  {
    match ReadType(big, s)
    case Malformed => Malformed
    case Parsed(None, rest) => Parsed(Nothing, rest)
    case Parsed(Some(g), rest) =>
      match ReadValue(g, OldVariant(held, g), big, rest)
      case Malformed => Malformed
      case Parsed(v, rest') => Parsed(Variant(g, v), rest')
  }

  function ReadSelected(ms: seq<Member>, held: Value, big: bool, s: Bytes): (p: Parsed<Value>)
    requires ms != []
    ensures p.Parsed? ==> |p.rest| <= |s|
    decreases |s|, ms, 0
  {
    match ReadSize(big, s)
    case Malformed => Malformed
    case Parsed(n, rest) =>
      if n == NULL_SIZE then Parsed(Nothing, rest)
      else if n >= |ms| then Malformed
      else match ReadValue(ms[n].field, OldSelection(held, ms, n), big, rest)
        case Malformed => Malformed
        case Parsed(v, rest') => Parsed(Selected(n, v), rest')
  }

  /** `i` fields have been read before. */
  function ReadFields(ms: seq<Member>, held: Value, i: nat, big: bool, s: Bytes): (p: Parsed<seq<Value>>)
    ensures p.Parsed? ==> |p.rest| <= |s|
    decreases |s|, ms, 0
  {
    if ms == [] then Parsed([], s)
    else match ReadValue(ms[0].field, OldField(held, i, ms[0].field), big, s)
      case Malformed => Malformed
      case Parsed(v, rest) =>
        match ReadFields(ms[1..], held, i + 1, big, rest)
        case Malformed => Malformed
        case Parsed(vs, rest') => Parsed([v] + vs, rest')
  }

  function ReadItemsOf(e: Field, held: Value, big: bool, s: Bytes): (p: Parsed<seq<Option<Value>>>)
    ensures p.Parsed? ==> |p.rest| <= |s|
    decreases |s|, e, 4
  {
    match ReadSize(big, s)
    case Malformed => Malformed
    case Parsed(n, rest) => if n == NULL_SIZE then Malformed else ReadItems(n, e, held, 0, big, rest)
  }

  function ReadItem(e: Field, held: Value, i: nat, big: bool, s: Bytes): (p: Parsed<Option<Value>>)
    ensures p.Parsed? ==> |p.rest| < |s|
    decreases |s|, e, 2
  {
    if s == [] then Malformed
    else if s[0] == 0 then Parsed(None, s[1..])
    else match ReadValue(e, OldItem(held, i, e), big, s[1..])
      case Malformed => Malformed
      case Parsed(v, rest) => Parsed(Some(v), rest)
  }

  function ReadItems(n: nat, e: Field, held: Value, i: nat, big: bool, s: Bytes): (p: Parsed<seq<Option<Value>>>)
    ensures p.Parsed? ==> |p.rest| <= |s|
    decreases |s|, e, 3
  {
    if n == 0 then Parsed([], s)
    else match ReadItem(e, held, i, big, s)
      case Malformed => Malformed
      case Parsed(item, rest) =>
        match ReadItems(n - 1, e, held, i + 1, big, rest)
        case Malformed => Malformed
        case Parsed(items, rest') => Parsed([item] + items, rest')
  }
}
