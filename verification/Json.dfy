/** The events between a printed value and the parser: the printer drives a generator, and the
    parser is a stack machine driven by the same events.  The text between them is not part of
    this model. */
module Json {
  import opened Fields
  import opened Values
  import opened Wire
  import opened ValueCodec
  import opened Limits
  import opened Selection

  datatype Event =
    | Null
    | Boolean(b: bool)
    | Integer(n: int)
    | Real(bits: nat)
    | Str(bytes: Bytes)
    | StartMap
    | Key(name: string)
    | EndMap
    | StartArray
    | EndArray

  predicate IsValue(e: Event) {
    e.Boolean? || e.Integer? || e.Real? || e.Str?
  }

  // ----- conversions -----

  predicate IsSigned(t: ScalarType) {
    t == PvByte || t == PvShort || t == PvInt || t == PvLong
  }

  predicate IsInteger(t: ScalarType) {
    IsSigned(t) || t == PvUByte || t == PvUShort || t == PvUInt || t == PvULong
  }

  /** The value of an integer as a signed 64-bit number; large unsigned ones wrap. */
  function ToInt64(t: ScalarType, bits: nat): int {
    if (IsSigned(t) || t == PvULong) && 2 * bits >= Range(Width(t)) then bits - Range(Width(t)) else bits
  }

  function ShowScalar(t: ScalarType, v: Value): Event
    requires HasScalar(t, v)
  {
    if t == PvString then Str(v.text)
    else if t == PvBoolean then Boolean(v.bits != 0)
    else if t == PvDouble || t == PvFloat then Real(v.bits)
    else Integer(ToInt64(t, v.bits))
  }

  /** Conversions between kinds, such as text to a number, are a parameter. */
  type Convert = (Event, ScalarType) -> Option<Value>

  function Cast(convert: Convert, e: Event, t: ScalarType): Option<Value> {
    match e
    case Boolean(b) => if t == PvBoolean then Some(Number(if b then 1 else 0)) else convert(e, t)
    case Integer(n) => if IsInteger(t) then Some(Number(n % Range(Width(t)))) else convert(e, t)
    case Real(bits) => if t == PvDouble || t == PvFloat then Some(Number(bits)) else convert(e, t)
    case Str(bytes) => if t == PvString then Some(Text(bytes)) else convert(e, t)
    case _ => None
  }

  // ----- the printer -----

  /** A value that can be printed as one of type `f`.  A fixed array need not have its length yet. */
  predicate Showable(f: Field, v: Value)
    decreases v
  {
    match f
    case Scalar(t) => HasScalar(t, v)
    case BoundedString(_) => HasScalar(PvString, v)
    case ScalarArray(t) => HasArray(t, v)
    case BoundedScalarArray(t, _) => HasArray(t, v)
    case FixedScalarArray(t, _) => HasArray(t, v)
    case Structure(_, ms) => v.Struct? && |v.fields| == |ms| && forall i | 0 <= i < |ms| :: Showable(ms[i].field, v.fields[i])
    case StructureArray(e) => v.Structs? && forall i | 0 <= i < |v.items| && v.items[i].Some? :: Showable(e, v.items[i].value)
    case Union(_, ms) =>
      v == Nothing ||
      (if ms == [] then v.Variant? && Showable(v.dynamicType, v.value)
       else v.Selected? && v.selector < |ms| && Showable(ms[v.selector].field, v.value))
    case UnionArray(e) => v.Unions? && forall i | 0 <= i < |v.items| && v.items[i].Some? :: Showable(e, v.items[i].value)
  }

  /** Every value that has the type can be printed. */
  lemma {:induction false} TypeIsShowable(f: Field, v: Value)
    requires HasType(f, v)
    ensures Showable(f, v)
    decreases v
  {
    hide HasScalar, HasArray;
    match f
    case Structure(_, ms) =>
      forall i | 0 <= i < |ms|
        ensures Showable(ms[i].field, v.fields[i])
      {
        TypeIsShowable(ms[i].field, v.fields[i]);
      }
    case Union(_, ms) =>
      if v != Nothing { TypeIsShowable(if ms == [] then v.dynamicType else ms[v.selector].field, v.value); }
    case StructureArray(e) =>
      forall i | 0 <= i < |v.items| && v.items[i].Some?
        ensures Showable(e, v.items[i].value)
      {
        TypeIsShowable(e, v.items[i].value);
      }
    case UnionArray(e) =>
      forall i | 0 <= i < |v.items| && v.items[i].Some?
        ensures Showable(e, v.items[i].value)
      {
        TypeIsShowable(e, v.items[i].value);
      }
    case _ =>
  }

  /** show_field.  Fields whose bit is not in the mask are left out; there is no mask inside array
      elements and unions. */
  function ShowField(f: Field, o: nat, v: Value, mask: Option<set<nat>>): seq<Event>
    requires Showable(f, v)
    decreases v, 1
  {
    match f
    case Scalar(t) => [ShowScalar(t, v)]
    case BoundedString(_) => [ShowScalar(PvString, v)]
    case ScalarArray(t) => [StartArray] + ShowElements(t, v) + [EndArray]
    case BoundedScalarArray(t, _) => [StartArray] + ShowElements(t, v) + [EndArray]
    case FixedScalarArray(t, _) => [StartArray] + ShowElements(t, v) + [EndArray]
    case Structure(_, ms) => [StartMap] + ShowFields(ms, o + 1, v.fields, mask) + [EndMap]
    case StructureArray(e) => [StartArray] + ShowItems(e, v.items) + [EndArray]
    case Union(_, ms) =>
      if v == Nothing then [Null]
      else if ms == [] then ShowField(v.dynamicType, 0, v.value, None)
      else ShowField(ms[v.selector].field, 0, v.value, None)
    case UnionArray(e) => [StartArray] + ShowItems(e, v.items) + [EndArray]
  }

  function ShowFields(ms: seq<Member>, o: nat, vs: seq<Value>, mask: Option<set<nat>>): seq<Event>
    requires |vs| == |ms| && forall i | 0 <= i < |ms| :: Showable(ms[i].field, vs[i])
    decreases vs, 0
  {
    if vs == [] then []
    else
      (if mask.Some? && o !in mask.value then [] else [Key(ms[0].name)] + ShowField(ms[0].field, o, vs[0], mask))
      + ShowFields(ms[1..], o + Size(ms[0].field), vs[1..], mask)
  }

  function ShowItems(e: Field, items: seq<Option<Value>>): seq<Event>
    requires forall i | 0 <= i < |items| && items[i].Some? :: Showable(e, items[i].value)
    decreases items, 0
  {
    if items == [] then [] else ShowItem(e, items[0]) + ShowItems(e, items[1..])
  }

  function ShowItem(e: Field, item: Option<Value>): seq<Event>
    requires item.Some? ==> Showable(e, item.value)
    decreases item, 2
  {
    match item
    case None => [Null]
    case Some(v) => ShowField(e, 0, v, None)
  }

  function ShowElements(t: ScalarType, v: Value): seq<Event>
    requires HasArray(t, v)
  {
    if t == PvString then ShowAll(t, seq(|v.texts|, i requires 0 <= i < |v.texts| => Text(v.texts[i])))
    else ShowAll(t, seq(|v.elements|, i requires 0 <= i < |v.elements| => Number(v.elements[i])))
  }

  function ShowAll(t: ScalarType, vs: seq<Value>): seq<Event>
    requires forall i | 0 <= i < |vs| :: HasScalar(t, vs[i])
  {
    if vs == [] then [] else [ShowScalar(t, vs[0])] + ShowAll(t, vs[1..])
  }

  // ----- the parser -----

  /** A field that is being filled in: its place in the field below it on the stack, and its offset
      if assignments to it are reported. */
  datatype Frame = Frame(field: Field, value: Value, slot: nat, offset: Option<nat>)

  datatype State = State(stack: seq<Frame>, reported: set<nat>, result: Option<Value>)

  function Last(stack: seq<Frame>): Frame
    requires stack != []
  {
    stack[|stack| - 1]
  }

  /** A field is complete: its value belongs to the field below it, as a subfield of a structure or
      as one more element of an array. */
  function Pop(s: State): State
    requires s.stack != []
  {
    var top, rest := Last(s.stack), s.stack[..|s.stack| - 1];
    if rest == [] then State([], s.reported, Some(top.value))
    else s.(stack := rest[..|rest| - 1] + [Hold(Last(rest), top)])
  }

  function Hold(below: Frame, top: Frame): Frame {
    if below.value.Struct? && top.slot < |below.value.fields| then
      below.(value := Struct(below.value.fields[top.slot := top.value]))
    else if below.value.Structs? then below.(value := Structs(below.value.items + [Some(top.value)]))
    else below
  }

  function Report(s: State): State
    requires s.stack != []
  {
    match Last(s.stack).offset
    case None => s
    case Some(k) => s.(reported := s.reported + {k})
  }

  function WithTop(s: State, top: Frame): State
    requires s.stack != []
  {
    s.(stack := s.stack[..|s.stack| - 1] + [top])
  }

  function Appended(v: Value, x: Value): Value {
    if v.Texts? && x.Text? then Texts(v.texts + [x.text])
    else if v.Numbers? && x.Number? then Numbers(v.elements + [x.bits])
    else v
  }

  /** One event.  It fails where the code reports an error; the assignment to unions, which
      guesses a member, is not part of this model. */
  function Step(convert: Convert, s: State, e: Event): Option<State>
    requires s.stack != []
  {
    var top := Last(s.stack);
    if IsValue(e) then
      match top.field
      case Scalar(t) => Assign(s, Cast(convert, e, t))
      case BoundedString(_) => Assign(s, Accept(top.field, Cast(convert, e, PvString)))
      case ScalarArray(t) => Append(s, Cast(convert, e, t))
      case BoundedScalarArray(t, n) =>
        if LengthOf(top.value) + 1 > n then None else Append(s, Cast(convert, e, t))
      case FixedScalarArray(t, n) =>
        if LengthOf(top.value) + 1 != n then None else Append(s, Cast(convert, e, t))
      case _ => None
    else
      match e
      case StartMap =>
        if top.field.Structure? then Some(s)
        else if top.field.StructureArray? then
          Some(s.(stack := s.stack + [Frame(top.field.element, Default(top.field.element), 0, None)]))
        else None
      case Key(name) =>
        if !top.field.Structure? then None
        else (match Position(top.field.members, name)
          case None => None
          case Some(i) =>
            var child := top.field.members[i].field;
            var value := if top.value.Struct? && i < |top.value.fields| then top.value.fields[i] else Default(child);
            var offset := match top.offset case None => None case Some(o) => Some(o + 1 + SizeAll(top.field.members[..i]));
            Some(s.(stack := s.stack + [Frame(child, value, i, offset)])))
      case EndMap => Some(Pop(s))
      case StartArray => if IsArrayField(top.field) then Some(s) else None
      case EndArray => Some(Pop(Report(s)))
      case _ => None
  }

  /** Which events are accepted on a field, whatever else is on the stack. */
  lemma AcceptedIff(convert: Convert, s: State, e: Event)
    requires s.stack != []
    ensures e == Null ==> Step(convert, s, e) == None
    ensures e == StartMap ==> (Step(convert, s, e).Some? <==> Last(s.stack).field.Structure? || Last(s.stack).field.StructureArray?)
    ensures e == StartArray ==> (Step(convert, s, e).Some? <==> IsArrayField(Last(s.stack).field))
    ensures e == EndMap || e == EndArray ==> Step(convert, s, e).Some?
    ensures e.Key? ==>
      (Step(convert, s, e).Some? <==> Last(s.stack).field.Structure? && e.name in MemberNames(Last(s.stack).field.members))
    ensures IsValue(e) && (Last(s.stack).field.Structure? || Last(s.stack).field.StructureArray?) ==> Step(convert, s, e) == None
  {
    hide Cast, Pop, Report, SizeAll, Default;
    var f := Last(s.stack).field;
    if e.Key? && f.Structure? {
      match Position(f.members, e.name)
      case None =>
      case Some(i) => assert f.members[i] in f.members;
    }
  }

  /** A text that is longer than its bound is refused. */
  function Accept(f: Field, x: Option<Value>): Option<Value> {
    if x.Some? && Fits(f, x.value) then x else None
  }

  predicate IsArrayField(f: Field) {
    f.StructureArray? || f.ScalarArray? || f.BoundedScalarArray? || f.FixedScalarArray?
  }

  function Assign(s: State, x: Option<Value>): Option<State>
    requires s.stack != []
  {
    match x
    case None => None
    case Some(v) => Some(Pop(Report(WithTop(s, Last(s.stack).(value := v)))))
  }

  function Append(s: State, x: Option<Value>): Option<State>
    requires s.stack != []
  {
    match x
    case None => None
    case Some(v) => Some(WithTop(s, Last(s.stack).(value := Appended(Last(s.stack).value, v))))
  }

  /** Events after the last field has been completed are an error. */
  function Run(convert: Convert, s: State, events: seq<Event>): Option<State>
    decreases |events|
  {
    if events == [] then Some(s)
    else if s.stack == [] then None
    else match Step(convert, s, events[0])
      case None => None
      case Some(t) => Run(convert, t, events[1..])
  }
}
