/** The parser undoes the printer. */
module JsonLaws {
  import opened Fields
  import opened Values
  import opened Wire
  import opened ValueCodec
  import opened Selection
  import opened Json
  import opened Limits

  // ----- values that can be printed and read back -----

  /** Scalars, arrays of scalars, structures and arrays of structures. */
  predicate Printable(f: Field)
    decreases f, 1
  {
    match f
    case Scalar(_) => true
    case BoundedString(_) => true
    case ScalarArray(_) => true
    case BoundedScalarArray(_, _) => true
    case FixedScalarArray(_, _) => true
    case Structure(_, ms) => WellNamedAll(ms) && PrintableAll(ms)
    case StructureArray(e) => e.Structure? && Printable(e)
    case _ => false
  }

  predicate PrintableAll(ms: seq<Member>)
    decreases ms, 0
  {
    ms == [] || (Printable(ms[0].field) && PrintableAll(ms[1..]))
  }

  /** Booleans are 0 or 1. */
  predicate Regular(f: Field, v: Value)
    requires Showable(f, v)
    decreases v
  {
    match f
    case Scalar(t) => t == PvBoolean ==> v.bits <= 1
    case ScalarArray(t) => RegularElements(t, v)
    case BoundedScalarArray(t, _) => RegularElements(t, v)
    case FixedScalarArray(t, _) => RegularElements(t, v)
    case Structure(_, ms) => forall i | 0 <= i < |ms| :: Regular(ms[i].field, v.fields[i])
    case StructureArray(e) => forall i | 0 <= i < |v.items| && v.items[i].Some? :: Regular(e, v.items[i].value)
    case _ => true
  }

  predicate RegularElements(t: ScalarType, v: Value)
    requires HasArray(t, v)
  {
    t == PvBoolean ==> forall i | 0 <= i < |v.elements| :: v.elements[i] <= 1
  }

  predicate IsScalarArray(f: Field) {
    f.ScalarArray? || f.BoundedScalarArray? || f.FixedScalarArray?
  }

  // ----- what the parser accepts -----

  /** `k` elements can be appended, one after the other, to an array of length `len`.  The length is
      checked after each of them, against the limit of a bounded array, and for equality against that of
      a fixed one. */
  predicate Room(f: Field, len: nat, k: nat) {
    k == 0 ||
    match f
    case BoundedScalarArray(_, n) => len + k <= n
    case FixedScalarArray(_, n) => k == 1 && len + 1 == n
    case _ => true
  }

  /** What is printed of `v` can be read into a field that holds `d`: texts are not too long, there is
      room for the elements, and no element of an array of structures is null. */
  predicate Readable(f: Field, o: nat, d: Value, v: Value, mask: Option<set<nat>>)
    requires Showable(f, v)
    decreases v, 1
  {
    match f
    case BoundedString(_) => Fits(f, v)
    case ScalarArray(_) => Room(f, LengthOf(d), LengthOf(v))
    case BoundedScalarArray(_, _) => Room(f, LengthOf(d), LengthOf(v))
    case FixedScalarArray(_, _) => Room(f, LengthOf(d), LengthOf(v))
    case Structure(_, ms) => d.Struct? && |d.fields| == |ms| ==> ReadableFields(ms, o + 1, d.fields, v.fields, mask)
    case StructureArray(e) => ReadableItems(e, v.items)
    case _ => true
  }

  predicate ReadableFields(ms: seq<Member>, o: nat, ds: seq<Value>, vs: seq<Value>, mask: Option<set<nat>>)
    requires |vs| == |ms| == |ds| && forall i | 0 <= i < |ms| :: Showable(ms[i].field, vs[i])
    decreases vs, 0
  {
    vs == [] ||
    (((mask.Some? && o !in mask.value) || Readable(ms[0].field, o, ds[0], vs[0], mask)) &&
     ReadableFields(ms[1..], o + Size(ms[0].field), ds[1..], vs[1..], mask))
  }

  predicate ReadableItems(e: Field, items: seq<Option<Value>>)
    requires forall i | 0 <= i < |items| && items[i].Some? :: Showable(e, items[i].value)
    decreases items, 0
  {
    items == [] || (ReadableItem(e, items[0]) && ReadableItems(e, items[1..]))
  }

  predicate ReadableItem(e: Field, item: Option<Value>)
    requires item.Some? ==> Showable(e, item.value)
    decreases item, 2
  {
    match item
    case None => false
    case Some(v) => Readable(e, 0, Default(e), v, None)
  }

  /** What a field that held `d` holds after the value `v` has been parsed into it: arrays are
      appended to, fields that were left out keep their values. */
  function Merge(f: Field, o: nat, d: Value, v: Value, mask: Option<set<nat>>): Value
    requires Showable(f, v)
    decreases v, 1
  {
    match f
    case Structure(_, ms) => if d.Struct? && |d.fields| == |ms| then Struct(MergeFields(ms, o + 1, d.fields, v.fields, mask)) else d
    case StructureArray(e) => if d.Structs? then Structs(d.items + MergeItems(e, v.items)) else d
    case ScalarArray(_) => Joined(d, v)
    case BoundedScalarArray(_, _) => Joined(d, v)
    case FixedScalarArray(_, _) => Joined(d, v)
    case _ => v
  }

  function Joined(d: Value, v: Value): Value {
    if d.Texts? && v.Texts? then Texts(d.texts + v.texts)
    else if d.Numbers? && v.Numbers? then Numbers(d.elements + v.elements)
    else d
  }

  function MergeFields(ms: seq<Member>, o: nat, ds: seq<Value>, vs: seq<Value>, mask: Option<set<nat>>): (r: seq<Value>)
    requires |vs| == |ms| == |ds| && forall i | 0 <= i < |ms| :: Showable(ms[i].field, vs[i])
    ensures |r| == |ms|
    decreases vs, 0
  {
    if vs == [] then []
    else [if mask.Some? && o !in mask.value then ds[0] else Merge(ms[0].field, o, ds[0], vs[0], mask)]
         + MergeFields(ms[1..], o + Size(ms[0].field), ds[1..], vs[1..], mask)
  }

  function MergeItems(e: Field, items: seq<Option<Value>>): seq<Option<Value>>
    requires forall i | 0 <= i < |items| && items[i].Some? :: Showable(e, items[i].value)
    decreases items, 0
  {
    if items == [] then [] else [MergeItem(e, items[0])] + MergeItems(e, items[1..])
  }

  function MergeItem(e: Field, item: Option<Value>): Option<Value>
    requires item.Some? ==> Showable(e, item.value)
    decreases item, 2
  {
    match item
    case None => None
    case Some(v) => Some(Merge(e, 0, Default(e), v, None))
  }

  /** The offsets that are reported: those of the scalars and arrays that are not left out. */
  function Reported(f: Field, o: nat, mask: Option<set<nat>>): set<nat>
    decreases f, 1
  {
    if f.Structure? then ReportedAll(f.members, o + 1, mask) else {o}
  }

  function ReportedAll(ms: seq<Member>, o: nat, mask: Option<set<nat>>): set<nat>
    decreases ms, 0
  {
    if ms == [] then {}
    else (if mask.Some? && o !in mask.value then {} else Reported(ms[0].field, o, mask))
         + ReportedAll(ms[1..], o + Size(ms[0].field), mask)
  }

  // ----- scalars -----

  lemma ModWrap(bits: nat, r: nat)
    requires bits < r
    ensures bits % r == bits && (bits - r) % r == bits
  {
    var x := bits - r;
    assert x == (x / r) * r + x % r && 0 <= x % r < r;
    if x / r >= 0 { Times(x / r, r); }
    if x / r < -1 { Times(-2 - x / r, r); }
  }

  lemma Times(k: int, r: nat)
    requires k >= 0
    ensures k * r >= 0 && (-2 - k) * r == -2 * r - k * r
  {}

  lemma IntegerRoundTrip(t: ScalarType, bits: nat)
    requires IsInteger(t) && bits < Range(Width(t))
    ensures ToInt64(t, bits) % Range(Width(t)) == bits
  {
    hide Range, Width;
    ModWrap(bits, Range(Width(t)));
  }

  /** Which number is printed: the value of a signed or a narrow unsigned integer, and for the widest unsigned
      one the signed number with the same bits. */
  lemma PrintedInteger(t: ScalarType, bits: nat)
    requires IsInteger(t) && bits < Range(Width(t))
    ensures HasScalar(t, Number(bits)) && ShowScalar(t, Number(bits)).Integer?
    ensures var n, r := ShowScalar(t, Number(bits)).n, Range(Width(t));
      && n % r == bits
      && (t == PvByte || t == PvShort || t == PvInt || t == PvLong || t == PvULong ==> 2 * n < r && 0 <= 2 * n + r)
      && (t == PvUByte || t == PvUShort || t == PvUInt ==> n == bits)
  {
    hide Range, Width;
    IntegerRoundTrip(t, bits);
  }

  /** Every number that is read is accepted for every integer type, and cut to its width. */
  lemma ReadInteger(convert: Convert, t: ScalarType, n: int)
    requires IsInteger(t)
    ensures var x := Cast(convert, Integer(n), t);
      && x.Some? && HasScalar(t, x.value) && x.value.bits % Range(Width(t)) == n % Range(Width(t))
  {
    hide Range, Width;
  }

  /** What is printed of the other scalars. */
  lemma PrintedScalar(t: ScalarType, v: Value)
    requires HasScalar(t, v)
    ensures t == PvBoolean ==> ShowScalar(t, v) == Boolean(v.bits > 0)
    ensures t == PvString ==> ShowScalar(t, v) == Str(v.text)
    ensures t == PvFloat || t == PvDouble ==> ShowScalar(t, v) == Real(v.bits)
  {}

  /** A union is printed as the value that it holds, or as null. */
  lemma PrintedUnion(id: string, ms: seq<Member>, o: nat, v: Value, mask: Option<set<nat>>)
    requires Showable(Union(id, ms), v)
    ensures v == Nothing ==> ShowField(Union(id, ms), o, v, mask) == [Null]
    ensures v.Variant? ==> Showable(v.dynamicType, v.value) && ShowField(Union(id, ms), o, v, mask) == ShowField(v.dynamicType, 0, v.value, None)
    ensures v.Selected? ==> v.selector < |ms| && Showable(ms[v.selector].field, v.value)
    ensures v.Selected? ==>
      ShowField(Union(id, ms), o, v, mask) == ShowField(ms[v.selector].field, 0, v.value, None)
  {}

  lemma ScalarEvent(convert: Convert, t: ScalarType, v: Value)
    requires HasScalar(t, v) && (t == PvBoolean ==> v.bits <= 1)
    ensures IsValue(ShowScalar(t, v)) && Cast(convert, ShowScalar(t, v), t) == Some(v)
  {
    hide Range, Width, ToInt64;
    if IsInteger(t) { IntegerRoundTrip(t, v.bits); }
  }

  // ----- one field -----

  /** The state in which `fr` is the top of the stack. */
  function On(rest: seq<Frame>, fr: Frame, reported: set<nat>): State {
    State(rest + [fr], reported, None)
  }

  /** The field on top of the stack is complete. */
  function Done(rest: seq<Frame>, fr: Frame, v: Value, reported: set<nat>): State {
    Pop(On(rest, fr.(value := v), reported))
  }

  function ReportedBy(fr: Frame, mask: Option<set<nat>>): set<nat> {
    if fr.offset.Some? then Reported(fr.field, fr.offset.value, mask) else {}
  }

  lemma OnTop(rest: seq<Frame>, fr: Frame, reported: set<nat>)
    ensures var s := On(rest, fr, reported);
      s.stack != [] && Last(s.stack) == fr && s.stack[..|s.stack| - 1] == rest
  {}

  lemma RunFirst(convert: Convert, s: State, e: Event, tail: seq<Event>)
    requires s.stack != []
    ensures Run(convert, s, [e] + tail) == match Step(convert, s, e) case None => None case Some(t) => Run(convert, t, tail)
  {
    hide Step;
    assert ([e] + tail)[1..] == tail;
  }

  lemma ScalarFits(t: ScalarType, v: Value)
    ensures Fits(Scalar(t), v)
  {}

  lemma ScalarRun(convert: Convert, rest: seq<Frame>, fr: Frame, reported: set<nat>, t: ScalarType, v: Value, tail: seq<Event>)
    requires fr.field == Scalar(t) || (fr.field.BoundedString? && t == PvString)
    requires HasScalar(t, v) && (t == PvBoolean ==> v.bits <= 1)
    ensures Run(convert, On(rest, fr, reported), [ShowScalar(t, v)] + tail)
            == if Fits(fr.field, v)
               then Run(convert, Done(rest, fr, v, reported + if fr.offset.Some? then {fr.offset.value} else {}), tail) else None
  {
    hide Cast, ShowScalar, HasScalar, Pop, Run, Fits;
    var s, e := On(rest, fr, reported), ShowScalar(t, v);
    OnTop(rest, fr, reported);
    OnTop(rest, fr.(value := v), reported);
    ScalarEvent(convert, t, v);
    ScalarFits(t, v);
    RunFirst(convert, s, e, tail);
    assert WithTop(s, fr.(value := v)) == On(rest, fr.(value := v), reported);
    if fr.offset == None { assert reported + {} == reported; }
  }

  /** A text that is longer than its bound is printed, but refused when it is read. */
  lemma LongTextRefused(convert: Convert, rest: seq<Frame>, fr: Frame, reported: set<nat>, v: Value, tail: seq<Event>)
    requires fr.field.BoundedString? && HasScalar(PvString, v) && !Fits(fr.field, v)
    ensures Run(convert, On(rest, fr, reported), [ShowScalar(PvString, v)] + tail) == None
  {
    hide Cast, ShowScalar, HasScalar, Pop, Run, Fits;
    OnTop(rest, fr, reported);
    ScalarEvent(convert, PvString, v);
    RunFirst(convert, On(rest, fr, reported), ShowScalar(PvString, v), tail);
  }

  /** The elements of an array of scalars are appended one by one. */
  function AppendAll(d: Value, vs: seq<Value>): Value
    decreases |vs|
  {
    if vs == [] then d else AppendAll(Appended(d, vs[0]), vs[1..])
  }

  lemma RoomStep(f: Field, len: nat, k: nat)
    requires k > 0
    ensures Room(f, len, k) <==> Room(f, len, 1) && Room(f, len + 1, k - 1)
  {}

  lemma NoElements(f: Field, len: nat)
    ensures Room(f, len, 0)
  {}

  /** The array holds strings or numbers, as its type says. */
  predicate HoldsElements(t: ScalarType, d: Value) {
    if t == PvString then d.Texts? else d.Numbers?
  }

  lemma {:induction false} ElementsRun(convert: Convert, rest: seq<Frame>, fr: Frame, reported: set<nat>, t: ScalarType, vs: seq<Value>, tail: seq<Event>)
    requires IsScalarArray(fr.field) && fr.field.elementType == t && HoldsElements(t, fr.value)
    requires forall i | 0 <= i < |vs| :: HasScalar(t, vs[i]) && (t == PvBoolean ==> vs[i].bits <= 1)
    ensures Run(convert, On(rest, fr, reported), ShowAll(t, vs) + tail)
            == if Room(fr.field, LengthOf(fr.value), |vs|)
               then Run(convert, On(rest, fr.(value := AppendAll(fr.value, vs)), reported), tail) else None
    decreases |vs|
  {
    hide Run, ShowScalar, Room, Appended, LengthOf;
    if vs == [] {
      assert ShowAll(t, vs) + tail == tail;
      NoElements(fr.field, LengthOf(fr.value));
    } else {
      var more := ShowAll(t, vs[1..]) + tail;
      assert ShowAll(t, vs) + tail == [ShowScalar(t, vs[0])] + more;
      RoomStep(fr.field, LengthOf(fr.value), |vs|);
      ElementRun(convert, rest, fr, reported, t, vs[0], more);
      if Room(fr.field, LengthOf(fr.value), 1) {
        ElementsRun(convert, rest, fr.(value := Appended(fr.value, vs[0])), reported, t, vs[1..], tail);
      }
    }
  }

  /** One element is appended, or refused. */
  lemma ElementRun(convert: Convert, rest: seq<Frame>, fr: Frame, reported: set<nat>, t: ScalarType, x: Value, tail: seq<Event>)
    requires IsScalarArray(fr.field) && fr.field.elementType == t && HoldsElements(t, fr.value)
    requires HasScalar(t, x) && (t == PvBoolean ==> x.bits <= 1)
    ensures HoldsElements(t, Appended(fr.value, x)) && LengthOf(Appended(fr.value, x)) == LengthOf(fr.value) + 1
    ensures Run(convert, On(rest, fr, reported), [ShowScalar(t, x)] + tail)
            == if Room(fr.field, LengthOf(fr.value), 1)
               then Run(convert, On(rest, fr.(value := Appended(fr.value, x)), reported), tail) else None
  {
    hide Cast, ShowScalar, Pop, Run, Width;
    var s, next := On(rest, fr, reported), fr.(value := Appended(fr.value, x));
    OnTop(rest, fr, reported);
    ScalarEvent(convert, t, x);
    RunFirst(convert, s, ShowScalar(t, x), tail);
    assert WithTop(s, next) == On(rest, next, reported);
  }

  lemma {:induction false} AppendTexts(d: Value, xs: seq<Bytes>)
    requires d.Texts?
    ensures AppendAll(d, seq(|xs|, i requires 0 <= i < |xs| => Text(xs[i]))) == Texts(d.texts + xs)
    decreases |xs|
  {
    var vs := seq(|xs|, i requires 0 <= i < |xs| => Text(xs[i]));
    if xs == [] {
      assert d.texts + xs == d.texts;
    } else {
      var ys := xs[1..];
      assert vs[1..] == seq(|ys|, i requires 0 <= i < |ys| => Text(ys[i]));
      AppendTexts(Texts(d.texts + [xs[0]]), ys);
      assert d.texts + [xs[0]] + ys == d.texts + xs;
    }
  }

  lemma {:induction false} AppendNumbers(d: Value, xs: seq<nat>)
    requires d.Numbers?
    ensures AppendAll(d, seq(|xs|, i requires 0 <= i < |xs| => Number(xs[i]))) == Numbers(d.elements + xs)
    decreases |xs|
  {
    var vs := seq(|xs|, i requires 0 <= i < |xs| => Number(xs[i]));
    if xs == [] {
      assert d.elements + xs == d.elements;
    } else {
      var ys := xs[1..];
      assert vs[1..] == seq(|ys|, i requires 0 <= i < |ys| => Number(ys[i]));
      AppendNumbers(Numbers(d.elements + [xs[0]]), ys);
      assert d.elements + [xs[0]] + ys == d.elements + xs;
    }
  }

  // ----- structures -----

  lemma {:induction false} PrintableMember(ms: seq<Member>, i: nat)
    requires PrintableAll(ms) && i < |ms|
    ensures Printable(ms[i].field)
    decreases i
  {
    if i > 0 { PrintableMember(ms[1..], i - 1); }
  }

  /** The frame of subfield `i`. */
  function Child(fr: Frame, i: nat): Frame
    requires fr.field.Structure? && i < |fr.field.members| && fr.value.Struct? && i < |fr.value.fields|
  {
    Frame(fr.field.members[i].field, fr.value.fields[i], i,
          match fr.offset case None => None case Some(o) => Some(o + 1 + SizeAll(fr.field.members[..i])))
  }

  lemma KeyRun(convert: Convert, rest: seq<Frame>, fr: Frame, reported: set<nat>, i: nat, tail: seq<Event>)
    requires fr.field.Structure? && WellNamedAll(fr.field.members) && i < |fr.field.members|
    requires fr.value.Struct? && |fr.value.fields| == |fr.field.members|
    ensures Run(convert, On(rest, fr, reported), [Key(fr.field.members[i].name)] + tail)
            == Run(convert, On(rest + [fr], Child(fr, i), reported), tail)
  {
    hide Run, Pop, SizeAll;
    var s := On(rest, fr, reported);
    OnTop(rest, fr, reported);
    PositionOf(fr.field.members, i);
    RunFirst(convert, s, Key(fr.field.members[i].name), tail);
  }

  lemma ChildDone(rest: seq<Frame>, fr: Frame, i: nat, v: Value, reported: set<nat>)
    requires fr.field.Structure? && i < |fr.field.members| && fr.value.Struct? && |fr.value.fields| == |fr.field.members|
    ensures Done(rest + [fr], Child(fr, i), v, reported)
            == On(rest, fr.(value := Struct(fr.value.fields[i := v])), reported)
  {
    hide SizeAll;
    OnTop(rest + [fr], Child(fr, i).(value := v), reported);
    OnTop(rest, fr, reported);
    assert (rest + [fr])[..|rest|] == rest;
  }

  lemma EndMapRun(convert: Convert, s: State, tail: seq<Event>)
    requires s.stack != []
    ensures Run(convert, s, [EndMap] + tail) == Run(convert, Pop(s), tail)
  {
    hide Run, Pop;
    RunFirst(convert, s, EndMap, tail);
  }

  /** What is shown of the members from `i` on. */
  function Rest(f: Field, o: nat, v: Value, mask: Option<set<nat>>, i: nat): seq<Event>
    requires f.Structure? && Showable(f, v) && i <= |f.members|
  {
    ShowFields(f.members[i..], o + 1 + SizeAll(f.members[..i]), v.fields[i..], mask)
  }

  function MergedRest(f: Field, o: nat, ds: seq<Value>, v: Value, mask: Option<set<nat>>, i: nat): seq<Value>
    requires f.Structure? && Showable(f, v) && |ds| == |f.members| && i <= |f.members|
  {
    MergeFields(f.members[i..], o + 1 + SizeAll(f.members[..i]), ds[i..], v.fields[i..], mask)
  }

  predicate ReadableRest(f: Field, o: nat, ds: seq<Value>, v: Value, mask: Option<set<nat>>, i: nat)
    requires f.Structure? && Showable(f, v) && |ds| == |f.members| && i <= |f.members|
  {
    ReadableFields(f.members[i..], o + 1 + SizeAll(f.members[..i]), ds[i..], v.fields[i..], mask)
  }

  function ReportedRest(fr: Frame, mask: Option<set<nat>>, i: nat): set<nat>
    requires fr.field.Structure? && i <= |fr.field.members|
  {
    if fr.offset.Some?
    then ReportedAll(fr.field.members[i..], fr.offset.value + 1 + SizeAll(fr.field.members[..i]), mask) else {}
  }

  predicate LeftOut(f: Field, o: nat, mask: Option<set<nat>>, i: nat)
    requires f.Structure? && i < |f.members|
  {
    mask.Some? && o + 1 + SizeAll(f.members[..i]) !in mask.value
  }

  lemma RestStep(f: Field, o: nat, ds: seq<Value>, v: Value, mask: Option<set<nat>>, i: nat)
    requires f.Structure? && Showable(f, v) && |ds| == |f.members| && i < |f.members|
    ensures Showable(f.members[i].field, v.fields[i])
    ensures var o1, g := o + 1 + SizeAll(f.members[..i]), f.members[i].field;
      && Rest(f, o, v, mask, i) ==
         (if LeftOut(f, o, mask, i) then [] else [Key(f.members[i].name)] + ShowField(g, o1, v.fields[i], mask)) + Rest(f, o, v, mask, i + 1)
      && MergedRest(f, o, ds, v, mask, i) ==
         [if LeftOut(f, o, mask, i) then ds[i] else Merge(g, o1, ds[i], v.fields[i], mask)] + MergedRest(f, o, ds, v, mask, i + 1)
      && (ReadableRest(f, o, ds, v, mask, i) <==>
          (LeftOut(f, o, mask, i) || Readable(g, o1, ds[i], v.fields[i], mask)) && ReadableRest(f, o, ds, v, mask, i + 1))
  {
    hide ShowField, Merge, Readable, Showable;
    var ms := f.members;
    assert Showable(ms[i].field, v.fields[i]) by { FieldType(f, v, i); }
    PrefixSize(ms, i);
    assert ms[i..][0] == ms[i] && ms[i..][1..] == ms[i + 1..];
    assert v.fields[i..][0] == v.fields[i] && v.fields[i..][1..] == v.fields[i + 1..];
    assert ds[i..][0] == ds[i] && ds[i..][1..] == ds[i + 1..];
  }

  lemma FieldType(f: Field, v: Value, i: nat)
    requires f.Structure? && Showable(f, v) && i < |f.members|
    ensures v.Struct? && |v.fields| == |f.members| && Showable(f.members[i].field, v.fields[i])
  {}

  lemma ReportedStep(fr: Frame, mask: Option<set<nat>>, i: nat)
    requires fr.field.Structure? && i < |fr.field.members| && fr.value.Struct? && i < |fr.value.fields|
    requires fr.offset == None ==> mask == None
    ensures var o := if fr.offset.Some? then fr.offset.value else 0;
      ReportedRest(fr, mask, i) ==
      (if LeftOut(fr.field, o, mask, i) then {} else ReportedBy(Child(fr, i), mask)) + ReportedRest(fr, mask, i + 1)
  {
    hide Reported;
    var ms := fr.field.members;
    PrefixSize(ms, i);
    assert ms[i..][0] == ms[i] && ms[i..][1..] == ms[i + 1..];
  }

  // ----- the round trip -----

  /** The value has the right number of subfields everywhere. */
  predicate HasShape(f: Field, d: Value)
    decreases d
  {
    match f
    case Structure(_, ms) => d.Struct? && |d.fields| == |ms| && forall i | 0 <= i < |ms| :: HasShape(ms[i].field, d.fields[i])
    case ScalarArray(t) => HoldsElements(t, d)
    case BoundedScalarArray(t, _) => HoldsElements(t, d)
    case FixedScalarArray(t, _) => HoldsElements(t, d)
    case StructureArray(_) => d.Structs?
    case _ => true
  }

  lemma {:induction false} MergeShape(f: Field, o: nat, d: Value, v: Value, mask: Option<set<nat>>)
    requires Showable(f, v) && HasShape(f, d)
    ensures HasShape(f, Merge(f, o, d, v, mask))
    decreases v, 1
  {
    hide HasArray, HasScalar;
    match f
    case Structure(_, ms) => MergeShapes(ms, o + 1, d.fields, v.fields, mask);
    case _ =>
  }

  lemma {:induction false} MergeShapes(ms: seq<Member>, o: nat, ds: seq<Value>, vs: seq<Value>, mask: Option<set<nat>>)
    requires |vs| == |ms| == |ds| && forall i | 0 <= i < |ms| :: Showable(ms[i].field, vs[i])
    requires forall i | 0 <= i < |ms| :: HasShape(ms[i].field, ds[i])
    ensures forall i | 0 <= i < |ms| :: HasShape(ms[i].field, MergeFields(ms, o, ds, vs, mask)[i])
    decreases vs, 0
  {
    hide Merge, HasShape, Showable;
    if vs != [] {
      MergeShape(ms[0].field, o, ds[0], vs[0], mask);
      MergeShapes(ms[1..], o + Size(ms[0].field), ds[1..], vs[1..], mask);
    }
  }

  lemma {:induction false} DefaultShape(f: Field)
    ensures HasShape(f, Default(f))
    decreases f, 1
  {
    match f
    case Structure(_, ms) => DefaultShapes(ms);
    case _ =>
  }

  lemma {:induction false} DefaultShapes(ms: seq<Member>)
    ensures |Defaults(ms)| == |ms| && forall i | 0 <= i < |ms| :: HasShape(ms[i].field, Defaults(ms)[i])
    decreases ms, 0
  {
    if ms != [] {
      DefaultShape(ms[0].field);
      DefaultShapes(ms[1..]);
    }
  }

  lemma ShapeOfField(f: Field, d: Value, i: nat)
    requires f.Structure? && HasShape(f, d) && i < |f.members|
    ensures d.Struct? && |d.fields| == |f.members| && HasShape(f.members[i].field, d.fields[i])
  {}

  /** A frame into which a value can be parsed: offsets are reported where the mask is used. */
  predicate Ready(fr: Frame, o: nat, mask: Option<set<nat>>) {
    && Printable(fr.field) && HasShape(fr.field, fr.value)
    && (fr.offset.Some? ==> fr.offset.value == o) && (fr.offset == None ==> mask == None)
  }

  lemma ChildReady(fr: Frame, o: nat, mask: Option<set<nat>>, i: nat)
    requires Ready(fr, o, mask) && fr.field.Structure? && i < |fr.field.members|
    ensures fr.value.Struct? && |fr.value.fields| == |fr.field.members|
    ensures Ready(Child(fr, i), o + 1 + SizeAll(fr.field.members[..i]), mask)
  {
    hide HasShape;
    ShapeOfField(fr.field, fr.value, i);
    PrintableMember(fr.field.members, i);
  }

  /** Printing a field and feeding the events to the parser completes the field on top of the
      stack with the merged value and reports the offsets of what was printed, if that can be read;
      if not, there is an error. */
  lemma {:induction false} FieldRun(convert: Convert, rest: seq<Frame>, fr: Frame, reported: set<nat>, o: nat, v: Value,
                                    mask: Option<set<nat>>, tail: seq<Event>)
    requires Ready(fr, o, mask) && Showable(fr.field, v) && Regular(fr.field, v)
    ensures Run(convert, On(rest, fr, reported), ShowField(fr.field, o, v, mask) + tail)
            == if Readable(fr.field, o, fr.value, v, mask)
               then Run(convert, Done(rest, fr, Merge(fr.field, o, fr.value, v, mask), reported + ReportedBy(fr, mask)), tail) else None
    decreases v, 3
  {
    hide Run, Pop, ShowFields, MergeFields, ReadableFields, ShowItems, MergeItems, ReadableItems, ShowElements, ReportedAll, HasScalar, HasArray;
    match fr.field
    case Scalar(t) => ScalarRun(convert, rest, fr, reported, t, v, tail);
    case BoundedString(_) => ScalarRun(convert, rest, fr, reported, PvString, v, tail);
    case ScalarArray(_) => ArrayRun(convert, rest, fr, reported, o, v, mask, tail);
    case BoundedScalarArray(_, _) => ArrayRun(convert, rest, fr, reported, o, v, mask, tail);
    case FixedScalarArray(_, _) => ArrayRun(convert, rest, fr, reported, o, v, mask, tail);
    case Structure(_, ms) =>
      var body := ShowFields(ms, o + 1, v.fields, mask) + ([EndMap] + tail);
      assert ShowField(fr.field, o, v, mask) + tail == [StartMap] + body;
      OnTop(rest, fr, reported);
      RunFirst(convert, On(rest, fr, reported), StartMap, body);
      BodyRun(convert, rest, fr, reported, o, v, mask, tail);
    case StructureArray(e) => ItemsArrayRun(convert, rest, fr, reported, o, v, mask, tail);
  }

  function ElementValues(t: ScalarType, v: Value): seq<Value>
    requires HasArray(t, v)
  {
    if t == PvString then seq(|v.texts|, i requires 0 <= i < |v.texts| => Text(v.texts[i]))
    else seq(|v.elements|, i requires 0 <= i < |v.elements| => Number(v.elements[i]))
  }

  lemma ElementsJoin(t: ScalarType, d: Value, v: Value)
    requires HasArray(t, v) && HoldsElements(t, d)
    ensures AppendAll(d, ElementValues(t, v)) == Joined(d, v) && |ElementValues(t, v)| == LengthOf(v)
    ensures forall i | 0 <= i < |ElementValues(t, v)| :: HasScalar(t, ElementValues(t, v)[i])
    ensures t == PvBoolean && RegularElements(t, v) ==> forall i | 0 <= i < |ElementValues(t, v)| :: ElementValues(t, v)[i].bits <= 1
    ensures ShowElements(t, v) == ShowAll(t, ElementValues(t, v))
  {
    hide ShowAll, Width, Range, AppendAll;
    if t == PvString { AppendTexts(d, v.texts); } else { AppendNumbers(d, v.elements); }
  }

  lemma ArrayRun(convert: Convert, rest: seq<Frame>, fr: Frame, reported: set<nat>, o: nat, v: Value,
                 mask: Option<set<nat>>, tail: seq<Event>)
    requires Ready(fr, o, mask) && IsScalarArray(fr.field) && Showable(fr.field, v) && Regular(fr.field, v)
    ensures Run(convert, On(rest, fr, reported), ShowField(fr.field, o, v, mask) + tail)
            == if Readable(fr.field, o, fr.value, v, mask)
               then Run(convert, Done(rest, fr, Merge(fr.field, o, fr.value, v, mask), reported + ReportedBy(fr, mask)), tail) else None
  {
    hide Run, Pop, ShowAll, HasScalar, HasArray, RegularElements, ShowElements, ElementValues, Joined, Room;
    var t := fr.field.elementType;
    var more := ShowElements(t, v) + ([EndArray] + tail);
    assert ShowField(fr.field, o, v, mask) + tail == [StartArray] + more;
    OnTop(rest, fr, reported);
    RunFirst(convert, On(rest, fr, reported), StartArray, more);
    ElementsJoin(t, fr.value, v);
    ElementsRun(convert, rest, fr, reported, t, ElementValues(t, v), [EndArray] + tail);
    EndArrayRun(convert, rest, fr.(value := Joined(fr.value, v)), reported, mask, tail);
  }

  lemma EndArrayRun(convert: Convert, rest: seq<Frame>, fr: Frame, reported: set<nat>, mask: Option<set<nat>>, tail: seq<Event>)
    requires !fr.field.Structure?
    ensures Run(convert, On(rest, fr, reported), [EndArray] + tail)
            == Run(convert, Done(rest, fr, fr.value, reported + ReportedBy(fr, mask)), tail)
  {
    hide Run, Pop;
    OnTop(rest, fr, reported);
    RunFirst(convert, On(rest, fr, reported), EndArray, tail);
    assert reported + {} == reported;
  }

  lemma {:induction false} BodyRun(convert: Convert, rest: seq<Frame>, fr: Frame, reported: set<nat>, o: nat, v: Value,
                                   mask: Option<set<nat>>, tail: seq<Event>)
    requires Ready(fr, o, mask) && fr.field.Structure? && Showable(fr.field, v) && Regular(fr.field, v)
    ensures Run(convert, On(rest, fr, reported), ShowFields(fr.field.members, o + 1, v.fields, mask) + ([EndMap] + tail))
            == if Readable(fr.field, o, fr.value, v, mask)
               then Run(convert, Done(rest, fr, Merge(fr.field, o, fr.value, v, mask), reported + ReportedBy(fr, mask)), tail) else None
    decreases v, 2
  {
    hide Run, Pop, ShowFields, MergeFields, ReadableFields, ReportedAll, Regular, Showable, HasShape, Printable;
    var f, ms := fr.field, fr.field.members;
    StructValues(fr, o, v, mask);
    FieldsRun(convert, rest, fr, reported, o, v, mask, 0, [EndMap] + tail);
    var merged := Merge(f, o, fr.value, v, mask);
    var after := On(rest, fr.(value := merged), reported + ReportedBy(fr, mask));
    assert ms[0..] == ms && ms[..0] == [] && v.fields[0..] == v.fields && fr.value.fields[0..] == fr.value.fields;
    assert fr.value.fields[..0] + MergedRest(f, o, fr.value.fields, v, mask, 0) == MergedRest(f, o, fr.value.fields, v, mask, 0);
    OnTop(rest, fr.(value := merged), reported + ReportedBy(fr, mask));
    EndMapRun(convert, after, tail);
  }

  lemma StructValues(fr: Frame, o: nat, v: Value, mask: Option<set<nat>>)
    requires Ready(fr, o, mask) && fr.field.Structure? && Showable(fr.field, v)
    ensures fr.value.Struct? && v.Struct? && |fr.value.fields| == |v.fields| == |fr.field.members|
    ensures WellNamedAll(fr.field.members) && PrintableAll(fr.field.members)
    ensures forall i | 0 <= i < |fr.field.members| :: Showable(fr.field.members[i].field, v.fields[i])
    ensures Merge(fr.field, o, fr.value, v, mask) == Struct(MergeFields(fr.field.members, o + 1, fr.value.fields, v.fields, mask))
    ensures Readable(fr.field, o, fr.value, v, mask) <==> ReadableFields(fr.field.members, o + 1, fr.value.fields, v.fields, mask)
  {
    hide MergeFields, ReadableFields;
  }

  lemma RegularField(f: Field, v: Value, i: nat)
    requires f.Structure? && Showable(f, v) && Regular(f, v) && i < |f.members|
    ensures v.Struct? && |v.fields| == |f.members| && Showable(f.members[i].field, v.fields[i]) && Regular(f.members[i].field, v.fields[i])
  {}

  /** The members from `i` on. */
  lemma {:induction false} FieldsRun(convert: Convert, rest: seq<Frame>, fr: Frame, reported: set<nat>, o: nat, v: Value,
                                     mask: Option<set<nat>>, i: nat, tail: seq<Event>)
    requires Ready(fr, o, mask) && fr.field.Structure? && Showable(fr.field, v) && Regular(fr.field, v) && i <= |fr.field.members|
    ensures fr.value.Struct? && |fr.value.fields| == |fr.field.members|
    ensures Run(convert, On(rest, fr, reported), Rest(fr.field, o, v, mask, i) + tail)
            == if ReadableRest(fr.field, o, fr.value.fields, v, mask, i)
               then Run(convert, On(rest, fr.(value := Struct(fr.value.fields[..i] + MergedRest(fr.field, o, fr.value.fields, v, mask, i))),
                                    reported + ReportedRest(fr, mask, i)), tail) else None
    decreases v, 1, |fr.field.members| - i
  {
    hide Run, Pop, ShowField, Merge, Readable, Rest, MergedRest, ReadableRest, ReportedRest, Regular, Showable, HasShape, Printable, Reported, LeftOut, SizeAll;
    StructValues(fr, o, v, mask);
    var f, ds := fr.field, fr.value.fields;
    if i == |f.members| {
      NoMembers(fr, o, v, mask);
      assert ds[..i] + [] == ds && reported + {} == reported;
      assert [] + tail == tail;
      assert fr.(value := Struct(ds)) == fr;
    } else {
      RestStep(f, o, ds, v, mask, i);
      ReportedStep(fr, mask, i);
      NoOffset(fr, mask, i);
      if LeftOut(f, o, mask, i) {
        FieldsRun(convert, rest, fr, reported, o, v, mask, i + 1, tail);
        assert ds[..i + 1] == ds[..i] + [ds[i]];
        assert ds[..i] + ([ds[i]] + MergedRest(f, o, ds, v, mask, i + 1)) == ds[..i + 1] + MergedRest(f, o, ds, v, mask, i + 1);
        assert [] + Rest(f, o, v, mask, i + 1) == Rest(f, o, v, mask, i + 1);
        assert {} + ReportedRest(fr, mask, i + 1) == ReportedRest(fr, mask, i + 1);
      } else {
        MemberRun(convert, rest, fr, reported, o, v, mask, i, tail);
      }
    }
  }

  lemma NoOffset(fr: Frame, mask: Option<set<nat>>, i: nat)
    requires fr.field.Structure? && i < |fr.field.members| && (fr.offset == None ==> mask == None)
    ensures fr.offset == None ==> forall o :: !LeftOut(fr.field, o, mask, i)
  {}

  lemma NoMembers(fr: Frame, o: nat, v: Value, mask: Option<set<nat>>)
    requires fr.field.Structure? && Showable(fr.field, v) && fr.value.Struct? && |fr.value.fields| == |fr.field.members|
    ensures var n := |fr.field.members|;
      && Rest(fr.field, o, v, mask, n) == [] && MergedRest(fr.field, o, fr.value.fields, v, mask, n) == [] && ReportedRest(fr, mask, n) == {}
      && ReadableRest(fr.field, o, fr.value.fields, v, mask, n)
  {}

  /** A member that is printed. */
  lemma {:induction false} MemberRun(convert: Convert, rest: seq<Frame>, fr: Frame, reported: set<nat>, o: nat, v: Value,
                                     mask: Option<set<nat>>, i: nat, tail: seq<Event>)
    requires Ready(fr, o, mask) && fr.field.Structure? && Showable(fr.field, v) && Regular(fr.field, v) && i < |fr.field.members|
    requires !LeftOut(fr.field, o, mask, i)
    ensures fr.value.Struct? && |fr.value.fields| == |fr.field.members|
    ensures Run(convert, On(rest, fr, reported), Rest(fr.field, o, v, mask, i) + tail)
            == if ReadableRest(fr.field, o, fr.value.fields, v, mask, i)
               then Run(convert, On(rest, fr.(value := Struct(fr.value.fields[..i] + MergedRest(fr.field, o, fr.value.fields, v, mask, i))),
                                    reported + ReportedRest(fr, mask, i)), tail) else None
    decreases v, 1, |fr.field.members| - i, 0
  {
    hide Run, Pop, ShowField, Merge, Readable, Rest, MergedRest, ReadableRest, ReportedRest, Regular, Showable, HasShape, Printable, Reported, LeftOut, SizeAll;
    StructValues(fr, o, v, mask);
    var f, ds := fr.field, fr.value.fields;
    var o1, g, child := o + 1 + SizeAll(f.members[..i]), f.members[i].field, Child(fr, i);
    var events, more := ShowField(g, o1, v.fields[i], mask), Rest(f, o, v, mask, i + 1) + tail;
    RestStep(f, o, ds, v, mask, i);
    ReportedStep(fr, mask, i);
    ChildReady(fr, o, mask, i);
    RegularField(f, v, i);
    NoOffset(fr, mask, i);
    assert Rest(f, o, v, mask, i) + tail == [Key(f.members[i].name)] + (events + more);
    KeyRun(convert, rest, fr, reported, i, events + more);
    FieldRun(convert, rest + [fr], child, reported, o1, v.fields[i], mask, more);
    if !Readable(g, o1, ds[i], v.fields[i], mask) {
      return;
    }
    var m, seen := Merge(g, o1, ds[i], v.fields[i], mask), reported + ReportedBy(child, mask);
    ChildDone(rest, fr, i, m, seen);
    var next := fr.(value := Struct(ds[i := m]));
    MergeShape(g, o1, ds[i], v.fields[i], mask);
    NextReady(fr, o, mask, i, m);
    FieldsRun(convert, rest, next, seen, o, v, mask, i + 1, tail);
    SameRest(f, o, ds, v, mask, i, m);
    assert ds[i := m][..i + 1] == ds[..i] + [m];
    assert ds[..i] + ([m] + MergedRest(f, o, ds, v, mask, i + 1)) == ds[..i] + [m] + MergedRest(f, o, ds, v, mask, i + 1);
    assert ReportedRest(next, mask, i + 1) == ReportedRest(fr, mask, i + 1) by { SameReported(fr, next, mask, i + 1); }
    assert seen + ReportedRest(fr, mask, i + 1) == reported + (ReportedBy(child, mask) + ReportedRest(fr, mask, i + 1));
  }

  lemma SameReported(a: Frame, b: Frame, mask: Option<set<nat>>, i: nat)
    requires a.field == b.field && a.offset == b.offset && a.field.Structure? && i <= |a.field.members|
    ensures ReportedRest(a, mask, i) == ReportedRest(b, mask, i)
  {}

  lemma SameRest(f: Field, o: nat, ds: seq<Value>, v: Value, mask: Option<set<nat>>, i: nat, m: Value)
    requires f.Structure? && Showable(f, v) && |ds| == |f.members| && i < |f.members|
    ensures MergedRest(f, o, ds[i := m], v, mask, i + 1) == MergedRest(f, o, ds, v, mask, i + 1)
    ensures ReadableRest(f, o, ds[i := m], v, mask, i + 1) <==> ReadableRest(f, o, ds, v, mask, i + 1)
  {
    assert ds[i := m][i + 1..] == ds[i + 1..];
  }

  lemma NextReady(fr: Frame, o: nat, mask: Option<set<nat>>, i: nat, m: Value)
    requires Ready(fr, o, mask) && fr.field.Structure? && i < |fr.field.members| && HasShape(fr.field.members[i].field, m)
    requires fr.value.Struct? && |fr.value.fields| == |fr.field.members|
    ensures Ready(fr.(value := Struct(fr.value.fields[i := m])), o, mask)
  {}

  // ----- arrays of structures -----

  lemma {:induction false} ItemsArrayRun(convert: Convert, rest: seq<Frame>, fr: Frame, reported: set<nat>, o: nat, v: Value,
                                         mask: Option<set<nat>>, tail: seq<Event>)
    requires Ready(fr, o, mask) && fr.field.StructureArray? && Showable(fr.field, v) && Regular(fr.field, v)
    ensures Run(convert, On(rest, fr, reported), ShowField(fr.field, o, v, mask) + tail)
            == if Readable(fr.field, o, fr.value, v, mask)
               then Run(convert, Done(rest, fr, Merge(fr.field, o, fr.value, v, mask), reported + ReportedBy(fr, mask)), tail) else None
    decreases v, 2
  {
    hide Run, Pop, ShowItems, MergeItems, ReadableItems;
    var e := fr.field.element;
    var more := ShowItems(e, v.items) + ([EndArray] + tail);
    assert ShowField(fr.field, o, v, mask) + tail == [StartArray] + more;
    OnTop(rest, fr, reported);
    RunFirst(convert, On(rest, fr, reported), StartArray, more);
    ItemsRun(convert, rest, fr, reported, v.items, [EndArray] + tail);
    EndArrayRun(convert, rest, fr.(value := Merge(fr.field, o, fr.value, v, mask)), reported, mask, tail);
  }

  lemma {:induction false} ItemsRun(convert: Convert, rest: seq<Frame>, fr: Frame, reported: set<nat>, items: seq<Option<Value>>, tail: seq<Event>)
    requires fr.field.StructureArray? && Printable(fr.field) && fr.value.Structs?
    requires forall i | 0 <= i < |items| && items[i].Some? ::
      Showable(fr.field.element, items[i].value) && Regular(fr.field.element, items[i].value)
    ensures Run(convert, On(rest, fr, reported), ShowItems(fr.field.element, items) + tail)
            == if ReadableItems(fr.field.element, items)
               then Run(convert, On(rest, fr.(value := Structs(fr.value.items + MergeItems(fr.field.element, items))), reported), tail) else None
    decreases items, 0
  {
    hide Run, ShowItem, MergeItem, ReadableItem, Showable, Regular;
    var e := fr.field.element;
    if items == [] {
      assert ShowItems(e, items) + tail == tail;
      assert fr.value.items + [] == fr.value.items;
      assert fr.(value := Structs(fr.value.items)) == fr;
    } else {
      var more := ShowItems(e, items[1..]) + tail;
      assert ShowItems(e, items) + tail == ShowItem(e, items[0]) + more;
      ItemRun(convert, rest, fr, reported, items[0], more);
      var next := fr.(value := Structs(fr.value.items + [MergeItem(e, items[0])]));
      if ReadableItem(e, items[0]) { ItemsRun(convert, rest, next, reported, items[1..], tail); }
      assert next.value.items + MergeItems(e, items[1..]) == fr.value.items + MergeItems(e, items);
    }
  }

  predicate RegularItem(e: Field, item: Option<Value>) {
    item.Some? ==> Showable(e, item.value) && Regular(e, item.value)
  }

  /** A new element is built on top of the stack and appended when it is complete. */
  lemma {:induction false} ItemRun(convert: Convert, rest: seq<Frame>, fr: Frame, reported: set<nat>, item: Option<Value>, tail: seq<Event>)
    requires fr.field.StructureArray? && Printable(fr.field) && fr.value.Structs? && RegularItem(fr.field.element, item)
    ensures Run(convert, On(rest, fr, reported), ShowItem(fr.field.element, item) + tail)
            == if ReadableItem(fr.field.element, item)
               then Run(convert, On(rest, fr.(value := Structs(fr.value.items + [MergeItem(fr.field.element, item)])), reported), tail) else None
    decreases item, 4
  {
    hide Run, Pop, ShowFields, Merge, Readable, Showable, Regular, HasShape, Default;
    var e := fr.field.element;
    match item
    case None =>
      OnTop(rest, fr, reported);
      RunFirst(convert, On(rest, fr, reported), Null, tail);
    case Some(v) =>
      var elem := Frame(e, Default(e), 0, None);
      ElementText(e, v, tail);
      var body := ShowFields(e.members, 1, v.fields, None) + ([EndMap] + tail);
      OnTop(rest, fr, reported);
      RunFirst(convert, On(rest, fr, reported), StartMap, body);
      assert On(rest, fr, reported).stack + [elem] == rest + [fr] + [elem];
      DefaultShape(e);
      BodyRun(convert, rest + [fr], elem, reported, 0, v, None, tail);
      var m := Merge(e, 0, Default(e), v, None);
      ElementDone(rest, fr, elem, m, reported);
      assert reported + {} == reported;
  }

  lemma ElementText(e: Field, v: Value, tail: seq<Event>)
    requires e.Structure? && Showable(e, v)
    ensures v.Struct? && |v.fields| == |e.members| && forall i | 0 <= i < |e.members| :: Showable(e.members[i].field, v.fields[i])
    ensures ShowField(e, 0, v, None) + tail == [StartMap] + (ShowFields(e.members, 1, v.fields, None) + ([EndMap] + tail))
  {
    hide ShowFields;
  }

  lemma ElementDone(rest: seq<Frame>, fr: Frame, elem: Frame, m: Value, reported: set<nat>)
    requires fr.value.Structs?
    ensures Done(rest + [fr], elem, m, reported) == On(rest, fr.(value := Structs(fr.value.items + [Some(m)])), reported)
  {
    OnTop(rest + [fr], elem.(value := m), reported);
    OnTop(rest, fr, reported);
    assert (rest + [fr])[..|rest|] == rest;
  }
}
