/** The limits of bounded strings and of bounded and fixed arrays, and the selectors of unions.  Receiving
    a value does not look at the limits, and keeps a selector that no member has; copying one looks at
    both, and refuses what does not fit. */
module Limits {
  import opened Fields
  import opened Values
  import opened ValueCodec

  function LengthOf(v: Value): nat {
    if v.Texts? then |v.texts| else if v.Numbers? then |v.elements| else 0
  }

  /** Copying `v` to a field of type `f` is not refused.  Unions are copied in depth; the elements of
      arrays of structures and unions are shared and not looked at. */
  predicate Fits(f: Field, v: Value)
    decreases v
  {
    match f
    case BoundedString(n) => v.Text? && n > 0 ==> |v.text| <= n
    case BoundedScalarArray(_, n) => LengthOf(v) <= n
    case FixedScalarArray(_, n) => LengthOf(v) == n
    case Structure(_, ms) => v.Struct? ==> forall i | 0 <= i < |v.fields| && i < |ms| :: Fits(ms[i].field, v.fields[i])
    case Union(_, ms) =>
      && (v.Variant? ==> Fits(v.dynamicType, v.value))
      && (v.Selected? ==> v.selector < |ms| && Fits(ms[v.selector].field, v.value))
    case _ => true
  }

  /** What a field that holds `held` holds after copying `v` to it, also when that is refused.  A union
      selects the member before it copies the value, but a new value of another variant type is copied
      before it is stored. */
  function CopyValue(f: Field, held: Value, v: Value): Value
    decreases v, 1
  {
    match f
    case BoundedString(_) => if Fits(f, v) then v else held
    case BoundedScalarArray(_, _) => if Fits(f, v) then v else held
    case FixedScalarArray(_, _) => if Fits(f, v) then v else held
    case Structure(_, ms) => if v.Struct? then Struct(CopyFields(ms, held, v.fields, 0)) else v
    case Union(_, ms) =>
      if v.Variant? then
        if held.Variant? && held.dynamicType == v.dynamicType then
          Variant(v.dynamicType, CopyValue(v.dynamicType, held.value, v.value))
        else if Fits(v.dynamicType, v.value) then v
        else held
      else if v.Selected? && v.selector >= |ms| then held
      else if v.Selected? then
        var g := ms[v.selector].field;
        var inner := if held.Selected? && held.selector == v.selector then held.value else Default(g);
        Selected(v.selector, CopyValue(g, inner, v.value))
      else v
    case _ => v
  }

  /** Somewhere both sides hold the same selector of no member.  The selection then counts as unchanged, and
      the copy goes on with the values that the two unions happen to hold. */
  predicate SameUnknown(f: Field, held: Value, v: Value)
    decreases v
  {
    match f
    case Structure(_, ms) =>
      v.Struct? && exists i | 0 <= i < |v.fields| && i < |ms| :: SameUnknown(ms[i].field, OldField(held, i, ms[i].field), v.fields[i])
    case Union(_, ms) =>
      if v.Variant? then
        held.Variant? && held.dynamicType == v.dynamicType && SameUnknown(v.dynamicType, held.value, v.value)
      else
        v.Selected? && held.Selected? && held.selector == v.selector &&
        (v.selector < |ms| ==> SameUnknown(ms[v.selector].field, held.value, v.value))
    case _ => false
  }

  /** Field after field; the fields behind one that is refused keep what they hold. */
  function CopyFields(ms: seq<Member>, held: Value, vs: seq<Value>, i: nat): seq<Value>
    decreases vs, 0
  {
    if vs == [] || ms == [] then vs
    else
      [CopyValue(ms[0].field, OldField(held, i, ms[0].field), vs[0])] +
      if Fits(ms[0].field, vs[0]) then CopyFields(ms[1..], held, vs[1..], i + 1)
      else seq(|ms| - 1, j requires 0 <= j < |ms| - 1 => OldField(held, i + 1 + j, ms[1 + j].field))
  }

  /** What fits is copied. */
  lemma {:induction false} FitsCopied(f: Field, held: Value, v: Value)
    requires Fits(f, v)
    ensures CopyValue(f, held, v) == v
    decreases v, 1
  {
    match f
    case Structure(_, ms) =>
      if v.Struct? { FieldsCopied(ms, held, v.fields, 0); }
    case Union(_, ms) =>
      if v.Variant? {
        if held.Variant? && held.dynamicType == v.dynamicType { FitsCopied(v.dynamicType, held.value, v.value); }
      } else if v.Selected? {
        var g := ms[v.selector].field;
        FitsCopied(g, if held.Selected? && held.selector == v.selector then held.value else Default(g), v.value);
      }
    case _ =>
  }

  lemma {:induction false} FieldsCopied(ms: seq<Member>, held: Value, vs: seq<Value>, i: nat)
    requires forall j | 0 <= j < |vs| && j < |ms| :: Fits(ms[j].field, vs[j])
    ensures CopyFields(ms, held, vs, i) == vs
    decreases vs, 0
  {
    hide Fits, CopyValue;
    if vs != [] && ms != [] {
      FitsCopied(ms[0].field, OldField(held, i, ms[0].field), vs[0]);
      FieldsCopied(ms[1..], held, vs[1..], i + 1);
      assert vs == [vs[0]] + vs[1..];
    }
  }

  /** A text that is too long, and an array of a length that is not allowed, is refused, and the field keeps
      what it held. */
  lemma RefusedKeeps(held: Value, text: seq<byte>, t: ScalarType, xs: seq<nat>, n: nat)
    ensures CopyValue(BoundedString(n), held, Text(text)) == if n == 0 || |text| <= n then Text(text) else held
    ensures Fits(BoundedString(n), Text(text)) <==> n == 0 || |text| <= n
    ensures CopyValue(BoundedScalarArray(t, n), held, Numbers(xs)) == if |xs| <= n then Numbers(xs) else held
    ensures Fits(BoundedScalarArray(t, n), Numbers(xs)) <==> |xs| <= n
    ensures CopyValue(FixedScalarArray(t, n), held, Numbers(xs)) == if |xs| == n then Numbers(xs) else held
    ensures Fits(FixedScalarArray(t, n), Numbers(xs)) <==> |xs| == n
  {}

  lemma RefusedTextsKeep(held: Value, t: ScalarType, xs: seq<seq<byte>>, n: nat)
    ensures CopyValue(BoundedScalarArray(t, n), held, Texts(xs)) == if |xs| <= n then Texts(xs) else held
    ensures Fits(BoundedScalarArray(t, n), Texts(xs)) <==> |xs| <= n
    ensures CopyValue(FixedScalarArray(t, n), held, Texts(xs)) == if |xs| == n then Texts(xs) else held
    ensures Fits(FixedScalarArray(t, n), Texts(xs)) <==> |xs| == n
  {}

  /** The first field of a structure that is refused divides the copy: those before it are copied, and those
      behind it keep what they held. */
  lemma {:induction false} FieldsUpTo(ms: seq<Member>, held: Value, vs: seq<Value>, i: nat, k: nat, l: nat)
    requires k < |vs| == |ms| && l < |ms| && l != k && !Fits(ms[k].field, vs[k])
    requires forall j | 0 <= j < k :: Fits(ms[j].field, vs[j])
    ensures |CopyFields(ms, held, vs, i)| == |ms|
    ensures CopyFields(ms, held, vs, i)[l] == if l < k then vs[l] else OldField(held, i + l, ms[l].field)
    decreases k
  {
    hide Fits, CopyValue, CopyFields, OldField;
    SameCount(ms, held, vs, i);
    if k > 0 {
      FirstFits(ms, held, vs, i);
      if l > 0 { FieldsUpTo(ms[1..], held, vs[1..], i + 1, k - 1, l - 1); }
    } else {
      FirstRefused(ms, held, vs, i, l);
    }
  }

  lemma FirstFits(ms: seq<Member>, held: Value, vs: seq<Value>, i: nat)
    requires |ms| == |vs| > 0 && Fits(ms[0].field, vs[0])
    ensures CopyFields(ms, held, vs, i) == [vs[0]] + CopyFields(ms[1..], held, vs[1..], i + 1)
  {
    hide Fits, CopyValue, OldField;
    FitsCopied(ms[0].field, OldField(held, i, ms[0].field), vs[0]);
  }

  lemma FirstRefused(ms: seq<Member>, held: Value, vs: seq<Value>, i: nat, l: nat)
    requires 0 < l < |ms| == |vs| && !Fits(ms[0].field, vs[0])
    ensures |CopyFields(ms, held, vs, i)| == |ms| && CopyFields(ms, held, vs, i)[l] == OldField(held, i + l, ms[l].field)
  {
    hide Fits, CopyValue, OldField;
    var j := l - 1;
    assert i + 1 + j == i + l && ms[1 + j] == ms[l];
  }

  lemma {:induction false} SameCount(ms: seq<Member>, held: Value, vs: seq<Value>, i: nat)
    requires |ms| == |vs|
    ensures |CopyFields(ms, held, vs, i)| == |ms|
    decreases |ms|
  {
    hide Fits, CopyValue;
    if ms != [] { SameCount(ms[1..], held, vs[1..], i + 1); }
  }

  /** A union whose value is refused has changed its selection all the same; a variant union only if the
      value has the type of the one it held. */
  lemma RefusedInUnion(id: string, ms: seq<Member>, k: nat, f: Field, held: Value, v: Value)
    requires !Fits(f, v)
    ensures k < |ms| && ms[k].field == f ==>
      CopyValue(Union(id, ms), held, Selected(k, v))
        == Selected(k, CopyValue(f, if held.Selected? && held.selector == k then held.value else Default(f), v))
    ensures CopyValue(Union(id, []), held, Variant(f, v))
      == if held.Variant? && held.dynamicType == f then Variant(f, CopyValue(f, held.value, v)) else held
  {}

  /** A new fixed array is empty, and is refused by every other one. */
  lemma NewFixedArray(t: ScalarType, n: nat)
    ensures Fits(FixedScalarArray(t, n), Default(FixedScalarArray(t, n))) <==> n == 0
  {}
}
