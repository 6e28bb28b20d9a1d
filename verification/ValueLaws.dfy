/** What is written is read back. */
module ValueLaws {
  import opened Fields
  import opened Values
  import opened Wire
  import opened TypeCodec
  import opened ValueCodec

  lemma {:induction false} NumbersRoundTrip(xs: seq<nat>, w: nat, big: bool, rest: Bytes)
    requires forall i | 0 <= i < |xs| :: xs[i] < Range(w)
    ensures ReadNumbers(|xs|, w, big, NumbersBytes(xs, w, big) + rest) == Parsed(xs, rest)
    decreases |xs|
  {
    hide IntBytes, ReadInt;
    if xs == [] {
      assert NumbersBytes(xs, w, big) + rest == rest;
    } else {
      var more := NumbersBytes(xs[1..], w, big) + rest;
      assert NumbersBytes(xs, w, big) + rest == IntBytes(xs[0], w, big) + more;
      ReadIntBytes(xs[0], w, big, more);
      NumbersRoundTrip(xs[1..], w, big, rest);
      assert xs == [xs[0]] + xs[1..];
    }
  }

  lemma {:induction false} TextsRoundTrip(xs: seq<Bytes>, big: bool, rest: Bytes)
    requires forall i | 0 <= i < |xs| :: |xs[i]| < MAX_SIZE
    ensures ReadTexts(|xs|, big, TextsBytes(xs, big) + rest) == Parsed(xs, rest)
    decreases |xs|
  {
    hide StringBytes, ReadString;
    if xs == [] {
      assert TextsBytes(xs, big) + rest == rest;
    } else {
      var more := TextsBytes(xs[1..], big) + rest;
      assert TextsBytes(xs, big) + rest == StringBytes(xs[0], big) + more;
      StringRoundTrip(xs[0], big, more);
      TextsRoundTrip(xs[1..], big, rest);
      assert xs == [xs[0]] + xs[1..];
    }
  }

  lemma ScalarRoundTrip(t: ScalarType, v: Value, big: bool, rest: Bytes)
    requires HasScalar(t, v)
    ensures ReadScalar(t, big, ScalarBytes(t, v, big) + rest) == Parsed(v, rest)
  {
    hide StringBytes, ReadString, IntBytes, ReadInt;
    if t == PvString { StringRoundTrip(v.text, big, rest); } else { ReadIntBytes(v.bits, Width(t), big, rest); }
  }

  lemma ElementsRoundTrip(t: ScalarType, v: Value, big: bool, rest: Bytes)
    requires HasArray(t, v)
    ensures ReadElements(t, ArrayLength(v), big, ElementsBytes(t, v, big) + rest) == Parsed(v, rest)
  {
    hide TextsBytes, ReadTexts, NumbersBytes, ReadNumbers;
    if t == PvString { TextsRoundTrip(v.texts, big, rest); } else { NumbersRoundTrip(v.elements, Width(t), big, rest); }
  }

  lemma SizedElementsRoundTrip(t: ScalarType, v: Value, big: bool, rest: Bytes)
    requires HasArray(t, v)
    ensures ReadSizedElements(t, big, SizeBytes(ArrayLength(v), big) + ElementsBytes(t, v, big) + rest) == Parsed(v, rest)
  {
    hide SizeBytes, ReadSize, ElementsBytes, ReadElements;
    var more := ElementsBytes(t, v, big) + rest;
    assert SizeBytes(ArrayLength(v), big) + ElementsBytes(t, v, big) + rest == SizeBytes(ArrayLength(v), big) + more;
    SizeRoundTrip(ArrayLength(v), big, more);
    ElementsRoundTrip(t, v, big, rest);
  }

  /** Reading gives back the value that was written and leaves what follows, for every type and
      whatever the destination holds. */
  lemma {:induction false} ValueRoundTrip(f: Field, v: Value, held: Value, big: bool, rest: Bytes)
    requires HasType(f, v)
    ensures ReadValue(f, held, big, ValueBytes(f, v, big) + rest) == Parsed(v, rest)
    decreases v, 1
  {
    hide ReadScalar, ScalarBytes, ReadElements, ElementsBytes, ReadSizedElements, SizeBytes, ReadSize, TypeBytes, ReadType,
         FieldsBytes, ReadFields, ItemsBytes, ReadItems, ReadVariant, ReadSelected, ReadItemsOf;
    match f
    case Scalar(t) => ScalarRoundTrip(t, v, big, rest);
    case BoundedString(_) => ScalarRoundTrip(PvString, v, big, rest);
    case ScalarArray(t) => SizedElementsRoundTrip(t, v, big, rest);
    case BoundedScalarArray(t, _) => SizedElementsRoundTrip(t, v, big, rest);
    case FixedScalarArray(t, _) => ElementsRoundTrip(t, v, big, rest);
    case Structure(_, ms) => FieldsRoundTrip(ms, v.fields, held, 0, big, rest);
    case StructureArray(e) => ItemsOfRoundTrip(e, v.items, held, big, rest);
    case Union(_, ms) => if ms == [] { VariantRoundTrip(f, v, held, big, rest); } else { SelectedRoundTrip(f, v, held, big, rest); }
    case UnionArray(e) => ItemsOfRoundTrip(e, v.items, held, big, rest);
  }

  lemma {:induction false} VariantRoundTrip(f: Field, v: Value, held: Value, big: bool, rest: Bytes)
    requires f.Union? && f.members == [] && HasType(f, v)
    ensures ReadVariant([], held, big, ValueBytes(f, v, big) + rest) == Parsed(v, rest)
    decreases v, 0
  {
    hide TypeBytes;
    if v == Nothing {
      assert ([0xFF] + rest)[1..] == rest;
    } else {
      hide ReadType;
      var g := v.dynamicType;
      var more := ValueBytes(g, v.value, big) + rest;
      assert ValueBytes(f, v, big) + rest == TypeBytes(g, big) + more;
      TypeRoundTrip(g, big, more);
      ValueRoundTrip(g, v.value, OldVariant(held, g), big, rest);
    }
  }

  lemma {:induction false} SelectedRoundTrip(f: Field, v: Value, held: Value, big: bool, rest: Bytes)
    requires f.Union? && f.members != [] && HasType(f, v)
    ensures ReadSelected(f.members, held, big, ValueBytes(f, v, big) + rest) == Parsed(v, rest)
    decreases v, 0
  {
    hide SizeBytes, ReadSize;
    if v == Nothing {
      SizeRoundTrip(NULL_SIZE, big, rest);
    } else {
      var n := v.selector;
      var more := ValueBytes(f.members[n].field, v.value, big) + rest;
      assert ValueBytes(f, v, big) + rest == SizeBytes(n, big) + more;
      SizeRoundTrip(n, big, more);
      ValueRoundTrip(f.members[n].field, v.value, OldSelection(held, f.members, n), big, rest);
    }
  }

  lemma {:induction false} FieldsRoundTrip(ms: seq<Member>, vs: seq<Value>, held: Value, i: nat, big: bool, rest: Bytes)
    requires |vs| == |ms| && forall j | 0 <= j < |ms| :: HasType(ms[j].field, vs[j])
    ensures ReadFields(ms, held, i, big, FieldsBytes(ms, vs, big) + rest) == Parsed(vs, rest)
    decreases vs, 0
  {
    hide ValueBytes, ReadValue, HasType;
    if vs == [] {
      assert FieldsBytes(ms, vs, big) + rest == rest;
    } else {
      var more := FieldsBytes(ms[1..], vs[1..], big) + rest;
      assert FieldsBytes(ms, vs, big) + rest == ValueBytes(ms[0].field, vs[0], big) + more;
      ValueRoundTrip(ms[0].field, vs[0], OldField(held, i, ms[0].field), big, more);
      FieldsRoundTrip(ms[1..], vs[1..], held, i + 1, big, rest);
      assert vs == [vs[0]] + vs[1..];
    }
  }

  lemma {:induction false} ItemsOfRoundTrip(e: Field, items: seq<Option<Value>>, held: Value, big: bool, rest: Bytes)
    requires |items| < MAX_SIZE && forall j | 0 <= j < |items| && items[j].Some? :: HasType(e, items[j].value)
    ensures ReadItemsOf(e, held, big, SizeBytes(|items|, big) + ItemsBytes(e, items, big) + rest) == Parsed(items, rest)
    decreases items, 1
  {
    hide SizeBytes, ReadSize, ItemsBytes, ReadItems;
    var more := ItemsBytes(e, items, big) + rest;
    assert SizeBytes(|items|, big) + ItemsBytes(e, items, big) + rest == SizeBytes(|items|, big) + more;
    SizeRoundTrip(|items|, big, more);
    ItemsRoundTrip(e, items, held, 0, big, rest);
  }

  lemma {:induction false} ItemsRoundTrip(e: Field, items: seq<Option<Value>>, held: Value, i: nat, big: bool, rest: Bytes)
    requires forall j | 0 <= j < |items| && items[j].Some? :: HasType(e, items[j].value)
    ensures ReadItems(|items|, e, held, i, big, ItemsBytes(e, items, big) + rest) == Parsed(items, rest)
    decreases items, 0
  {
    hide ItemBytes, ReadItem, HasType;
    if items == [] {
      assert ItemsBytes(e, items, big) + rest == rest;
    } else {
      var more := ItemsBytes(e, items[1..], big) + rest;
      assert ItemsBytes(e, items, big) + rest == ItemBytes(e, items[0], big) + more;
      ItemRoundTrip(e, items[0], held, i, big, more);
      ItemsRoundTrip(e, items[1..], held, i + 1, big, rest);
      assert items == [items[0]] + items[1..];
    }
  }

  lemma {:induction false} ItemRoundTrip(e: Field, item: Option<Value>, held: Value, i: nat, big: bool, rest: Bytes)
    requires item.Some? ==> HasType(e, item.value)
    ensures ReadItem(e, held, i, big, ItemBytes(e, item, big) + rest) == Parsed(item, rest)
    decreases item, 2
  {
    hide ReadValue, ValueBytes, OldItem;
    var s := ItemBytes(e, item, big) + rest;
    match item
    case None => assert s[1..] == rest;
    case Some(v) =>
      assert s[1..] == ValueBytes(e, v, big) + rest;
      ValueRoundTrip(e, v, OldItem(held, i, e), big, rest);
  }

  // ----- what the destination held -----

  /** The result of reading, errors included, does not depend on what the destination held. */
  lemma {:induction false} HeldDoesNotMatter(f: Field, a: Value, b: Value, big: bool, s: Bytes)
    ensures ReadValue(f, a, big, s) == ReadValue(f, b, big, s)
    decreases |s|, f, 1
  {
    hide ReadFields, ReadItemsOf, ReadScalar, ReadElements, ReadSizedElements, ReadVariant, ReadSelected;
    match f
    case Structure(_, ms) => HeldFields(ms, a, b, 0, big, s);
    case StructureArray(e) => HeldItemsOf(e, a, b, big, s);
    case Union(_, ms) => if ms == [] { HeldVariant(ms, a, b, big, s); } else { HeldSelected(ms, a, b, big, s); }
    case UnionArray(e) => HeldItemsOf(e, a, b, big, s);
    case _ =>
  }

  lemma {:induction false} HeldVariant(ms: seq<Member>, a: Value, b: Value, big: bool, s: Bytes)
    ensures ReadVariant(ms, a, big, s) == ReadVariant(ms, b, big, s)
    decreases |s|, ms, 0
  {
    hide ReadType, ReadValue, OldVariant;
    var p := ReadType(big, s);
    if p.Parsed? && p.value.Some? {
      var g := p.value.value;
      HeldDoesNotMatter(g, OldVariant(a, g), OldVariant(b, g), big, p.rest);
    }
  }

  lemma {:induction false} HeldSelected(ms: seq<Member>, a: Value, b: Value, big: bool, s: Bytes)
    requires ms != []
    ensures ReadSelected(ms, a, big, s) == ReadSelected(ms, b, big, s)
    decreases |s|, ms, 0
  {
    hide ReadSize, ReadValue, OldSelection;
    var p := ReadSize(big, s);
    if p.Parsed? && 0 <= p.value < |ms| {
      HeldDoesNotMatter(ms[p.value].field, OldSelection(a, ms, p.value), OldSelection(b, ms, p.value), big, p.rest);
    }
  }

  lemma {:induction false} HeldFields(ms: seq<Member>, a: Value, b: Value, i: nat, big: bool, s: Bytes)
    ensures ReadFields(ms, a, i, big, s) == ReadFields(ms, b, i, big, s)
    decreases |s|, ms, 0
  {
    hide ReadValue, Default;
    if ms != [] {
      HeldDoesNotMatter(ms[0].field, OldField(a, i, ms[0].field), OldField(b, i, ms[0].field), big, s);
      var p := ReadValue(ms[0].field, OldField(a, i, ms[0].field), big, s);
      if p.Parsed? { HeldFields(ms[1..], a, b, i + 1, big, p.rest); }
    }
  }

  lemma {:induction false} HeldItemsOf(e: Field, a: Value, b: Value, big: bool, s: Bytes)
    ensures ReadItemsOf(e, a, big, s) == ReadItemsOf(e, b, big, s)
    decreases |s|, e, 4
  {
    hide ReadSize, ReadItems, ReadItem, ReadValue, Default;
    var p := ReadSize(big, s);
    if p.Parsed? && p.value >= 0 { HeldItems(p.value, e, a, b, 0, big, p.rest); }
  }

  lemma {:induction false} HeldItem(e: Field, a: Value, b: Value, i: nat, big: bool, s: Bytes)
    ensures ReadItem(e, a, i, big, s) == ReadItem(e, b, i, big, s)
    decreases |s|, e, 2
  {
    hide ReadValue, OldItem, Default;
    if s != [] && s[0] != 0 {
      var rest := s[1..];
      HeldDoesNotMatter(e, OldItem(a, i, e), OldItem(b, i, e), big, rest);
    }
  }

  lemma {:induction false} HeldItems(n: nat, e: Field, a: Value, b: Value, i: nat, big: bool, s: Bytes)
    ensures ReadItems(n, e, a, i, big, s) == ReadItems(n, e, b, i, big, s)
    decreases |s|, e, 3
  {
    hide ReadItem;
    if n > 0 {
      HeldItem(e, a, b, i, big, s);
      var p := ReadItem(e, a, i, big, s);
      if p.Parsed? { HeldItems(n - 1, e, a, b, i + 1, big, p.rest); }
    }
  }
}
