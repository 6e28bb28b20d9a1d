/** Printing under a mask and parsing into a new value sets exactly what the mask stands for. */
module JsonRoundTrip {
  import opened Fields
  import opened Values
  import opened BitSets
  import opened Compress
  import opened CompressLaws
  import opened ValueCodec
  import opened Selection
  import opened MapperTables
  import opened Json
  import opened JsonLaws
  import opened Limits
  import opened JsonMask

  // ----- single fields of a value -----

  /** The part of a value that belongs to field `k`. */
  function ValueAt(f: Field, v: Value, k: nat): Value
    requires k < Size(f) && HasShape(f, v)
    decreases f, 1
  {
    if k == 0 then v else ValueIn(f.members, v.fields, k - 1)
  }

  function ValueIn(ms: seq<Member>, vs: seq<Value>, k: nat): Value
    requires |vs| == |ms| && k < SizeAll(ms) && forall i | 0 <= i < |ms| :: HasShape(ms[i].field, vs[i])
    decreases ms, 0
  {
    var s := Size(ms[0].field);
    if k < s then ValueAt(ms[0].field, vs[0], k) else ValueIn(ms[1..], vs[1..], k - s)
  }

  lemma ShowableShape(f: Field, v: Value)
    requires Showable(f, v)
    ensures HasShape(f, v)
    decreases v
  {
    hide HasScalar, Width;
    match f
    case Structure(_, ms) =>
      forall i | 0 <= i < |ms|
        ensures HasShape(ms[i].field, v.fields[i])
      {
        ShowableShape(ms[i].field, v.fields[i]);
      }
    case _ =>
  }

  lemma {:induction false} ReportedBounds(f: Field, o: nat, mask: Option<set<nat>>)
    ensures forall k | k in Reported(f, o, mask) :: o <= k < o + Size(f)
    decreases f, 1
  {
    if f.Structure? { ReportedBoundsAll(f.members, o + 1, mask); }
  }

  lemma {:induction false} ReportedBoundsAll(ms: seq<Member>, o: nat, mask: Option<set<nat>>)
    ensures forall k | k in ReportedAll(ms, o, mask) :: o <= k < o + SizeAll(ms)
    decreases ms, 0
  {
    if ms != [] {
      ReportedBounds(ms[0].field, o, mask);
      ReportedBoundsAll(ms[1..], o + Size(ms[0].field), mask);
    }
  }

  // ----- which fields are reported -----

  /** The bits of field `k` and of all structures around it, below the top, are in `s`. */
  ghost predicate Open(f: Field, o: nat, s: set<nat>, k: nat)
    requires o <= k < o + Size(f)
  {
    forall a | o < a <= k && Encloses(f, o, a, k) :: a in s
  }

  ghost predicate OpenIn(ms: seq<Member>, o: nat, s: set<nat>, k: nat)
    requires o <= k < o + SizeAll(ms)
  {
    forall a | o <= a <= k && EnclosesIn(ms, o, a, k) :: a in s
  }

  lemma {:induction false} ReportedIffOpen(f: Field, o: nat, s: set<nat>, k: nat)
    requires o <= k < o + Size(f)
    ensures k in Reported(f, o, Some(s)) <==> !NodeAt(f, k - o).Structure? && Open(f, o, s, k)
    decreases f, 1
  {
    ReportedBounds(f, o, Some(s));
    if f.Structure? {
      ReportedBoundsAll(f.members, o + 1, Some(s));
      if k > o {
        ReportedAllIffOpen(f.members, o + 1, s, k);
        forall a | o < a <= k
          ensures Encloses(f, o, a, k) <==> EnclosesIn(f.members, o + 1, a, k)
        {
          BelowRoot(f, o, a, k, {});
        }
      }
    }
  }

  lemma {:induction false} ReportedAllIffOpen(ms: seq<Member>, o: nat, s: set<nat>, k: nat)
    requires o <= k < o + SizeAll(ms)
    ensures k in ReportedAll(ms, o, Some(s)) <==> !NodeIn(ms, k - o).Structure? && OpenIn(ms, o, s, k)
    decreases ms, 0
  {
    var f, p := ms[0].field, o + Size(ms[0].field);
    ReportedBounds(f, o, Some(s));
    ReportedBoundsAll(ms[1..], p, Some(s));
    if k < p {
      ReportedIffOpen(f, o, s, k);
      forall a | o <= a <= k
        ensures EnclosesIn(ms, o, a, k) <==> Encloses(f, o, a, k)
      {
        InFirst(ms, o, a, k, {});
      }
      assert Encloses(f, o, o, k);
    } else {
      ReportedAllIffOpen(ms[1..], p, s, k);
      forall a | o <= a < p
        ensures !EnclosesIn(ms, o, a, k)
      {
        InFirst(ms, o, a, k, {});
      }
      forall a | p <= a <= k
        ensures EnclosesIn(ms, o, a, k) <==> EnclosesIn(ms[1..], p, a, k)
      {
        InRest(ms, o, a, k, {});
      }
    }
  }

  /** With the expanded mask, the reported fields are the leaves that the mask stands for. */
  lemma ReportedIffSelected(f: Field, m: set<nat>, s: set<nat>, k: nat)
    requires f.Structure? && WellNamed(f) && k < Size(f)
    requires forall a: nat | a < Size(f) :: a in s <==> Related(f, m, true, a)
    ensures k in Reported(f, 0, Some(s)) <==> !NodeAt(f, k).Structure? && StandsFor(f, m, k)
  {
    ReportedIffOpen(f, 0, s, k);
    if !NodeAt(f, k).Structure? {
      LeafRelated(f, m, k);
      WithinSelf(f, k);
      if StandsFor(f, m, k) {
        var b: nat :| b in m && b < Size(f) && Within(f, b, k);
        forall a | 0 < a <= k && Encloses(f, 0, a, k)
          ensures a in s
        {
          assert Within(f, a, k);
          Comparable(f, a, b, k);
        }
      } else if k > 0 {
        assert Encloses(f, 0, k, k);
      }
    }
  }

  // ----- the values -----

  /** A field that is reported gets the printed value, every other one keeps its initial value. */
  lemma {:induction false} MergedAt(f: Field, o: nat, v: Value, mask: Option<set<nat>>, k: nat)
    requires Printable(f) && Showable(f, v) && Regular(f, v) && k < Size(f) && !NodeAt(f, k).Structure?
    ensures HasShape(f, v) && HasShape(f, Default(f)) && HasShape(f, Merge(f, o, Default(f), v, mask))
    ensures ValueAt(f, Merge(f, o, Default(f), v, mask), k) ==
      if o + k in Reported(f, o, mask) then ValueAt(f, v, k) else ValueAt(f, Default(f), k)
    decreases v, 1
  {
    ShowableShape(f, v);
    DefaultShape(f);
    MergeShape(f, o, Default(f), v, mask);
    if !f.Structure? {
      FreshMerge(f, o, v, mask);
    } else {
      DefaultShapes(f.members);
      MergeShapes(f.members, o + 1, Defaults(f.members), v.fields, mask);
      MergedIn(f.members, o + 1, v.fields, mask, k - 1);
    }
  }

  lemma {:induction false} MergedIn(ms: seq<Member>, o: nat, vs: seq<Value>, mask: Option<set<nat>>, k: nat)
    requires PrintableAll(ms) && |vs| == |ms| && k < SizeAll(ms) && !NodeIn(ms, k).Structure?
    requires forall i | 0 <= i < |ms| :: Showable(ms[i].field, vs[i]) && Regular(ms[i].field, vs[i])
    ensures |Defaults(ms)| == |ms| && (forall i | 0 <= i < |ms| :: HasShape(ms[i].field, vs[i]) && HasShape(ms[i].field, Defaults(ms)[i]))
    ensures forall i | 0 <= i < |ms| :: HasShape(ms[i].field, MergeFields(ms, o, Defaults(ms), vs, mask)[i])
    ensures ValueIn(ms, MergeFields(ms, o, Defaults(ms), vs, mask), k) ==
      if o + k in ReportedAll(ms, o, mask) then ValueIn(ms, vs, k) else ValueIn(ms, Defaults(ms), k)
    decreases vs, 0
  {
    hide Showable, Regular, Printable, Merge, Default, Reported, HasShape, ValueAt, NodeAt;
    DefaultShapes(ms);
    forall i | 0 <= i < |ms|
      ensures HasShape(ms[i].field, vs[i])
    {
      ShowableShape(ms[i].field, vs[i]);
    }
    MergeShapes(ms, o, Defaults(ms), vs, mask);
    var f, n := ms[0].field, Size(ms[0].field);
    ReportedBounds(f, o, mask);
    ReportedBoundsAll(ms[1..], o + n, mask);
    if k < n {
      MergedAt(f, o, vs[0], mask, k);
    } else {
      MergedIn(ms[1..], o + n, vs[1..], mask, k - n);
      assert MergeFields(ms, o, Defaults(ms), vs, mask)[1..] == MergeFields(ms[1..], o + n, Defaults(ms[1..]), vs[1..], mask);
      assert Defaults(ms)[1..] == Defaults(ms[1..]);
    }
  }

  /** What is parsed into a new field without a mask is what was printed. */
  lemma {:induction false} WholeMerge(f: Field, o: nat, v: Value)
    requires Printable(f) && Showable(f, v) && Regular(f, v)
    ensures Merge(f, o, Default(f), v, None) == v
    decreases v, 1
  {
    hide HasScalar, Width;
    if IsScalarArray(f) { JoinedSame(f.elementType, Default(f), v); }
    match f
    case Structure(_, ms) =>
      DefaultShapes(ms);
      WholeFields(ms, o + 1, v.fields);
    case StructureArray(e) =>
      WholeItems(e, v.items);
      assert [] + v.items == v.items;
    case _ =>
  }

  lemma JoinedSame(t: ScalarType, d: Value, v: Value)
    requires HoldsElements(t, d) && HasArray(t, v)
    ensures Joined(d, v) == v <==> LengthOf(d) == 0
  {
    hide HasScalar, Width;
    if t == PvString { Appending(d.texts, v.texts); } else { Appending(d.elements, v.elements); }
  }

  lemma {:induction false} WholeFields(ms: seq<Member>, o: nat, vs: seq<Value>)
    requires PrintableAll(ms) && |vs| == |ms|
    requires forall i | 0 <= i < |ms| :: Showable(ms[i].field, vs[i]) && Regular(ms[i].field, vs[i])
    ensures |Defaults(ms)| == |ms| && MergeFields(ms, o, Defaults(ms), vs, None) == vs
    decreases vs, 0
  {
    hide Showable, Regular, Printable, Merge, Default;
    DefaultShapes(ms);
    if vs != [] {
      WholeMerge(ms[0].field, o, vs[0]);
      WholeFields(ms[1..], o + Size(ms[0].field), vs[1..]);
      assert vs == [vs[0]] + vs[1..] && Defaults(ms)[1..] == Defaults(ms[1..]);
    }
  }

  lemma {:induction false} WholeItems(e: Field, items: seq<Option<Value>>)
    requires Printable(e)
    requires forall i | 0 <= i < |items| && items[i].Some? :: Showable(e, items[i].value) && Regular(e, items[i].value)
    ensures MergeItems(e, items) == items
    decreases items, 0
  {
    hide Showable, Regular, Printable, MergeItem;
    if items != [] {
      WholeItem(e, items[0]);
      WholeItems(e, items[1..]);
      assert items == [items[0]] + items[1..];
    }
  }

  lemma {:induction false} WholeItem(e: Field, item: Option<Value>)
    requires Printable(e) && (item.Some? ==> Showable(e, item.value) && Regular(e, item.value))
    ensures MergeItem(e, item) == item
    decreases item, 2
  {
    hide Showable, Regular, Printable, Merge;
    match item
    case None =>
    case Some(v) => WholeMerge(e, 0, v);
  }

  /** No array holds an element. */
  predicate ArraysEmpty(f: Field, d: Value)
    decreases d
  {
    match f
    case Structure(_, ms) => d.Struct? ==> forall i | 0 <= i < |ms| && i < |d.fields| :: ArraysEmpty(ms[i].field, d.fields[i])
    case StructureArray(_) => d.Structs? ==> d.items == []
    case _ => IsScalarArray(f) ==> LengthOf(d) == 0
  }

  /** Elements are appended: a value that is parsed into a used instance comes out as printed exactly if
      no array of the instance holds an element. */
  lemma {:induction false} UsedMerge(f: Field, o: nat, d: Value, v: Value)
    requires Printable(f) && Showable(f, v) && Regular(f, v) && HasShape(f, d)
    ensures Merge(f, o, d, v, None) == v <==> ArraysEmpty(f, d)
    decreases v, 1
  {
    hide HasScalar, Width, LengthOf;
    if IsScalarArray(f) { JoinedSame(f.elementType, d, v); }
    match f
    case Structure(_, ms) => UsedFields(ms, o + 1, d.fields, v.fields);
    case StructureArray(e) =>
      WholeItems(e, v.items);
      Appending(d.items, v.items);
    case _ =>
  }

  lemma Appending<T>(a: seq<T>, b: seq<T>)
    ensures a + b == b <==> a == []
  {
    if a == [] { assert a + b == b; } else { assert |a + b| > |b|; }
  }

  lemma {:induction false} UsedFields(ms: seq<Member>, o: nat, ds: seq<Value>, vs: seq<Value>)
    requires PrintableAll(ms) && |vs| == |ms| == |ds|
    requires forall i | 0 <= i < |ms| :: Showable(ms[i].field, vs[i]) && Regular(ms[i].field, vs[i])
    requires forall i | 0 <= i < |ms| :: HasShape(ms[i].field, ds[i])
    ensures MergeFields(ms, o, ds, vs, None) == vs <==> forall i | 0 <= i < |ms| :: ArraysEmpty(ms[i].field, ds[i])
    decreases vs, 0
  {
    hide Showable, Regular, Printable, Merge, HasShape, ArraysEmpty;
    if vs != [] {
      UsedMerge(ms[0].field, o, ds[0], vs[0]);
      UsedFields(ms[1..], o + Size(ms[0].field), ds[1..], vs[1..]);
      var first := Merge(ms[0].field, o, ds[0], vs[0], None);
      var rest := MergeFields(ms[1..], o + Size(ms[0].field), ds[1..], vs[1..], None);
      assert MergeFields(ms, o, ds, vs, None) == [first] + rest;
      FirstThenRest(first, rest, vs);
      FirstAndRest(ms, ds);
    }
  }

  lemma FirstThenRest<T>(x: T, xs: seq<T>, s: seq<T>)
    requires s != []
    ensures [x] + xs == s <==> x == s[0] && xs == s[1..]
  {
    assert s == [s[0]] + s[1..];
    assert ([x] + xs)[1..] == xs;
  }

  lemma FirstAndRest(ms: seq<Member>, ds: seq<Value>)
    requires |ms| == |ds| > 0
    ensures (forall i | 0 <= i < |ms| :: ArraysEmpty(ms[i].field, ds[i])) <==>
      ArraysEmpty(ms[0].field, ds[0]) && forall i | 0 <= i < |ms[1..]| :: ArraysEmpty(ms[1..][i].field, ds[1..][i])
  {
    hide ArraysEmpty;
    assert forall i | 0 < i < |ms| :: ms[i] == ms[1..][i - 1] && ds[i] == ds[1..][i - 1];
  }

  /** Outside structures there is no mask to look at. */
  lemma FreshMerge(f: Field, o: nat, v: Value, mask: Option<set<nat>>)
    requires Printable(f) && Showable(f, v) && Regular(f, v) && !f.Structure?
    ensures Merge(f, o, Default(f), v, mask) == v
    decreases v, 0
  {
    hide MergeItems;
    WholeMerge(f, o, v);
  }

  // ----- what a new instance accepts -----

  /** The limits as a new instance applies them: a text or a bounded array has at most the length of its
      bound, a fixed array is read back only if it is empty or consists of one element, and there are no
      null elements. */
  predicate ReadBack(f: Field, v: Value)
    decreases v
  {
    match f
    case BoundedString(_) => Fits(f, v)
    case BoundedScalarArray(_, _) => Fits(f, v) || LengthOf(v) == 0
    case FixedScalarArray(_, n) => LengthOf(v) == 0 || LengthOf(v) == n == 1
    case Structure(_, ms) => v.Struct? ==> forall i | 0 <= i < |ms| && i < |v.fields| :: ReadBack(ms[i].field, v.fields[i])
    case StructureArray(e) => v.Structs? ==> forall i | 0 <= i < |v.items| :: v.items[i].Some? && ReadBack(e, v.items[i].value)
    case _ => true
  }

  lemma {:induction false} ReadableIntoEmpty(f: Field, o: nat, d: Value, v: Value)
    requires Printable(f) && Showable(f, v) && HasShape(f, d) && ArraysEmpty(f, d)
    ensures Readable(f, o, d, v, None) <==> ReadBack(f, v)
    decreases v, 1
  {
    hide HasScalar, HasArray, Fits;
    match f
    case Structure(_, ms) => ReadableFieldsIntoEmpty(ms, o + 1, d.fields, v.fields);
    case StructureArray(e) => ReadableItemsIntoNew(e, v.items);
    case BoundedScalarArray(_, n) => BoundedFits(f, v);
    case _ =>
  }

  lemma BoundedFits(f: Field, v: Value)
    requires f.BoundedScalarArray?
    ensures Fits(f, v) <==> LengthOf(v) <= f.bound
  {}

  lemma {:induction false} ReadableFieldsIntoEmpty(ms: seq<Member>, o: nat, ds: seq<Value>, vs: seq<Value>)
    requires PrintableAll(ms) && |vs| == |ms| == |ds|
    requires forall i | 0 <= i < |ms| :: Showable(ms[i].field, vs[i]) && HasShape(ms[i].field, ds[i]) && ArraysEmpty(ms[i].field, ds[i])
    ensures ReadableFields(ms, o, ds, vs, None) <==> forall i | 0 <= i < |ms| :: ReadBack(ms[i].field, vs[i])
    decreases vs, 0
  {
    hide Showable, Printable, Readable, HasShape, ArraysEmpty, ReadBack;
    if vs != [] {
      ReadableIntoEmpty(ms[0].field, o, ds[0], vs[0]);
      ReadableFieldsIntoEmpty(ms[1..], o + Size(ms[0].field), ds[1..], vs[1..]);
      assert forall i | 0 < i < |ms| :: ms[i] == ms[1..][i - 1] && vs[i] == vs[1..][i - 1];
    }
  }

  lemma {:induction false} ReadableItemsIntoNew(e: Field, items: seq<Option<Value>>)
    requires Printable(e) && forall i | 0 <= i < |items| && items[i].Some? :: Showable(e, items[i].value)
    ensures ReadableItems(e, items) <==> forall i | 0 <= i < |items| :: items[i].Some? && ReadBack(e, items[i].value)
    decreases items, 0
  {
    hide Showable, Printable, ReadableItem, ReadBack;
    if items != [] {
      ReadableItemIntoNew(e, items[0]);
      ReadableItemsIntoNew(e, items[1..]);
      assert forall i | 0 < i < |items| :: items[i] == items[1..][i - 1];
    }
  }

  lemma {:induction false} ReadableItemIntoNew(e: Field, item: Option<Value>)
    requires Printable(e) && (item.Some? ==> Showable(e, item.value))
    ensures ReadableItem(e, item) <==> item.Some? && ReadBack(e, item.value)
    decreases item, 2
  {
    hide Showable, Printable, Readable, ReadBack;
    match item
    case None =>
    case Some(v) =>
      DefaultShape(e);
      DefaultEmpty(e);
      ReadableIntoEmpty(e, 0, Default(e), v);
  }

  lemma {:induction false} DefaultEmpty(f: Field)
    ensures ArraysEmpty(f, Default(f))
    decreases f, 1
  {
    if f.Structure? { DefaultsEmpty(f.members); }
  }

  lemma {:induction false} DefaultsEmpty(ms: seq<Member>)
    ensures |Defaults(ms)| == |ms| && forall i | 0 <= i < |ms| :: ArraysEmpty(ms[i].field, Defaults(ms)[i])
    decreases ms, 0
  {
    hide ArraysEmpty;
    if ms != [] {
      DefaultEmpty(ms[0].field);
      DefaultsEmpty(ms[1..]);
    }
  }

  /** Leaf `k` is printed under the mask. */
  predicate LeafReported(f: Field, o: nat, mask: Option<set<nat>>, k: nat)
    requires k < Size(f)
  {
    !NodeAt(f, k).Structure? && o + k in Reported(f, o, mask)
  }

  predicate LeafReportedIn(ms: seq<Member>, o: nat, mask: Option<set<nat>>, k: nat)
    requires k < SizeAll(ms)
  {
    !NodeIn(ms, k).Structure? && o + k in ReportedAll(ms, o, mask)
  }

  /** Every leaf that is printed is read back. */
  ghost predicate LeavesReadBack(f: Field, o: nat, v: Value, mask: Option<set<nat>>)
    requires HasShape(f, v)
  {
    forall k | 0 <= k < Size(f) && LeafReported(f, o, mask, k) :: ReadBack(NodeAt(f, k), ValueAt(f, v, k))
  }

  ghost predicate LeavesReadBackIn(ms: seq<Member>, o: nat, vs: seq<Value>, mask: Option<set<nat>>)
    requires |vs| == |ms| && forall i | 0 <= i < |ms| :: HasShape(ms[i].field, vs[i])
  {
    forall k | 0 <= k < SizeAll(ms) && LeafReportedIn(ms, o, mask, k) :: ReadBack(NodeIn(ms, k), ValueIn(ms, vs, k))
  }

  /** What is printed under a mask is read into a new instance exactly if every leaf that is printed is
      read back. */
  lemma {:induction false} ReadableIffReadBack(f: Field, o: nat, v: Value, mask: Option<set<nat>>)
    requires Printable(f) && Showable(f, v)
    ensures HasShape(f, v)
    ensures Readable(f, o, Default(f), v, mask) <==> LeavesReadBack(f, o, v, mask)
    decreases v, 1
  {
    hide HasScalar, HasArray, Fits, ReadBack, ReadableItems;
    ShowableShape(f, v);
    if f.Structure? {
      DefaultShapes(f.members);
      ReadableFieldsIffReadBack(f.members, o + 1, v.fields, mask);
      BelowTop(f, o, v, mask);
    } else {
      DefaultShape(f);
      DefaultEmpty(f);
      ReadableIntoEmpty(f, o, Default(f), v);
      NoMask(f, o, Default(f), v, mask);
      assert Size(f) == 1 && LeafReported(f, o, mask, 0);
    }
  }

  lemma NoMask(f: Field, o: nat, d: Value, v: Value, mask: Option<set<nat>>)
    requires !f.Structure? && Showable(f, v)
    ensures Readable(f, o, d, v, mask) <==> Readable(f, o, d, v, None)
  {}

  /** The leaves of a structure are those of its members. */
  lemma BelowTop(f: Field, o: nat, v: Value, mask: Option<set<nat>>)
    requires f.Structure? && HasShape(f, v)
    ensures LeavesReadBack(f, o, v, mask) <==> LeavesReadBackIn(f.members, o + 1, v.fields, mask)
  {
    hide ReadBack, NodeIn, ValueIn, ReportedAll, SizeAll;
    if LeavesReadBack(f, o, v, mask) {
      forall k | 0 <= k < SizeAll(f.members) && LeafReportedIn(f.members, o + 1, mask, k)
        ensures ReadBack(NodeIn(f.members, k), ValueIn(f.members, v.fields, k))
      {
        var j := k + 1;
        assert LeafReported(f, o, mask, j);
      }
    }
    if LeavesReadBackIn(f.members, o + 1, v.fields, mask) {
      forall j | 0 <= j < Size(f) && LeafReported(f, o, mask, j)
        ensures ReadBack(NodeAt(f, j), ValueAt(f, v, j))
      {
        assert j > 0;
        var k := j - 1;
        assert LeafReportedIn(f.members, o + 1, mask, k);
      }
    }
  }

  lemma {:induction false} ReadableFieldsIffReadBack(ms: seq<Member>, o: nat, vs: seq<Value>, mask: Option<set<nat>>)
    requires PrintableAll(ms) && |vs| == |ms| && forall i | 0 <= i < |ms| :: Showable(ms[i].field, vs[i])
    ensures |Defaults(ms)| == |ms| && forall i | 0 <= i < |ms| :: HasShape(ms[i].field, vs[i])
    ensures ReadableFields(ms, o, Defaults(ms), vs, mask) <==> LeavesReadBackIn(ms, o, vs, mask)
    decreases vs, 0
  {
    hide Showable, Printable, Readable, LeavesReadBack, LeavesReadBackIn, HasShape, Default;
    DefaultShapes(ms);
    if vs != [] {
      ReadableIffReadBack(ms[0].field, o, vs[0], mask);
      ReadableFieldsIffReadBack(ms[1..], o + Size(ms[0].field), vs[1..], mask);
      assert Defaults(ms)[1..] == Defaults(ms[1..]);
      FirstLeaves(ms, o, vs, mask);
    } else {
      NoLeaves(ms, o, vs, mask);
    }
  }

  lemma NoLeaves(ms: seq<Member>, o: nat, vs: seq<Value>, mask: Option<set<nat>>)
    requires ms == [] && vs == []
    ensures LeavesReadBackIn(ms, o, vs, mask)
  {}

  lemma FirstLeaves(ms: seq<Member>, o: nat, vs: seq<Value>, mask: Option<set<nat>>)
    requires ms != [] && |vs| == |ms| && forall i | 0 <= i < |ms| :: HasShape(ms[i].field, vs[i])
    ensures LeavesReadBackIn(ms, o, vs, mask) <==>
      ((mask.Some? && o !in mask.value) || LeavesReadBack(ms[0].field, o, vs[0], mask)) &&
      LeavesReadBackIn(ms[1..], o + Size(ms[0].field), vs[1..], mask)
  {
    hide ReadBack, NodeIn, NodeAt, ValueIn, ValueAt, LeafReported, LeafReportedIn, HasShape;
    var f, n := ms[0].field, Size(ms[0].field);
    if LeavesReadBackIn(ms, o, vs, mask) {
      forall k | 0 <= k < n && LeafReported(f, o, mask, k) && !(mask.Some? && o !in mask.value)
        ensures ReadBack(NodeAt(f, k), ValueAt(f, vs[0], k))
      {
        LeafOfFirst(ms, o, vs, mask, k);
      }
      forall k | 0 <= k < SizeAll(ms[1..]) && LeafReportedIn(ms[1..], o + n, mask, k)
        ensures ReadBack(NodeIn(ms[1..], k), ValueIn(ms[1..], vs[1..], k))
      {
        var j := n + k;
        LeafOfRest(ms, o, vs, mask, j);
      }
    } else {
      var k :| 0 <= k < SizeAll(ms) && LeafReportedIn(ms, o, mask, k) && !ReadBack(NodeIn(ms, k), ValueIn(ms, vs, k));
      if k < n { LeafOfFirst(ms, o, vs, mask, k); } else { LeafOfRest(ms, o, vs, mask, k); }
    }
  }

  lemma LeafOfFirst(ms: seq<Member>, o: nat, vs: seq<Value>, mask: Option<set<nat>>, k: nat)
    requires ms != [] && |vs| == |ms| && forall i | 0 <= i < |ms| :: HasShape(ms[i].field, vs[i])
    requires k < Size(ms[0].field)
    ensures k < SizeAll(ms)
    ensures LeafReportedIn(ms, o, mask, k) <==> !(mask.Some? && o !in mask.value) && LeafReported(ms[0].field, o, mask, k)
    ensures NodeIn(ms, k) == NodeAt(ms[0].field, k) && ValueIn(ms, vs, k) == ValueAt(ms[0].field, vs[0], k)
  {
    hide Reported, HasShape, NodeAt, ValueAt;
    var j := o + k;
    ReportedBoundsAll(ms[1..], o + Size(ms[0].field), mask);
    assert j !in ReportedAll(ms[1..], o + Size(ms[0].field), mask);
  }

  lemma LeafOfRest(ms: seq<Member>, o: nat, vs: seq<Value>, mask: Option<set<nat>>, k: nat)
    requires ms != [] && |vs| == |ms| && forall i | 0 <= i < |ms| :: HasShape(ms[i].field, vs[i])
    requires Size(ms[0].field) <= k < SizeAll(ms)
    ensures var n := Size(ms[0].field);
      && k - n < SizeAll(ms[1..])
      && (LeafReportedIn(ms, o, mask, k) <==> LeafReportedIn(ms[1..], o + n, mask, k - n))
      && NodeIn(ms, k) == NodeIn(ms[1..], k - n) && ValueIn(ms, vs, k) == ValueIn(ms[1..], vs[1..], k - n)
  {
    hide Reported, HasShape, NodeAt, ValueAt;
    var j := o + k;
    ReportedBounds(ms[0].field, o, mask);
    assert j !in Reported(ms[0].field, o, mask);
    assert j == o + Size(ms[0].field) + (k - Size(ms[0].field));
  }

  // ----- printJSON and parseJSON -----

  /** printJSON: the mask is copied and expanded; nothing is printed if the top is not in it. */
  method PrintJson(top: Field, v: Value, mask: BitSet) returns (events: seq<Event>)
    requires top.Structure? && WellNamed(top) && Showable(top, v) && mask.Valid()
    ensures Selects(top, mask.Bits()) ==> exists s :: IsExpansion(top, mask.Bits(), s) && events == ShowField(top, 0, v, Some(s))
    ensures !Selects(top, mask.Bits()) ==> events == []
  {
    var emask := new BitSet();
    emask.Assign(mask);
    ghost var m := mask.Bits();
    ExpandBS(top, emask, true);
    ghost var s := emask.Bits();
    TopRelated(top, m);
    var shown := emask.Get(0);
    if !shown {
      return [];
    }
    var bits := BitsOf(emask);
    assert IsExpansion(top, m, bits);
    return ShowField(top, 0, v, Some(bits));
  }

  /** The set that a bit set stands for. */
  method BitsOf(b: BitSet) returns (s: set<nat>)
    ensures s == b.Bits()
  {
    s := Elements(b.words);
  }

  ghost predicate Selects(f: Field, m: set<nat>) {
    exists a | a in m :: a < Size(f)
  }

  ghost predicate IsExpansion(f: Field, m: set<nat>, s: set<nat>) {
    && (forall k: nat | k < Size(f) :: k in s <==> Related(f, m, true, k))
    && (forall k: nat | k >= Size(f) :: k in s <==> k in m)
  }

  lemma TopRelated(f: Field, m: set<nat>)
    ensures Related(f, m, true, 0) <==> Selects(f, m)
  {
    if Selects(f, m) {
      var a :| a in m && a < Size(f);
      assert Within(f, 0, a);
    }
  }

  /** Leaf `k` is one of those that the mask stands for. */
  ghost predicate LeafSelected(f: Field, m: set<nat>, k: nat)
    requires k < Size(f)
  {
    !NodeAt(f, k).Structure? && StandsFor(f, m, k)
  }

  /** Parsing what was printed under a mask that selects something into a new instance succeeds exactly
      if every leaf that the mask stands for is read back.  It then uses up the stack, reports the
      offsets of exactly those leaves, and gives exactly them the printed values. */
  lemma JsonRoundTrip(convert: Convert, f: Field, v: Value, m: set<nat>, s: set<nat>)
    requires f.Structure? && WellNamed(f) && Printable(f) && Showable(f, v) && Regular(f, v)
    requires Selects(f, m) && IsExpansion(f, m, s)
    ensures HasShape(f, v) && HasShape(f, Default(f))
    ensures var r := Run(convert, On([], Frame(f, Default(f), 0, Some(0)), {}), ShowField(f, 0, v, Some(s)));
      && (r.Some? <==> forall k | 0 <= k < Size(f) && LeafSelected(f, m, k) :: ReadBack(NodeAt(f, k), ValueAt(f, v, k)))
      && (r.Some? ==>
          && r.value.stack == [] && r.value.result.Some? && HasShape(f, r.value.result.value)
          && (forall k: nat | k < Size(f) && !NodeAt(f, k).Structure? ::
                && (k in r.value.reported <==> StandsFor(f, m, k))
                && ValueAt(f, r.value.result.value, k) == if StandsFor(f, m, k) then ValueAt(f, v, k) else ValueAt(f, Default(f), k))
          && (forall k | k in r.value.reported :: k < Size(f) && !NodeAt(f, k).Structure?))
  {
    hide Run, Showable, Regular, Printable, Merge, Readable, Default, Reported, HasShape, ValueAt, NodeAt, ShowField, StandsFor, Related, Size, ReadBack;
    var fr := Frame(f, Default(f), 0, Some(0));
    ShowableShape(f, v);
    DefaultShape(f);
    MergeShape(f, 0, Default(f), v, Some(s));
    FieldRun(convert, [], fr, {}, 0, v, Some(s), []);
    var events, merged := ShowField(f, 0, v, Some(s)), Merge(f, 0, Default(f), v, Some(s));
    assert events + [] == events;
    var done := Done([], fr, merged, {} + ReportedBy(fr, Some(s)));
    OnTop([], fr.(value := merged), {} + ReportedBy(fr, Some(s)));
    RunNothing(convert, done);
    ReportedBounds(f, 0, Some(s));
    ReadableIffReadBack(f, 0, v, Some(s));
    forall k: nat | k < Size(f)
      ensures k in Reported(f, 0, Some(s)) <==> !NodeAt(f, k).Structure? && StandsFor(f, m, k)
      ensures LeafReported(f, 0, Some(s), k) <==> LeafSelected(f, m, k)
      ensures !NodeAt(f, k).Structure? ==>
        ValueAt(f, merged, k) == if StandsFor(f, m, k) then ValueAt(f, v, k) else ValueAt(f, Default(f), k)
    {
      ReportedIffSelected(f, m, s, k);
      if !NodeAt(f, k).Structure? { MergedAt(f, 0, v, Some(s), k); }
    }
  }

  /** Without a mask, parsing what was printed of `v` into an instance that may be in use gives `v`
      exactly if `v` is read back and no array of the instance holds an element. */
  lemma UsedDestination(convert: Convert, f: Field, d: Value, v: Value)
    requires Printable(f) && Showable(f, v) && Regular(f, v) && HasShape(f, d)
    ensures var r := Run(convert, On([], Frame(f, d, 0, Some(0)), {}), ShowField(f, 0, v, None));
      (r.Some? && r.value.result == Some(v)) <==> ReadBack(f, v) && ArraysEmpty(f, d)
  {
    hide Run, Showable, Regular, Printable, Merge, Readable, Reported, HasShape, ShowField, ReadBack, ArraysEmpty;
    var fr := Frame(f, d, 0, Some(0));
    FieldRun(convert, [], fr, {}, 0, v, None, []);
    var events, merged := ShowField(f, 0, v, None), Merge(f, 0, d, v, None);
    assert events + [] == events;
    OnTop([], fr.(value := merged), {} + ReportedBy(fr, None));
    RunNothing(convert, Done([], fr, merged, {} + ReportedBy(fr, None)));
    UsedMerge(f, 0, d, v);
    if ArraysEmpty(f, d) { ReadableIntoEmpty(f, 0, d, v); }
  }

  /** A fixed array that holds its length of elements is read back only if that is at most one: the
      length is checked after every element. */
  lemma FixedArrayReadBack(convert: Convert, t: ScalarType, n: nat, v: Value)
    requires HasType(FixedScalarArray(t, n), v) && Regular(FixedScalarArray(t, n), v)
    ensures Showable(FixedScalarArray(t, n), v)
    ensures var f := FixedScalarArray(t, n);
      var r := Run(convert, On([], Frame(f, Default(f), 0, Some(0)), {}), ShowField(f, 0, v, None));
      && (r.Some? <==> n <= 1)
      && (r.Some? ==> r.value.result == Some(v))
  {
    hide Run, Merge, Reported, ShowField, HasScalar, Room;
    var f := FixedScalarArray(t, n);
    var fr := Frame(f, Default(f), 0, Some(0));
    FieldRun(convert, [], fr, {}, 0, v, None, []);
    var events, merged := ShowField(f, 0, v, None), Merge(f, 0, Default(f), v, None);
    assert events + [] == events;
    OnTop([], fr.(value := merged), {} + ReportedBy(fr, None));
    RunNothing(convert, Done([], fr, merged, {} + ReportedBy(fr, None)));
    WholeMerge(f, 0, v);
    FixedRoom(t, n, v);
  }

  lemma FixedRoom(t: ScalarType, n: nat, v: Value)
    requires HasType(FixedScalarArray(t, n), v)
    ensures var f := FixedScalarArray(t, n);
      Showable(f, v) && HasShape(f, Default(f)) && (Readable(f, 0, Default(f), v, None) <==> n <= 1)
  {
    hide HasScalar, Width;
  }

  /** Two elements are already too many. */
  lemma FixedPairRefused(convert: Convert)
    ensures var f, v := FixedScalarArray(PvInt, 2), Numbers([7, 8]);
      && HasType(f, v) && Showable(f, v)
      && Run(convert, On([], Frame(f, Default(f), 0, Some(0)), {}), ShowField(f, 0, v, None)) == None
  {
    hide Run, ShowField;
    var v := Numbers([7, 8]);
    assert HasArray(PvInt, v);
    FixedArrayReadBack(convert, PvInt, 2, v);
  }

  lemma RunNothing(convert: Convert, s: State)
    ensures Run(convert, s, []) == Some(s)
  {}
}
