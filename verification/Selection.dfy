/** What a pvRequest selects: PVRequestMapper::_compute walks the request and the base structure
    together, builds the type of the selection and collects the offsets of the selected fields. */
module Selection {
  import opened Fields
  import opened BitSets
  import opened Names

  /** Deeper requests are cut off. */
  const MAX_DEPTH := 5

  function Position(ms: seq<Member>, name: string): (r: Option<nat>)
    ensures r.Some? ==> r.value < |ms| && ms[r.value].name == name
    ensures r.Some? ==> forall j | 0 <= j < r.value :: ms[j].name != name
    ensures r == None ==> forall j | 0 <= j < |ms| :: ms[j].name != name
  {
    if ms == [] then None
    else if ms[0].name == name then Some(0)
    else match Position(ms[1..], name)
      case None => None
      case Some(i) => Some(i + 1)
  }

  /** The requested field is taken as it is: the limit is reached, or it has no subfields, or no
      subfields are named. */
  predicate Whole(sub: Field, req: Field, depth: nat)
    requires req.Structure?
  {
    depth >= MAX_DEPTH || !sub.Structure? || req.members == []
  }

  // ----- the type of the selection -----

  function SliceOf(base: seq<Member>, r: Member, keepids: bool, depth: nat): seq<Member>
    decreases r, 0
  {
    match Position(base, r.name)
    case None => []
    case Some(i) =>
      var sub := base[i].field;
      if !r.field.Structure? then []
      else if Whole(sub, r.field, depth) then [Member(r.name, sub)]
      else [Member(r.name, Structure(if keepids then sub.id else "structure",
                                     Sliced(sub.members, r.field.members, keepids, depth + 1)))]
  }

  function Sliced(base: seq<Member>, rs: seq<Member>, keepids: bool, depth: nat): seq<Member>
    decreases rs, 0
  {
    if rs == [] then [] else SliceOf(base, rs[0], keepids, depth) + Sliced(base, rs[1..], keepids, depth)
  }

  // ----- the offsets of the selection -----

  /** `base` are the members of the structure with offset `o`. */
  function ChosenBy(base: seq<Member>, o: nat, r: Member, depth: nat): set<nat>
    decreases r, 0
  {
    match Position(base, r.name)
    case None => {}
    case Some(i) =>
      var sub, q := base[i].field, o + 1 + SizeAll(base[..i]);
      if !r.field.Structure? then {}
      else if Whole(sub, r.field, depth) then Span(q, q + Size(sub))
      else {q} + Chosen(sub.members, q, r.field.members, depth + 1)
  }

  function Chosen(base: seq<Member>, o: nat, rs: seq<Member>, depth: nat): set<nat>
    decreases rs, 0
  {
    if rs == [] then {} else ChosenBy(base, o, rs[0], depth) + Chosen(base, o, rs[1..], depth)
  }

  /** Every name at this level stands for a structure; otherwise the request is invalid.  The
      result of the recursive calls is not looked at, so deeper levels are not checked. */
  predicate Composed(rs: seq<Member>) {
    forall i | 0 <= i < |rs| :: rs[i].field.Structure?
  }

  /** PVRequestMapper::_compute. */
  method Compute(base: Field, offset: nat, pvReq: seq<Member>, keepids: bool, depth: nat,
                 maskRequested: BitSet) returns (ok: bool, builder: seq<Member>)
    requires base.Structure? && maskRequested.Valid()
    modifies maskRequested
    ensures maskRequested.Valid()
    ensures maskRequested.Bits() == old(maskRequested.Bits()) + Chosen(base.members, offset, pvReq, depth)
    ensures builder == Sliced(base.members, pvReq, keepids, depth)
    ensures ok <==> Composed(pvReq)
    decreases pvReq
  {
    hide BitSet.Bits, BitSet.Valid, Size, SizeAll, Chosen, Sliced, Composed;
    ComposedNone();
    SelectionEnds(base.members, offset, keepids, depth);
    assert pvReq[0..] == pvReq && pvReq[|pvReq|..] == [] && pvReq[..0] == [];
    ok, builder := true, [];
    ghost var m := maskRequested.Bits();
    for i := 0 to |pvReq|
      invariant maskRequested.Valid()
      invariant maskRequested.Bits() + Chosen(base.members, offset, pvReq[i..], depth)
                == m + Chosen(base.members, offset, pvReq, depth)
      invariant builder + Sliced(base.members, pvReq[i..], keepids, depth) == Sliced(base.members, pvReq, keepids, depth)
      invariant ok <==> Composed(pvReq[..i])
    {
      ghost var before, built := maskRequested.Bits(), builder;
      SelectionStep(base.members, offset, pvReq, keepids, depth, i);
      ComposedStep(pvReq, i);
      var subtype := Position(base.members, pvReq[i].name);
      var subReq := pvReq[i].field;
      if !subReq.Structure? {
        ok := false;
      } else if subtype == None {
        // a warning only
      } else {
        var sub, q := base.members[subtype.value].field, offset + 1 + SizeAll(base.members[..subtype.value]);
        if Whole(sub, subReq, depth) {
          builder := builder + [Member(pvReq[i].name, sub)];
          for j := q to q + Size(sub)
            invariant maskRequested.Valid() && maskRequested.Bits() == before + Span(q, j)
          {
            maskRequested.Set(j);
          }
        } else {
          maskRequested.Set(q);
          var _, nested := Compute(sub, q, subReq.members, keepids, depth + 1, maskRequested);
          builder := builder + [Member(pvReq[i].name, Structure(if keepids then sub.id else "structure", nested))];
        }
      }
      assert maskRequested.Bits() == before + ChosenBy(base.members, offset, pvReq[i], depth);
      assert builder == built + SliceOf(base.members, pvReq[i], keepids, depth);
    }
    assert pvReq[..|pvReq|] == pvReq;
  }

  /** A badly composed field below the top level: the request is accepted, and the structure around the
      field is selected without it. */
  lemma NestedNotChecked(t: ScalarType)
    ensures var base := [Member("a", Structure("s", [Member("b", Scalar(t))]))];
      && Composed(base) && !Composed(base[0].field.members)
      && Chosen(base, 0, base, 0) == {1}
      && Sliced(base, base, true, 0) == [Member("a", Structure("s", []))]
  {
    var inner := [Member("b", Scalar(t))];
    var base := [Member("a", Structure("s", inner))];
    assert base[1..] == [] && inner[1..] == [] && base[..0] == [];
    assert Chosen(inner, 1, inner, 1) == {} by { assert ChosenBy(inner, 1, inner[0], 1) == {}; }
    assert Sliced(inner, inner, true, 1) == [] by { assert SliceOf(inner, inner[0], true, 1) == []; }
    assert Position(base, "a") == Some(0);
  }

  lemma SelectionStep(base: seq<Member>, o: nat, rs: seq<Member>, keepids: bool, depth: nat, i: nat)
    requires i < |rs|
    ensures Chosen(base, o, rs[i..], depth) == ChosenBy(base, o, rs[i], depth) + Chosen(base, o, rs[i + 1..], depth)
    ensures Sliced(base, rs[i..], keepids, depth)
            == SliceOf(base, rs[i], keepids, depth) + Sliced(base, rs[i + 1..], keepids, depth)
  {
    assert rs[i..][0] == rs[i] && rs[i..][1..] == rs[i + 1..];
  }

  lemma ComposedNone()
    ensures Composed([])
  {}

  lemma ComposedStep(rs: seq<Member>, i: nat)
    requires i < |rs|
    ensures Composed(rs[..i + 1]) <==> Composed(rs[..i]) && rs[i].field.Structure?
  {
    assert rs[..i + 1] == rs[..i] + [rs[i]];
    assert Composed(rs[..i + 1]) ==> rs[..i + 1][i].field.Structure?;
    assert forall j | 0 <= j < i :: rs[..i + 1][j] == rs[..i][j];
  }

  lemma SelectionEnds(base: seq<Member>, o: nat, keepids: bool, depth: nat)
    ensures Chosen(base, o, [], depth) == {} && Sliced(base, [], keepids, depth) == []
  {}

  // ----- the same selection, read along a path of names -----

  /** The field that `p` leads to is selected. */
  predicate Asked(base: seq<Member>, rs: seq<Member>, depth: nat, p: Path)
    requires p != []
    decreases rs, 0
  {
    rs != [] && if rs[0].name == p[0] then AskedBy(base, rs[0], depth, p) else Asked(base, rs[1..], depth, p)
  }

  predicate AskedBy(base: seq<Member>, r: Member, depth: nat, p: Path)
    requires p != []
    decreases r, 0
  {
    r.field.Structure? &&
    match Position(base, r.name)
    case None => false
    case Some(i) =>
      var sub := base[i].field;
      if Whole(sub, r.field, depth) then Find(sub, p[1..]).Some?
      else p[1..] == [] || Asked(sub.members, r.field.members, depth + 1, p[1..])
  }

  lemma {:induction false} NotAsked(base: seq<Member>, rs: seq<Member>, depth: nat, p: Path)
    requires p != [] && p[0] !in MemberNames(rs)
    ensures !Asked(base, rs, depth, p)
    decreases rs
  {
    if rs != [] {
      assert rs[0] in rs;
      NotAsked(base, rs[1..], depth, p);
    }
  }

  lemma HeadAndTailNames(ms: seq<Member>)
    requires ms != []
    ensures MemberNames(ms) == {ms[0].name} + MemberNames(ms[1..])
  {
    assert ms == [ms[0]] + ms[1..];
    forall n | n in MemberNames(ms)
      ensures n in {ms[0].name} + MemberNames(ms[1..])
    {
      var m :| m in ms && m.name == n;
      assert m == ms[0] || m in ms[1..];
    }
    forall n | n in MemberNames(ms[1..])
      ensures n in MemberNames(ms)
    {
      var m :| m in ms[1..] && m.name == n;
      assert m in ms;
    }
    assert ms[0] in ms;
  }

  lemma {:induction false} SliceNames(base: seq<Member>, rs: seq<Member>, keepids: bool, depth: nat)
    ensures MemberNames(Sliced(base, rs, keepids, depth)) <= MemberNames(rs)
    decreases rs
  {
    if rs != [] {
      SliceNames(base, rs[1..], keepids, depth);
      HeadAndTailNames(rs);
      if SliceOf(base, rs[0], keepids, depth) != [] {
        HeadAndTailNames(Sliced(base, rs, keepids, depth));
        assert Sliced(base, rs, keepids, depth)[1..] == Sliced(base, rs[1..], keepids, depth);
      } else {
        assert Sliced(base, rs, keepids, depth) == Sliced(base, rs[1..], keepids, depth);
      }
    }
  }

  lemma {:induction false} FindInOther(ms: seq<Member>, p: Path)
    requires p != [] && p[0] !in MemberNames(ms)
    ensures FindIn(ms, p) == None
  {
    forall j | 0 <= j < |ms| ensures ms[j].name != p[0] {
      assert ms[j] in ms;
    }
    FindInNone(ms, p);
  }

  /** The built type has a field of a given name exactly when that name is selected. */
  lemma {:induction false} SlicedIffAsked(base: seq<Member>, rs: seq<Member>, keepids: bool, depth: nat, p: Path)
    requires p != [] && WellNamedAll(rs)
    ensures FindIn(Sliced(base, rs, keepids, depth), p).Some? <==> Asked(base, rs, depth, p)
    decreases rs
  {
    if rs != [] {
      var rest := Sliced(base, rs[1..], keepids, depth);
      var all := Sliced(base, rs, keepids, depth);
      SlicedIffAsked(base, rs[1..], keepids, depth, p);
      SliceNames(base, rs[1..], keepids, depth);
      var head := SliceOf(base, rs[0], keepids, depth);
      if rs[0].name == p[0] {
        FindInOther(rest, p);
      }
      if head == [] {
        assert all == rest;
      } else {
        assert all[0] == head[0] && all[1..] == rest;
        var sub := base[Position(base, rs[0].name).value].field;
        if rs[0].name == p[0] && !Whole(sub, rs[0].field, depth) && p[1..] != [] {
          SlicedIffAsked(sub.members, rs[0].field.members, keepids, depth + 1, p[1..]);
        }
      }
    }
  }

  lemma {:induction false} SlicedWellNamed(base: seq<Member>, rs: seq<Member>, keepids: bool, depth: nat)
    requires WellNamedAll(base) && WellNamedAll(rs)
    ensures WellNamedAll(Sliced(base, rs, keepids, depth))
    decreases rs
  {
    if rs != [] {
      var rest := Sliced(base, rs[1..], keepids, depth);
      SlicedWellNamed(base, rs[1..], keepids, depth);
      SliceNames(base, rs[1..], keepids, depth);
      var head := SliceOf(base, rs[0], keepids, depth);
      if head == [] {
        assert Sliced(base, rs, keepids, depth) == rest;
      } else {
        var all := Sliced(base, rs, keepids, depth);
        assert all[0] == head[0] && all[1..] == rest;
        var i := Position(base, rs[0].name).value;
        WellNamedMember(base, i);
        if !Whole(base[i].field, rs[0].field, depth) {
          SlicedWellNamed(base[i].field.members, rs[0].field.members, keepids, depth + 1);
        }
      }
    }
  }

  lemma {:induction false} WellNamedMember(ms: seq<Member>, i: nat)
    requires WellNamedAll(ms) && i < |ms|
    ensures WellNamed(ms[i].field) && forall j | 0 <= j < i :: ms[j].name != ms[i].name
    decreases i
  {
    if i > 0 {
      WellNamedMember(ms[1..], i - 1);
      assert ms[i] in ms[1..];
    }
  }

  // ----- the mask and the path reading agree -----

  /** The member whose section holds offset `k`. */
  function SectionOf(ms: seq<Member>, k: nat): (i: nat)
    requires k < SizeAll(ms)
    ensures i < |ms|
  {
    if k < Size(ms[0].field) then 0 else 1 + SectionOf(ms[1..], k - Size(ms[0].field))
  }

  lemma {:induction false} InSection(ms: seq<Member>, k: nat)
    requires k < SizeAll(ms)
    ensures var i := SectionOf(ms, k);
      && SizeAll(ms[..i]) <= k < SizeAll(ms[..i]) + Size(ms[i].field)
      && PathIn(ms, k) == [ms[i].name] + PathAt(ms[i].field, k - SizeAll(ms[..i]))
    decreases ms
  {
    if k >= Size(ms[0].field) {
      InSection(ms[1..], k - Size(ms[0].field));
      var i := SectionOf(ms, k);
      assert ms[..i][1..] == ms[1..][..i - 1];
    } else {
      assert ms[..0] == [];
    }
  }

  lemma {:induction false} PositionOf(ms: seq<Member>, i: nat)
    requires WellNamedAll(ms) && i < |ms|
    ensures Position(ms, ms[i].name) == Some(i)
  {
    WellNamedMember(ms, i);
    assert Position(ms, ms[i].name) != None;
  }

  lemma {:induction false} PrefixOrder(ms: seq<Member>, i: nat, j: nat)
    requires i < j < |ms|
    ensures SizeAll(ms[..i]) + Size(ms[i].field) <= SizeAll(ms[..j])
    decreases j
  {
    PrefixSize(ms, j - 1);
    if i < j - 1 { PrefixOrder(ms, i, j - 1); }
    else { assert ms[..i + 1] == ms[..j]; }
  }

  lemma {:induction false} ChosenBounds(base: seq<Member>, o: nat, rs: seq<Member>, depth: nat)
    ensures forall k | k in Chosen(base, o, rs, depth) :: o < k < o + 1 + SizeAll(base)
    decreases rs, 1
  {
    if rs != [] {
      ChosenByBounds(base, o, rs[0], depth);
      ChosenBounds(base, o, rs[1..], depth);
    }
  }

  lemma {:induction false} ChosenByBounds(base: seq<Member>, o: nat, r: Member, depth: nat)
    ensures forall k | k in ChosenBy(base, o, r, depth) ::
      && Position(base, r.name).Some?
      && var i := Position(base, r.name).value; var q := o + 1 + SizeAll(base[..i]);
        q <= k < q + Size(base[i].field) <= o + 1 + SizeAll(base)
    decreases r, 0
  {
    match Position(base, r.name)
    case None =>
    case Some(i) =>
      MemberStart(base, i);
      NodeSizeIn(base, SizeAll(base[..i]));
      if r.field.Structure? && !Whole(base[i].field, r.field, depth) {
        ChosenBounds(base[i].field.members, o + 1 + SizeAll(base[..i]), r.field.members, depth + 1);
      }
  }

  lemma {:induction false} ChosenByIffAsked(base: seq<Member>, o: nat, r: Member, depth: nat, v: nat)
    requires WellNamedAll(base) && WellNamed(r.field) && v < SizeAll(base)
    ensures PathIn(base, v) != []
    ensures o + 1 + v in ChosenBy(base, o, r, depth) <==>
            r.name == PathIn(base, v)[0] && AskedBy(base, r, depth, PathIn(base, v))
    decreases r, 0
  {
    var i := SectionOf(base, v);
    var s := SizeAll(base[..i]);
    var p := PathIn(base, v);
    InSection(base, v);
    assert p[1..] == PathAt(base[i].field, v - s);
    PositionOf(base, i);
    WellNamedMember(base, i);
    ChosenByBounds(base, o, r, depth);
    if r.name == p[0] {
      var sub := base[i].field;
      FindPath(sub, v - s);
      if r.field.Structure? && !Whole(sub, r.field, depth) && v != s {
        PathNotEmpty(sub, v - s);
        ChosenIffAsked(sub.members, o + 1 + s, r.field.members, depth + 1, v - s - 1);
      }
    } else if Position(base, r.name).Some? {
      var j := Position(base, r.name).value;
      if i < j { PrefixOrder(base, i, j); } else { PrefixOrder(base, j, i); }
    }
  }

  /** The mask has the bit of a field exactly when its name is selected. */
  lemma {:induction false} ChosenIffAsked(base: seq<Member>, o: nat, rs: seq<Member>, depth: nat, v: nat)
    requires WellNamedAll(base) && WellNamedAll(rs) && v < SizeAll(base)
    ensures PathIn(base, v) != []
    ensures o + 1 + v in Chosen(base, o, rs, depth) <==> Asked(base, rs, depth, PathIn(base, v))
    decreases rs, 1
  {
    InSection(base, v);
    if rs != [] {
      ChosenByIffAsked(base, o, rs[0], depth, v);
      ChosenIffAsked(base, o, rs[1..], depth, v);
      if rs[0].name == PathIn(base, v)[0] { NotAsked(base, rs[1..], depth, PathIn(base, v)); }
    }
  }

  // ----- the two types correspond -----

  /** Both are structures, or they are the same type. */
  predicate SameKind(a: Field, b: Field) {
    a == b || (a.Structure? && b.Structure?)
  }

  /** Every field of the selection is a field of the base structure, of the same kind. */
  lemma {:induction false} SliceLinks(base: seq<Member>, r: Member, keepids: bool, depth: nat, k: nat)
    requires WellNamedAll(base) && WellNamed(r.field) && k < SizeAll(SliceOf(base, r, keepids, depth))
    ensures var p := PathIn(SliceOf(base, r, keepids, depth), k);
      p != [] && var found := FindIn(base, p);
      && found.Some? && found.value < SizeAll(base)
      && SameKind(NodeIn(SliceOf(base, r, keepids, depth), k), NodeIn(base, found.value))
    decreases r, 0
  {
    hide Sliced, WellNamedAll, FindIn;
    var slice := SliceOf(base, r, keepids, depth);
    var i := Position(base, r.name).value;
    var sub := base[i].field;
    var p := PathIn(slice, k);
    var g := slice[0].field;
    assert slice == [slice[0]] && Size(g) == SizeAll(slice);
    assert p == [r.name] + PathAt(g, k);
    assert p[1..] == PathAt(g, k);
    assert NodeIn(slice, k) == NodeAt(g, k);
    WellNamedMember(base, i);
    FindInAt(base, i, p);
    MemberStart(base, i);
    var j := k;
    if Whole(sub, r.field, depth) {
      FindPath(sub, k);
    } else if k > 0 {
      SlicedLinks(sub.members, r.field.members, keepids, depth + 1, k - 1);
      j := 1 + FindIn(sub.members, p[1..]).value;
    }
    assert Find(sub, p[1..]) == Some(j);
    SubtreeIn(base, SizeAll(base[..i]), j);
  }

  lemma {:induction false} SlicedLinks(base: seq<Member>, rs: seq<Member>, keepids: bool, depth: nat, k: nat)
    requires WellNamedAll(base) && WellNamedAll(rs) && k < SizeAll(Sliced(base, rs, keepids, depth))
    ensures var p := PathIn(Sliced(base, rs, keepids, depth), k);
      p != [] && var found := FindIn(base, p);
      && found.Some? && found.value < SizeAll(base)
      && SameKind(NodeIn(Sliced(base, rs, keepids, depth), k), NodeIn(base, found.value))
    decreases rs, 1
  {
    var head, rest := SliceOf(base, rs[0], keepids, depth), Sliced(base, rs[1..], keepids, depth);
    var all := Sliced(base, rs, keepids, depth);
    if head == [] {
      assert all == rest;
      SlicedLinks(base, rs[1..], keepids, depth, k);
    } else {
      assert all[0] == head[0] && all[1..] == rest;
      assert head == [head[0]];
      var s := Size(head[0].field);
      if k < s {
        SliceLinks(base, rs[0], keepids, depth, k);
      } else {
        SlicedLinks(base, rs[1..], keepids, depth, k - s);
      }
    }
  }

  /** The structures around a field can be looked up by the beginnings of its name. */
  lemma {:induction false} FindPrefix(f: Field, p: Path, q: Path)
    requires Find(f, p + q).Some?
    ensures Find(f, p).Some?
    decreases f, 0
  {
    if p != [] {
      FindPrefixIn(f.members, p, q);
    }
  }

  lemma {:induction false} FindPrefixIn(ms: seq<Member>, p: Path, q: Path)
    requires p != [] && FindIn(ms, p + q).Some?
    ensures FindIn(ms, p).Some?
    decreases ms, 0
  {
    if ms[0].name == p[0] {
      assert (p + q)[1..] == p[1..] + q;
      FindPrefix(ms[0].field, p[1..], q);
    } else {
      FindPrefixIn(ms[1..], p, q);
    }
  }

  /** `req` is made of fields of `base`, and `mask` holds the offsets in `base` of the selected
      fields: it is closed under enclosing structures and every field in it occurs in `req`. */
  ghost predicate Matches(base: Field, req: Field, mask: set<nat>) {
    && base.Structure? && req.Structure? && WellNamed(base) && WellNamed(req)
    && 0 in mask && (forall b | b in mask :: b < Size(base))
    && (forall b | b in mask :: Find(req, PathAt(base, b)).Some?)
    && (forall r | 0 <= r < Size(req) :: Linked(base, req, r))
    && (forall a: nat, b: nat | b in mask && a < Size(base) && Within(base, a, b) :: a in mask)
  }

  ghost predicate Linked(base: Field, req: Field, r: nat)
    requires r < Size(req)
  {
    var found := Find(base, PathAt(req, r));
    found.Some? && found.value < Size(base) && SameKind(NodeAt(req, r), NodeAt(base, found.value))
  }

  /** What is asked for: the whole structure when no field is named. */
  function SelectedType(base: Field, rs: seq<Member>, keepids: bool): Field
    requires base.Structure?
  {
    if rs == [] then base
    else Structure(if keepids then base.id else "structure", Sliced(base.members, rs, keepids, 0))
  }

  function SelectedMask(base: Field, rs: seq<Member>): set<nat>
    requires base.Structure?
  {
    {0} + if rs == [] then Span(1, Size(base)) else Chosen(base.members, 0, rs, 0)
  }

  /** The mask is the set of fields of the base that occur in the selected type. */
  lemma MaskIffSelected(base: Field, rs: seq<Member>, keepids: bool, b: nat)
    requires base.Structure? && WellNamed(base) && WellNamedAll(rs) && b < Size(base)
    ensures b in SelectedMask(base, rs) <==> Find(SelectedType(base, rs, keepids), PathAt(base, b)).Some?
  {
    if rs == [] {
      FindPath(base, b);
    } else if b > 0 {
      ChosenIffAsked(base.members, 0, rs, 0, b - 1);
      SlicedIffAsked(base.members, rs, keepids, 0, PathAt(base, b));
    }
  }

  lemma SelectionClosed(base: Field, rs: seq<Member>, keepids: bool, a: nat, b: nat)
    requires base.Structure? && WellNamed(base) && WellNamedAll(rs)
    requires b in SelectedMask(base, rs) && b < Size(base) && a < Size(base) && Within(base, a, b)
    ensures a in SelectedMask(base, rs)
  {
    MaskIffSelected(base, rs, keepids, a);
    MaskIffSelected(base, rs, keepids, b);
    Subtree(base, a, b - a);
    FindPrefix(SelectedType(base, rs, keepids), PathAt(base, a), PathAt(NodeAt(base, a), b - a));
  }

  lemma SelectionLinked(base: Field, rs: seq<Member>, keepids: bool, r: nat)
    requires base.Structure? && WellNamed(base) && WellNamedAll(rs)
    requires r < Size(SelectedType(base, rs, keepids))
    ensures Linked(base, SelectedType(base, rs, keepids), r)
  {
    if rs == [] {
      FindPath(base, r);
    } else if r > 0 {
      SlicedLinks(base.members, rs, keepids, 0, r - 1);
    }
  }

  /** In Slice mode. */
  lemma SelectionMatches(base: Field, rs: seq<Member>, keepids: bool)
    requires base.Structure? && WellNamed(base) && WellNamedAll(rs)
    ensures Matches(base, SelectedType(base, rs, keepids), SelectedMask(base, rs))
  {
    hide NodeAt, PathAt, Find, Chosen, Sliced, Size, SizeAll, WellNamedAll, Linked, NodeIn, Within;
    var req, mask := SelectedType(base, rs, keepids), SelectedMask(base, rs);
    MaskInside(base, rs);
    SlicedWellNamed(base.members, rs, keepids, 0);
    forall b | b in mask
      ensures Find(req, PathAt(base, b)).Some?
    {
      MaskIffSelected(base, rs, keepids, b);
    }
    forall r | 0 <= r < Size(req)
      ensures Linked(base, req, r)
    {
      SelectionLinked(base, rs, keepids, r);
    }
    forall a: nat, b: nat | b in mask && a < Size(base) && Within(base, a, b)
      ensures a in mask
    {
      SelectionClosed(base, rs, keepids, a, b);
    }
  }

  lemma MaskInside(base: Field, rs: seq<Member>)
    requires base.Structure?
    ensures forall b | b in SelectedMask(base, rs) :: b < Size(base)
  {
    ChosenBounds(base.members, 0, rs, 0);
  }

  /** In Mask mode the requested type is the base type. */
  lemma MaskModeMatches(base: Field, req: Field, mask: set<nat>)
    requires Matches(base, req, mask)
    ensures Matches(base, base, mask)
  {
    forall r | 0 <= r < Size(base)
      ensures Find(base, PathAt(base, r)) == Some(r)
    {
      FindPath(base, r);
    }
  }

  /** In Slice mode every requested field is a selected field of the base. */
  lemma SliceIsTotal(base: Field, rs: seq<Member>, keepids: bool, r: nat)
    requires base.Structure? && WellNamed(base) && WellNamedAll(rs)
    requires r < Size(SelectedType(base, rs, keepids))
    ensures var found := Find(base, PathAt(SelectedType(base, rs, keepids), r));
      found.Some? && found.value in SelectedMask(base, rs)
  {
    var req := SelectedType(base, rs, keepids);
    SelectionMatches(base, rs, keepids);
    assert Linked(base, req, r);
    PathFind(base, PathAt(req, r));
    FindPath(req, r);
    MaskIffSelected(base, rs, keepids, Find(base, PathAt(req, r)).value);
  }
}
