/** PVRequestMapper: the selection that a pvRequest makes from a base structure, and the copies
    between the two.  A mapper is a lens: what is put comes back, putting back what was got
    changes nothing, and fields that are not selected never change. */
module RequestMapper {
  import opened Fields
  import opened Values
  import opened BitSets
  import opened Names
  import opened PVTree
  import opened Lookup
  import opened MaskedCopy
  import opened Selection
  import opened MapperTables
  import opened MapperCopy

  datatype Mode = MaskMode | SliceMode

  datatype Outcome = Computed | NotTopLevel | InvalidRequest

  /** The fields named below "field" in the request; none when it is missing or no structure. */
  function FieldsOf(pvRequest: Field): seq<Member>
    requires pvRequest.Structure?
  {
    match Position(pvRequest.members, "field")
    case None => []
    case Some(i) => if pvRequest.members[i].field.Structure? then pvRequest.members[i].field.members else []
  }

  /** It is what a lookup of "field" in the request finds. */
  lemma FieldsAreNamed(pvRequest: Field)
    requires pvRequest.Structure? && WellNamed(pvRequest)
    ensures match Find(pvRequest, ["field"])
      case None => FieldsOf(pvRequest) == []
      case Some(k) =>
        && k < Size(pvRequest)
        && FieldsOf(pvRequest) == if NodeAt(pvRequest, k).Structure? then NodeAt(pvRequest, k).members else []
  {
    var ms, p := pvRequest.members, ["field"];
    match Position(ms, "field")
    case None => FindInNone(ms, p);
    case Some(i) =>
      FindInAt(ms, i, p);
      assert p[1..] == [];
      MemberStart(ms, i);
      NodeSizeIn(ms, SizeAll(ms[..i]));
  }

  function RequestedType(base: Field, rs: seq<Member>, keepids: bool, mode: Mode): Field
    requires base.Structure?
  {
    if mode == MaskMode then base else SelectedType(base, rs, keepids)
  }

  /** The tables pair the selected fields of the base with the fields of the request. */
  ghost predicate MappedBy(base: Field, req: Field, mask: set<nat>, base2req: seq<Mapping>, req2base: seq<Mapping>) {
    Matches(base, req, mask) && Table(base2req, base, req, mask) && Table(req2base, req, base, Requested(base, req, mask))
  }

  /** No named field stands for all of them; otherwise the request is walked. */
  method SelectFields(base: Field, end: nat, fields: seq<Member>, keepids: bool, maskRequested: BitSet)
    returns (ok: bool, typeRequested: Field)
    requires base.Structure? && end == Size(base) && maskRequested.Valid() && maskRequested.Bits() == {}
    modifies maskRequested
    ensures maskRequested.Valid() && {0} + maskRequested.Bits() == SelectedMask(base, fields)
    ensures typeRequested == SelectedType(base, fields, keepids)
    ensures ok <==> Composed(fields)
  {
    if fields == [] {
      for i := 1 to end
        invariant maskRequested.Valid() && maskRequested.Bits() == Span(1, i)
      {
        maskRequested.Set(i);
      }
      return true, base;
    }
    var composed, builder := Selection.Compute(base, 0, fields, keepids, 0, maskRequested);
    return composed, Structure(if keepids then base.id else "structure", builder);
  }

  // ----- what the copies compute -----

  /** The contents of the request after a copy from the base under base mask `m`. */
  ghost function Get(base: Field, req: Field, mask: set<nat>, m: set<nat>, basev: seq<Value>, reqv: seq<Value>): (s: seq<Value>)
    requires Matches(base, req, mask) && |basev| == Size(base) && |reqv| == Size(req)
    ensures |s| == Size(req)
  {
    Transfer(base, req, Reached(base, mask, m, Size(base)), basev, reqv)
  }

  /** The contents of the base after a copy from the request under request mask `m`. */
  ghost function Put(base: Field, req: Field, mask: set<nat>, m: set<nat>, reqv: seq<Value>, basev: seq<Value>): (s: seq<Value>)
    requires Matches(base, req, mask) && |basev| == Size(base) && |reqv| == Size(req)
    ensures |s| == Size(base)
  {
    Transfer(req, base, Reached(req, Requested(base, req, mask), m, Size(req)), reqv, basev)
  }

  /** Every base leaf that is copied fits. */
  ghost predicate GetAccepted(base: Field, req: Field, mask: set<nat>, m: set<nat>, basev: seq<Value>)
    requires Matches(base, req, mask) && |basev| == Size(base)
  {
    AllFit(base, Reached(base, mask, m, Size(base)), basev)
  }

  /** Every requested leaf that is copied fits. */
  ghost predicate PutAccepted(base: Field, req: Field, mask: set<nat>, m: set<nat>, reqv: seq<Value>)
    requires Matches(base, req, mask) && |reqv| == Size(req)
  {
    AllFit(req, Reached(req, Requested(base, req, mask), m, Size(req)), reqv)
  }

  ghost function Translated(base: Field, req: Field, mask: set<nat>, m: set<nat>): set<nat>
    requires Matches(base, req, mask)
  {
    Partners(base, req, Reached(base, mask, m, Size(base)))
  }

  ghost function TranslatedBack(base: Field, req: Field, mask: set<nat>, m: set<nat>): set<nat>
    requires Matches(base, req, mask)
  {
    Partners(req, base, Reached(req, Requested(base, req, mask), m, Size(req)))
  }

  class PVRequestMapper {
    var typeBase: Option<Field>
    var typeRequested: Option<Field>
    var maskRequested: BitSet
    var base2req: seq<Mapping>
    var req2base: seq<Mapping>

    ghost predicate Valid()
      reads this, maskRequested
    {
      && maskRequested.Valid()
      && (typeBase.Some? <==> typeRequested.Some?)
      && (if typeBase.Some? then MappedBy(typeBase.value, typeRequested.value, maskRequested.Bits(), base2req, req2base)
          else maskRequested.Bits() == {} && base2req == [] == req2base)
    }

    constructor ()
      ensures Valid() && typeBase == None && fresh(maskRequested)
    {
      typeBase, typeRequested, base2req, req2base := None, None, [], [];
      maskRequested := new BitSet();
    }

    method Reset()
      modifies this
      ensures Valid() && typeBase == None && fresh(maskRequested)
    {
      typeBase, typeRequested, base2req, req2base := None, None, [], [];
      maskRequested := new BitSet();
    }

    method Swap(other: PVRequestMapper)
      modifies this, other
      ensures typeBase == old(other.typeBase) && other.typeBase == old(typeBase)
      ensures typeRequested == old(other.typeRequested) && other.typeRequested == old(typeRequested)
      ensures maskRequested == old(other.maskRequested) && other.maskRequested == old(maskRequested)
      ensures base2req == old(other.base2req) && other.base2req == old(base2req)
      ensures req2base == old(other.req2base) && other.req2base == old(req2base)
    {
      typeBase, other.typeBase := other.typeBase, typeBase;
      typeRequested, other.typeRequested := other.typeRequested, typeRequested;
      maskRequested, other.maskRequested := other.maskRequested, maskRequested;
      base2req, other.base2req := other.base2req, base2req;
      req2base, other.req2base := other.req2base, req2base;
    }

    /** The mapper changes only if the whole computation succeeds. */
    method Compute(base: Tree, pvRequest: Field, keepids: bool, mode: Mode, ghost o: nat) returns (outcome: Outcome)
      requires WellFormed(base) && base.field.Structure? && Numbered(base, o)
      requires WellNamed(base.field) && ValidNames(base.field)
      requires pvRequest.Structure? && WellNamed(pvRequest)
      modifies this
      ensures outcome == NotTopLevel <==> o != 0
      ensures outcome == Computed <==> o == 0 && Composed(FieldsOf(pvRequest)) && SelectedMask(base.field, FieldsOf(pvRequest)) != {0}
      ensures outcome != Computed ==> unchanged(this)
      ensures outcome == Computed ==> Valid() && fresh(maskRequested)
      ensures outcome == Computed ==>
        && typeBase == Some(base.field)
        && typeRequested == Some(RequestedType(base.field, FieldsOf(pvRequest), keepids, mode))
        && maskRequested.Bits() == SelectedMask(base.field, FieldsOf(pvRequest))
      ensures outcome == Computed && mode == MaskMode ==> typeRequested == typeBase
      ensures outcome == Computed && mode == SliceMode ==> typeRequested == Some(SelectedType(base.field, FieldsOf(pvRequest), keepids))
    {
      hide Shaped, Nodes, Size, Distinct, Numbered, BitSet.Bits, BitSet.Valid, Matches, Table, Requested, WellFormed, WellNamed;
      NumberedTop(base, o);
      if base.node.fieldOffset != 0 {
        return NotTopLevel;
      }
      var temp := new PVRequestMapper();
      var fields := FieldsOf(pvRequest);
      FieldsWellNamed(pvRequest);
      var maskRequested := temp.maskRequested;
      var ok, typeRequested := SelectFields(base.field, base.node.nextFieldOffset, fields, keepids, maskRequested);
      SelectionMatches(base.field, fields, keepids);
      if mode == MaskMode {
        MaskModeMatches(base.field, typeRequested, SelectedMask(base.field, fields));
        typeRequested := base.field;
      }
      assert {0} + maskRequested.Bits() == SelectedMask(base.field, fields);
      temp.base2req, temp.req2base := FillTables(base.field, typeRequested, maskRequested);
      temp.typeBase, temp.typeRequested := Some(base.field), Some(typeRequested);
      maskRequested.Set(0);
      assert maskRequested.Bits() == SelectedMask(base.field, fields);
      var first := maskRequested.NextSetBit(1);
      OnlyTop(maskRequested.Bits(), first);
      if first == -1 {
        ok := false;
      }
      if !ok {
        return InvalidRequest;
      }
      assert temp.Valid();
      Swap(temp);
      assert Valid();
      return Computed;
    }

    method CopyBaseToRequested(base: Tree, baseMask: BitSet, request: Tree, requestMask: BitSet) returns (ok: bool)
      requires Valid() && typeBase == Some(base.field) && typeRequested == Some(request.field)
      requires WellFormed(base) && WellFormed(request) && Numbered(base, 0) && Numbered(request, 0)
      requires SameOrApart(request, base)
      requires request == base || PairsParted(base.field, request.field, maskRequested.Bits(), Contents(base), Contents(request))
      requires baseMask.Valid() && requestMask.Valid() && requestMask != maskRequested
      modifies Nodes(request)`value, requestMask
      ensures Valid() && requestMask.Valid()
      ensures |Nodes(base)| == Size(base.field) && |Nodes(request)| == Size(request.field)
      ensures ok <==>
        request == base || GetAccepted(base.field, request.field, maskRequested.Bits(), old(baseMask.Bits()), old(Contents(base)))
      ensures ok ==> Contents(request) == Get(base.field, request.field, maskRequested.Bits(), old(baseMask.Bits()),
                                              old(Contents(base)), old(Contents(request)))
      ensures ok ==>
        requestMask.Bits() == old(requestMask.Bits()) + Translated(base.field, request.field, maskRequested.Bits(), old(baseMask.Bits()))
      ensures !ok ==> exists k, marked ::
        && StoppedAt(base.field, request.field, maskRequested.Bits(), old(baseMask.Bits()),
                     old(Contents(base)), old(Contents(request)), k, Contents(request), marked)
        && requestMask.Bits() == old(requestMask.Bits()) + marked
    {
      BothPairings(base.field, request.field, maskRequested.Bits());
      ok := MapFields(base2req, base, baseMask, request, requestMask, false, maskRequested.Bits());
    }

    /** Bits of fields that are not selected are not allowed in the mask; there are none in Slice
        mode. */
    method CopyBaseFromRequested(base: Tree, baseMask: BitSet, request: Tree, requestMask: BitSet) returns (ok: bool)
      requires Valid() && typeBase == Some(base.field) && typeRequested == Some(request.field)
      requires WellFormed(base) && WellFormed(request) && Numbered(base, 0) && Numbered(request, 0)
      requires SameOrApart(base, request)
      requires base == request || PairsParted(request.field, base.field,
                                              Requested(base.field, request.field, maskRequested.Bits()), Contents(request), Contents(base))
      requires baseMask.Valid() && requestMask.Valid() && baseMask != maskRequested
      requires forall r | r in requestMask.Bits() && r < Size(request.field) ::
        r in Requested(base.field, request.field, maskRequested.Bits())
      modifies Nodes(base)`value, baseMask
      ensures Valid() && baseMask.Valid()
      ensures |Nodes(base)| == Size(base.field) && |Nodes(request)| == Size(request.field)
      ensures ok <==>
        base == request || PutAccepted(base.field, request.field, maskRequested.Bits(), old(requestMask.Bits()), old(Contents(request)))
      ensures ok ==> Contents(base) == Put(base.field, request.field, maskRequested.Bits(), old(requestMask.Bits()),
                                           old(Contents(request)), old(Contents(base)))
      ensures ok ==>
        baseMask.Bits() == old(baseMask.Bits()) + TranslatedBack(base.field, request.field, maskRequested.Bits(), old(requestMask.Bits()))
      ensures !ok ==> exists k, marked ::
        && StoppedAt(request.field, base.field, Requested(base.field, request.field, maskRequested.Bits()), old(requestMask.Bits()),
                     old(Contents(request)), old(Contents(base)), k, Contents(base), marked)
        && baseMask.Bits() == old(baseMask.Bits()) + marked
    {
      BothPairings(base.field, request.field, maskRequested.Bits());
      ok := MapFields(req2base, request, requestMask, base, baseMask, true,
                      Requested(base.field, request.field, maskRequested.Bits()));
    }

    /** Sets the bits that CopyBaseToRequested would set. */
    method MaskBaseToRequested(baseMask: BitSet, requestMask: BitSet)
      requires Valid() && typeBase.Some?
      requires baseMask.Valid() && requestMask.Valid() && requestMask != maskRequested && requestMask != baseMask
      modifies requestMask
      ensures Valid() && requestMask.Valid()
      ensures requestMask.Bits() == old(requestMask.Bits())
        + Translated(typeBase.value, typeRequested.value, maskRequested.Bits(), baseMask.Bits())
    {
      ghost var base, req := typeBase.value, typeRequested.value;
      BothPairings(base, req, maskRequested.Bits());
      MapMask(base2req, baseMask, requestMask, false, base, req, maskRequested.Bits());
    }

    /** Sets the bits that CopyBaseFromRequested would set. */
    method MaskBaseFromRequested(baseMask: BitSet, requestMask: BitSet)
      requires Valid() && typeBase.Some?
      requires baseMask.Valid() && requestMask.Valid() && baseMask != maskRequested && requestMask != baseMask
      requires forall r | r in requestMask.Bits() && r < Size(typeRequested.value) ::
        r in Requested(typeBase.value, typeRequested.value, maskRequested.Bits())
      modifies baseMask
      ensures Valid() && baseMask.Valid()
      ensures baseMask.Bits() == old(baseMask.Bits())
        + TranslatedBack(typeBase.value, typeRequested.value, maskRequested.Bits(), requestMask.Bits())
    {
      ghost var base, req := typeBase.value, typeRequested.value;
      BothPairings(base, req, maskRequested.Bits());
      MapMask(req2base, requestMask, baseMask, true, req, base, Requested(base, req, maskRequested.Bits()));
    }
  }

  lemma OnlyTop(s: set<nat>, first: int)
    requires 0 in s && IsNext(s, 1, first)
    ensures first == -1 <==> s == {0}
  {}

  lemma FieldsWellNamed(pvRequest: Field)
    requires pvRequest.Structure? && WellNamed(pvRequest)
    ensures WellNamedAll(FieldsOf(pvRequest))
  {
    var i := Position(pvRequest.members, "field");
    if i.Some? { WellNamedMember(pvRequest.members, i.value); }
  }
}
