/** The two offset tables of PVRequestMapper.  Between a base structure and a requested structure
    made of some of its fields, every selected field has an entry in both tables: where it is in
    the other structure and, for a structure, which bits its own bit stands for. */
module MapperTables {
  import opened Fields
  import opened BitSets
  import opened Names
  import opened Selection

  datatype Mapping =
    | Hole
    | Mapping(to: nat, leaf: bool, tomask: set<nat>, frommask: set<nat>)

  // ----- what the tables should hold -----

  /** The field of `y` with the name of field `k` of `x`. */
  function Partner(x: Field, y: Field, k: nat): nat
    requires k < Size(x)
  {
    match Find(y, PathAt(x, k))
    case Some(j) => j
    case None => 0
  }

  /** The selected fields inside structure `k`. */
  function Inner(x: Field, paired: set<nat>, k: nat): set<nat>
    requires k < Size(x)
  {
    set j | j in paired && k < j && Within(x, k, j)
  }

  function Partners(x: Field, y: Field, s: set<nat>): set<nat>
    requires forall j | j in s :: j < Size(x)
  {
    set j | j in s :: Partner(x, y, j)
  }

  /** The entry for field `k` when the fields in `paired` have entries. */
  function Entry(x: Field, y: Field, paired: set<nat>, k: nat): Mapping
    requires k < Size(x) && forall j | j in paired :: j < Size(x)
  {
    if k !in paired then Hole
    else Mapping(Partner(x, y, k), !NodeAt(x, k).Structure?, Partners(x, y, Inner(x, paired, k)), Inner(x, paired, k))
  }

  ghost predicate Table(table: seq<Mapping>, x: Field, y: Field, paired: set<nat>) {
    && |table| == Size(x)
    && (forall j | j in paired :: j < Size(x))
    && (forall k | 0 <= k < Size(x) :: table[k] == Entry(x, y, paired, k))
  }

  /** The fields of `req` whose partners are selected. */
  function Requested(base: Field, req: Field, mask: set<nat>): set<nat> {
    set r | r in Span(0, Size(req)) && Partner(req, base, r) in mask
  }

  // ----- partners -----

  lemma PartnerOfRequested(base: Field, req: Field, mask: set<nat>, r: nat)
    requires Matches(base, req, mask) && r < Size(req)
    ensures var b := Partner(req, base, r);
      b < Size(base) && PathAt(base, b) == PathAt(req, r) && Partner(base, req, b) == r
      && SameKind(NodeAt(req, r), NodeAt(base, b))
  {
    assert Linked(base, req, r);
    PathFind(base, PathAt(req, r));
    FindPath(req, r);
  }

  lemma PartnerOfBase(base: Field, req: Field, mask: set<nat>, b: nat)
    requires Matches(base, req, mask) && b in mask
    ensures var r := Partner(base, req, b);
      r < Size(req) && PathAt(req, r) == PathAt(base, b) && Partner(req, base, r) == b
      && r in Requested(base, req, mask)
  {
    PathFind(req, PathAt(base, b));
    FindPath(base, b);
  }

  /** Partners lie inside each other alike. */
  lemma PartnersNest(base: Field, req: Field, mask: set<nat>, a: nat, b: nat)
    requires Matches(base, req, mask) && a < Size(req) && b < Size(req)
    ensures Partner(req, base, a) < Size(base) && Partner(req, base, b) < Size(base)
    ensures Within(req, a, b) <==> Within(base, Partner(req, base, a), Partner(req, base, b))
    ensures a == b <==> Partner(req, base, a) == Partner(req, base, b)
  {
    PartnerOfRequested(base, req, mask, a);
    PartnerOfRequested(base, req, mask, b);
    WithinIffPrefix(req, a, b);
    WithinIffPrefix(base, Partner(req, base, a), Partner(req, base, b));
  }

  // ----- enclosing structures -----

  /** The structure directly around field `k`. */
  function Parent(f: Field, k: nat): nat
    requires WellNamed(f) && 0 < k < Size(f)
  {
    var p := PathAt(f, k);
    if p == [] then 0
    else match Find(f, p[..|p| - 1]) case Some(a) => a case None => 0
  }

  lemma ParentPath(f: Field, k: nat)
    requires WellNamed(f) && 0 < k < Size(f)
    ensures PathAt(f, k) != []
    ensures Parent(f, k) < Size(f) && PathAt(f, Parent(f, k)) == PathAt(f, k)[..|PathAt(f, k)| - 1]
  {
    var p := PathAt(f, k);
    if p == [] {
      PathInjective(f, 0, k);
      assert false;
    }
    FindPath(f, k);
    assert p == p[..|p| - 1] + p[|p| - 1..];
    FindPrefix(f, p[..|p| - 1], p[|p| - 1..]);
    PathFind(f, p[..|p| - 1]);
  }

  /** The structures around a field are its parent and the structures around the parent. */
  lemma ParentAround(f: Field, k: nat, a: nat)
    requires WellNamed(f) && 0 < k < Size(f) && a < Size(f)
    ensures Parent(f, k) < k && Within(f, Parent(f, k), k)
    ensures a < k && Within(f, a, k) <==> a <= Parent(f, k) && Within(f, a, Parent(f, k))
  {
    hide PathAt, Parent, Find;
    ParentPath(f, k);
    var q := Parent(f, k);
    WithinIffPrefix(f, q, k);
    WithinIffPrefix(f, a, k);
    WithinIffPrefix(f, a, q);
    if PathAt(f, a) <= PathAt(f, k) && !(PathAt(f, a) <= PathAt(f, q)) {
      assert PathAt(f, a) == PathAt(f, k);
      PathInjective(f, a, k);
    }
  }

  // ----- filling the tables -----

  predicate Around(f: Field, a: nat, k: nat)
    requires a < Size(f)
  {
    a < k && Within(f, a, k)
  }

  function WithBits(m: Mapping, toBit: nat, fromBit: nat): Mapping {
    if m.Hole? then Hole else m.(tomask := m.tomask + {toBit}, frommask := m.frommask + {fromBit})
  }

  /** Adds a field to the masks of all structures around field `k`. */
  method AddToParents(x: Field, k: nat, table: seq<Mapping>, toBit: nat, fromBit: nat) returns (r: seq<Mapping>)
    requires WellNamed(x) && k < Size(x) == |table|
    requires forall a | 0 <= a < |table| && Around(x, a, k) :: table[a].Mapping?
    ensures |r| == |table|
    ensures forall a | 0 <= a < |table| ::
      r[a] == if Around(x, a, k) then WithBits(table[a], toBit, fromBit) else table[a]
  {
    hide Parent, Within, Size;
    r := table;
    var p := k;
    assert Within(x, k, k) by { WithinSelf(x, k); }
    while p != 0
      invariant 0 <= p <= k && Within(x, p, k) && |r| == |table|
      invariant forall a | 0 <= a < |table| ::
        r[a] == if p <= a && Around(x, a, k) then WithBits(table[a], toBit, fromBit) else table[a]
    {
      var q := Parent(x, p);
      ParentAround(x, p, 0);
      WithinTransitive(x, q, p, k);
      forall a: nat | q < a < p
        ensures !Around(x, a, k)
      {
        ParentAround(x, p, a);
        if Within(x, a, k) { WithinNested(x, a, p, k); }
      }
      r := r[q := r[q].(tomask := r[q].tomask + {toBit}, frommask := r[q].frommask + {fromBit})];
      p := q;
    }
  }

  lemma WithinSelf(f: Field, k: nat)
    requires k < Size(f)
    ensures Within(f, k, k)
  {}

  lemma WithinNested(f: Field, a: nat, p: nat, k: nat)
    requires a <= p <= k && p < Size(f) && Within(f, a, k)
    ensures Within(f, a, p)
  {}

  lemma WithinTransitive(f: Field, q: nat, p: nat, k: nat)
    requires WellNamed(f) && q < Size(f) && p < Size(f) && k < Size(f) && Within(f, q, p) && Within(f, p, k)
    ensures Within(f, q, k)
  {
    WithinIffPrefix(f, q, p);
    WithinIffPrefix(f, p, k);
    WithinIffPrefix(f, q, k);
  }

  lemma InnerGrows(x: Field, paired: set<nat>, k: nat, a: nat)
    requires a < Size(x) && k < Size(x) && forall j | j in paired :: !Around(x, k, j)
    ensures Inner(x, paired + {k}, a) ==
      if a == k then {} else if Around(x, a, k) then Inner(x, paired, a) + {k} else Inner(x, paired, a)
  {
    hide Within, Size;
  }

  lemma PartnersGrow(x: Field, y: Field, s: set<nat>, k: nat)
    requires k < Size(x) && forall j | j in s :: j < Size(x)
    ensures Partners(x, y, s + {k}) == Partners(x, y, s) + {Partner(x, y, k)}
    ensures Partners(x, y, {}) == {}
  {
    hide Partner, Size;
  }

  /** How an entry changes when field `k` is entered and nothing inside `k` has been yet. */
  lemma EntryGrows(x: Field, y: Field, paired: set<nat>, k: nat, a: nat)
    requires k < Size(x) && a < Size(x) && k !in paired && forall j | j in paired :: j < Size(x)
    requires forall j | j in paired :: !Around(x, k, j)
    ensures Entry(x, y, paired + {k}, a) ==
      if a == k then Mapping(Partner(x, y, k), !NodeAt(x, k).Structure?, {}, {})
      else if Around(x, a, k) then WithBits(Entry(x, y, paired, a), Partner(x, y, k), k)
      else Entry(x, y, paired, a)
  {
    hide Partner, Within, Size, NodeAt, Inner, Partners, Around;
    InnerGrows(x, paired, k, a);
    InnerInside(x, paired, a);
    PartnersGrow(x, y, Inner(x, paired, a), k);
  }

  lemma InnerInside(x: Field, paired: set<nat>, i: nat)
    requires i < Size(x)
    ensures Inner(x, paired, i) <= paired
  {}

  /** The step that enters field `k`, on a whole table. */
  lemma TableStep(x: Field, y: Field, paired: set<nat>, k: nat, before: seq<Mapping>, after: seq<Mapping>)
    requires Table(before, x, y, paired) && k < Size(x) && k !in paired && |after| == |before|
    requires forall j | j in paired :: !Around(x, k, j)
    requires after[k] == Mapping(Partner(x, y, k), !NodeAt(x, k).Structure?, {}, {})
    requires forall a | 0 <= a < |before| && a != k ::
      after[a] == if Around(x, a, k) then WithBits(before[a], Partner(x, y, k), k) else before[a]
    ensures Table(after, x, y, paired + {k})
  {
    hide Partner, Within, Size, NodeAt, Entry, Around;
    forall a | 0 <= a < Size(x)
      ensures after[a] == Entry(x, y, paired + {k}, a)
    {
      EntryGrows(x, y, paired, k, a);
    }
  }

  /** The selected fields of the base whose partners come before offset `n`. */
  function BaseDone(base: Field, req: Field, mask: set<nat>, n: nat): set<nat>
    requires forall b | b in mask :: b < Size(base)
  {
    set b | b in mask && Partner(base, req, b) < n
  }

  function ReqDone(base: Field, req: Field, mask: set<nat>, n: nat): set<nat> {
    set r | r in Requested(base, req, mask) && r < n
  }

  /** The tables before any field is entered: only the top is paired. */
  lemma FirstTables(base: Field, req: Field, mask: set<nat>)
    requires Matches(base, req, mask)
    ensures BaseDone(base, req, mask, 1) == {0} == ReqDone(base, req, mask, 1)
    ensures Entry(base, req, {0}, 0) == Mapping(0, false, {}, {}) == Entry(req, base, {0}, 0)
  {
    assert Partner(base, req, 0) == 0 && Partner(req, base, 0) == 0;
    forall b | b in mask && Partner(base, req, b) < 1
      ensures b == 0
    {
      PartnerOfBase(base, req, mask, b);
    }
    assert Inner(base, {0}, 0) == {} == Inner(req, {0}, 0);
  }

  lemma LastTables(base: Field, req: Field, mask: set<nat>)
    requires Matches(base, req, mask)
    ensures BaseDone(base, req, mask, Size(req)) == mask
    ensures ReqDone(base, req, mask, Size(req)) == Requested(base, req, mask)
  {
    forall b | b in mask
      ensures Partner(base, req, b) < Size(req)
    {
      PartnerOfBase(base, req, mask, b);
    }
  }

  /** Entering requested field `r` pairs its partner, if that is selected. */
  lemma NextDone(base: Field, req: Field, mask: set<nat>, r: nat)
    requires Matches(base, req, mask) && r < Size(req)
    ensures var b := Partner(req, base, r);
      && b < Size(base) && b !in BaseDone(base, req, mask, r) && r !in ReqDone(base, req, mask, r)
      && BaseDone(base, req, mask, r + 1) == BaseDone(base, req, mask, r) + (if b in mask then {b} else {})
      && ReqDone(base, req, mask, r + 1) == ReqDone(base, req, mask, r) + (if b in mask then {r} else {})
  {
    var b := Partner(req, base, r);
    PartnerOfRequested(base, req, mask, r);
    forall c | c in mask
      ensures Partner(base, req, c) == r <==> c == b
    {
      PartnerOfBase(base, req, mask, c);
    }
  }

  /** All structures around a selected field are selected and have been entered before it, and
      nothing inside it has. */
  lemma NestingDone(base: Field, req: Field, mask: set<nat>, r: nat)
    requires Matches(base, req, mask) && r < Size(req) && Partner(req, base, r) in mask
    ensures var b := Partner(req, base, r);
      && b < Size(base)
      && (forall a | 0 <= a < Size(req) && Around(req, a, r) :: a in ReqDone(base, req, mask, r))
      && (forall a | 0 <= a < Size(base) && Around(base, a, b) :: a in BaseDone(base, req, mask, r))
      && (forall j | j in ReqDone(base, req, mask, r) :: !Around(req, r, j))
      && (forall j | j in BaseDone(base, req, mask, r) :: !Around(base, b, j))
  {
    hide Partner, Within, Size, NodeAt, PathAt;
    var b := Partner(req, base, r);
    PartnerOfRequested(base, req, mask, r);
    forall a | 0 <= a < Size(req) && Around(req, a, r)
      ensures a in ReqDone(base, req, mask, r)
    {
      PartnersNest(base, req, mask, a, r);
    }
    forall a | 0 <= a < Size(base) && Around(base, a, b)
      ensures a in BaseDone(base, req, mask, r)
    {
      PartnerOfBase(base, req, mask, a);
      PartnersNest(base, req, mask, Partner(base, req, a), r);
      WithinOrder(req, Partner(base, req, a), r);
    }
    forall j | j in BaseDone(base, req, mask, r)
      ensures !Around(base, b, j)
    {
      PartnerOfBase(base, req, mask, j);
      PartnersNest(base, req, mask, r, Partner(base, req, j));
      WithinOrder(req, r, Partner(base, req, j));
    }
  }

  lemma WithinOrder(f: Field, a: nat, b: nat)
    requires a < Size(f)
    ensures Within(f, a, b) ==> a <= b
  {}

  /** The loop of PVRequestMapper::compute that fills both tables. */
  method FillTables(base: Field, req: Field, maskRequested: BitSet) returns (base2req: seq<Mapping>, req2base: seq<Mapping>)
    requires Matches(base, req, {0} + maskRequested.Bits()) && ValidNames(base)
    ensures Table(base2req, base, req, {0} + maskRequested.Bits())
    ensures Table(req2base, req, base, Requested(base, req, {0} + maskRequested.Bits()))
  {
    hide Partner, Within, Size, NodeAt, PathAt, Entry, Around, BaseDone, ReqDone, Requested, Linked;
    ghost var mask := {0} + maskRequested.Bits();
    base2req := seq(Size(base), _ => Hole)[0 := Mapping(0, false, {}, {})];
    req2base := seq(Size(req), _ => Hole)[0 := Mapping(0, false, {}, {})];
    FirstTables(base, req, mask);
    HoleEntries(base, req, base2req);
    HoleEntries(req, base, req2base);
    for r := 1 to Size(req)
      invariant Table(base2req, base, req, BaseDone(base, req, mask, r))
      invariant Table(req2base, req, base, ReqDone(base, req, mask, r))
    {
      NextDone(base, req, mask, r);
      NameOfPartner(base, req, mask, r);
      var b := LookupName(base, FullName(req, r)).value;
      var selected := maskRequested.Get(b);
      if selected {
        var leaf := !NodeAt(base, b).Structure?;
        EnterPair(base, req, mask, r, base2req, req2base);
        ghost var b0, r0 := base2req, req2base;
        base2req := base2req[b := Mapping(r, leaf, {}, {})];
        req2base := req2base[r := Mapping(b, leaf, {}, {})];
        req2base := AddToParents(req, r, req2base, b, r);
        base2req := AddToParents(base, b, base2req, r, b);
        NotAroundSelf(base, b);
        NotAroundSelf(req, r);
        TableStep(base, req, BaseDone(base, req, mask, r), b, b0, base2req);
        TableStep(req, base, ReqDone(base, req, mask, r), r, r0, req2base);
      } else {
        assert BaseDone(base, req, mask, r + 1) == BaseDone(base, req, mask, r);
        assert ReqDone(base, req, mask, r + 1) == ReqDone(base, req, mask, r);
      }
    }
    LastTables(base, req, mask);
  }

  lemma NotAroundSelf(f: Field, k: nat)
    requires k < Size(f)
    ensures !Around(f, k, k)
  {}

  lemma HoleEntries(x: Field, y: Field, table: seq<Mapping>)
    requires |table| == Size(x) && forall k | 1 <= k < |table| :: table[k] == Hole
    requires table[0] == Entry(x, y, {0}, 0)
    ensures Table(table, x, y, {0})
  {}

  /** What is needed to enter the pair of `r`: the entries of the structures around exist. */
  lemma EnterPair(base: Field, req: Field, mask: set<nat>, r: nat, base2req: seq<Mapping>, req2base: seq<Mapping>)
    requires Matches(base, req, mask) && 0 < r < Size(req) && Partner(req, base, r) in mask
    requires Table(base2req, base, req, BaseDone(base, req, mask, r))
    requires Table(req2base, req, base, ReqDone(base, req, mask, r))
    ensures var b := Partner(req, base, r);
      && b < Size(base)
      && Partner(base, req, b) == r
      && NodeAt(base, b).Structure? == NodeAt(req, r).Structure?
      && (forall a | 0 <= a < Size(req) && Around(req, a, r) :: req2base[a].Mapping?)
      && (forall a | 0 <= a < Size(base) && Around(base, a, b) :: base2req[a].Mapping?)
      && (forall j | j in ReqDone(base, req, mask, r) :: !Around(req, r, j))
      && (forall j | j in BaseDone(base, req, mask, r) :: !Around(base, b, j))
  {
    hide Partner, Within, Size, NodeAt, PathAt, Around, BaseDone, ReqDone, Requested;
    PartnerOfRequested(base, req, mask, r);
    NestingDone(base, req, mask, r);
  }

  /** The lookup of the full name in the base succeeds and finds the partner. */
  lemma NameOfPartner(base: Field, req: Field, mask: set<nat>, r: nat)
    requires Matches(base, req, mask) && ValidNames(base) && 0 < r < Size(req)
    ensures Partner(req, base, r) != 0
    ensures LookupName(base, FullName(req, r)) == Some(Partner(req, base, r))
  {
    PartnerOfRequested(base, req, mask, r);
    var b := Partner(req, base, r);
    PathNotEmpty(req, r);
    assert b != 0;
    FullNameFindsField(base, b);
    assert FullName(base, b) == FullName(req, r);
  }
}
