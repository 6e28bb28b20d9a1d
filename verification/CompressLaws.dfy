/** The compressed mask is a canonical form of the set of leaves that a mask stands for. */
module CompressLaws {
  import opened Fields
  import opened BitSets
  import opened Compress

  // ----- reference definitions, by node -----

  /** Leaf `l` has its own bit set or lies inside a structure whose bit is set. */
  ghost predicate StandsFor(f: Field, m: set<nat>, l: nat)
    requires l < Size(f)
  {
    Size(NodeAt(f, l)) == 1 && exists a | a in m && a < Size(f) :: Within(f, a, l)
  }

  /** All leaves at or below field `k` are in `c`. */
  ghost predicate Complete(f: Field, o: nat, c: set<nat>, k: nat)
    requires o <= k < o + Size(f)
  {
    Leaves(NodeAt(f, k - o), k) <= c
  }

  /** Field `a` is field `b` or a structure around it, in a tree numbered from `o`. */
  ghost predicate Encloses(f: Field, o: nat, a: nat, b: nat)
    requires o <= a < o + Size(f)
  {
    a <= b < a + Size(NodeAt(f, a - o))
  }

  /** Field `k` is complete and no structure around it is. */
  ghost predicate Topmost(f: Field, o: nat, c: set<nat>, k: nat) {
    && o <= k < o + Size(f)
    && Complete(f, o, c, k)
    && forall a | o <= a < k && Encloses(f, o, a, k) :: !Complete(f, o, c, a)
  }

  // ----- the compressed mask as a function of the covered leaves -----

  function CanonBy(f: Field, o: nat, c: set<nat>): set<nat>
    decreases f, 0
  {
    if Leaves(f, o) <= c then {o}
    else if Size(f) == 1 then {}
    else CanonByAll(f.members, o + 1, c)
  }

  function CanonByAll(ms: seq<Member>, o: nat, c: set<nat>): set<nat>
    decreases ms, 0
  {
    if ms == [] then {} else CanonBy(ms[0].field, o, c) + CanonByAll(ms[1..], o + Size(ms[0].field), c)
  }

  lemma {:induction false} CanonByLocal(f: Field, o: nat, c: set<nat>, d: set<nat>)
    requires Agree(c, d, o, o + Size(f))
    ensures CanonBy(f, o, c) == CanonBy(f, o, d)
    ensures forall k | k in CanonBy(f, o, c) :: o <= k < o + Size(f)
    decreases f, 0
  {
    Bounds(f, o, {});
    if Size(f) > 1 { CanonByLocalAll(f.members, o + 1, c, d); }
  }

  lemma {:induction false} CanonByLocalAll(ms: seq<Member>, o: nat, c: set<nat>, d: set<nat>)
    requires Agree(c, d, o, o + SizeAll(ms))
    ensures CanonByAll(ms, o, c) == CanonByAll(ms, o, d)
    ensures forall k | k in CanonByAll(ms, o, c) :: o <= k < o + SizeAll(ms)
    decreases ms, 0
  {
    if ms != [] {
      CanonByLocal(ms[0].field, o, c, d);
      CanonByLocalAll(ms[1..], o + Size(ms[0].field), c, d);
    }
  }

  /** The algorithm sets the bit of a subtree exactly when all its leaves are covered. */
  lemma {:induction false} OwnBitIffComplete(f: Field, o: nat, m: set<nat>)
    ensures o in Canon(f, o, m) <==> Leaves(f, o) <= Cover(f, o, m)
    decreases f, 0
  {
    Bounds(f, o, m);
    if Size(f) > 1 && o !in m {
      FullIffComplete(f.members, o + 1, m);
      BoundsAll(f.members, o + 1, m);
    }
  }

  lemma {:induction false} FullIffComplete(ms: seq<Member>, o: nat, m: set<nat>)
    ensures FullAll(ms, o, m) <==> LeavesAll(ms, o) <= CoverAll(ms, o, m)
    decreases ms, 0
  {
    if ms != [] {
      var s := Size(ms[0].field);
      OwnBitIffComplete(ms[0].field, o, m);
      FullIffComplete(ms[1..], o + s, m);
      Bounds(ms[0].field, o, m);
      BoundsAll(ms[1..], o + s, m);
      if LeavesAll(ms, o) <= CoverAll(ms, o, m) {
        assert Leaves(ms[0].field, o) <= LeavesAll(ms, o);
        assert LeavesAll(ms[1..], o + s) <= LeavesAll(ms, o);
      }
    }
  }

  lemma {:induction false} CanonIsCanonBy(f: Field, o: nat, m: set<nat>)
    ensures Canon(f, o, m) == CanonBy(f, o, Cover(f, o, m))
    decreases f, 0
  {
    OwnBitIffComplete(f, o, m);
    if Size(f) > 1 && o !in m {
      CanonAllIsCanonByAll(f.members, o + 1, m);
      BoundsAll(f.members, o + 1, m);
    }
  }

  lemma {:induction false} CanonAllIsCanonByAll(ms: seq<Member>, o: nat, m: set<nat>)
    ensures CanonAll(ms, o, m) == CanonByAll(ms, o, CoverAll(ms, o, m))
    decreases ms, 0
  {
    if ms != [] {
      var s := Size(ms[0].field);
      CanonIsCanonBy(ms[0].field, o, m);
      CanonAllIsCanonByAll(ms[1..], o + s, m);
      Bounds(ms[0].field, o, m);
      BoundsAll(ms[1..], o + s, m);
      CanonByLocal(ms[0].field, o, Cover(ms[0].field, o, m), CoverAll(ms, o, m));
      CanonByLocalAll(ms[1..], o + s, CoverAll(ms[1..], o + s, m), CoverAll(ms, o, m));
    }
  }

  lemma {:induction false} CoverOfCanonBy(f: Field, o: nat, c: set<nat>)
    ensures Cover(f, o, CanonBy(f, o, c)) == Leaves(f, o) * c
    decreases f, 0
  {
    Bounds(f, o, c);
    CanonByLocal(f, o, c, c);
    if Size(f) > 1 && !(Leaves(f, o) <= c) {
      CoverOfCanonByAll(f.members, o + 1, c);
      CanonByLocalAll(f.members, o + 1, c, c);
    }
  }

  lemma {:induction false} CoverOfCanonByAll(ms: seq<Member>, o: nat, c: set<nat>)
    ensures CoverAll(ms, o, CanonByAll(ms, o, c)) == LeavesAll(ms, o) * c
    decreases ms, 0
  {
    if ms != [] {
      var s := Size(ms[0].field);
      CoverOfCanonBy(ms[0].field, o, c);
      CoverOfCanonByAll(ms[1..], o + s, c);
      CanonByLocal(ms[0].field, o, c, c);
      CanonByLocalAll(ms[1..], o + s, c, c);
      Local(ms[0].field, o, CanonBy(ms[0].field, o, c), CanonByAll(ms, o, c));
      LocalAll(ms[1..], o + s, CanonByAll(ms[1..], o + s, c), CanonByAll(ms, o, c));
    }
  }

  // ----- main results -----

  /** Compressing keeps what the mask stands for. */
  lemma CompressKeepsCover(f: Field, o: nat, m: set<nat>)
    ensures Cover(f, o, Canon(f, o, m)) == Cover(f, o, m)
  {
    CanonIsCanonBy(f, o, m);
    CoverOfCanonBy(f, o, Cover(f, o, m));
    Bounds(f, o, m);
  }

  /** Two masks compress to the same mask exactly when they stand for the same leaves. */
  lemma CompressIsCanonical(f: Field, o: nat, m: set<nat>, q: set<nat>)
    ensures Canon(f, o, m) == Canon(f, o, q) <==> Cover(f, o, m) == Cover(f, o, q)
  {
    CompressKeepsCover(f, o, m);
    CompressKeepsCover(f, o, q);
    CanonIsCanonBy(f, o, m);
    CanonIsCanonBy(f, o, q);
  }

  lemma CompressIsIdempotent(f: Field, o: nat, m: set<nat>)
    ensures Canon(f, o, Canon(f, o, m)) == Canon(f, o, m)
  {
    CompressKeepsCover(f, o, m);
    CompressIsCanonical(f, o, Canon(f, o, m), m);
  }

  // ----- agreement with the reference definitions -----

  lemma {:induction false} LeavesByNode(f: Field, o: nat, l: nat)
    ensures l in Leaves(f, o) <==> o <= l < o + Size(f) && Size(NodeAt(f, l - o)) == 1
    decreases f, 0
  {
    if Size(f) > 1 {
      BoundsAll(f.members, o + 1, {});
      LeavesByNodeIn(f.members, o + 1, l);
    }
  }

  lemma {:induction false} LeavesByNodeIn(ms: seq<Member>, o: nat, l: nat)
    ensures l in LeavesAll(ms, o) <==> o <= l < o + SizeAll(ms) && Size(NodeIn(ms, l - o)) == 1
    decreases ms, 0
  {
    BoundsAll(ms, o, {});
    if ms != [] {
      LeavesByNode(ms[0].field, o, l);
      LeavesByNodeIn(ms[1..], o + Size(ms[0].field), l);
    }
  }

  ghost predicate EnclosesIn(ms: seq<Member>, o: nat, a: nat, b: nat)
    requires o <= a < o + SizeAll(ms)
  {
    a <= b < a + Size(NodeIn(ms, a - o))
  }

  /** Some bit of `m` lies on the path from the top of the tree to `l`. */
  ghost predicate OnPath(f: Field, o: nat, m: set<nat>, l: nat) {
    exists a | a in m && o <= a < o + Size(f) :: Encloses(f, o, a, l)
  }

  ghost predicate OnPathIn(ms: seq<Member>, o: nat, m: set<nat>, l: nat) {
    exists a | a in m && o <= a < o + SizeAll(ms) :: EnclosesIn(ms, o, a, l)
  }

  ghost predicate CompleteIn(ms: seq<Member>, o: nat, c: set<nat>, k: nat)
    requires o <= k < o + SizeAll(ms)
  {
    Leaves(NodeIn(ms, k - o), k) <= c
  }

  /** What is said of the members alone carries over to the structure, ... */
  lemma BelowRoot(f: Field, o: nat, a: nat, b: nat, c: set<nat>)
    requires Size(f) > 1 && o < a < o + Size(f)
    ensures Encloses(f, o, a, b) <==> EnclosesIn(f.members, o + 1, a, b)
    ensures Complete(f, o, c, a) <==> CompleteIn(f.members, o + 1, c, a)
  {}

  /** ... to the first member, ... */
  lemma InFirst(ms: seq<Member>, o: nat, a: nat, b: nat, c: set<nat>)
    requires ms != [] && o <= a < o + Size(ms[0].field)
    ensures EnclosesIn(ms, o, a, b) <==> Encloses(ms[0].field, o, a, b)
    ensures CompleteIn(ms, o, c, a) <==> Complete(ms[0].field, o, c, a)
    ensures EnclosesIn(ms, o, a, b) ==> b < o + Size(ms[0].field)
  {
    NextBound(ms[0].field, a - o);
  }

  /** ... and to the other members. */
  lemma InRest(ms: seq<Member>, o: nat, a: nat, b: nat, c: set<nat>)
    requires ms != [] && o + Size(ms[0].field) <= a < o + SizeAll(ms)
    ensures EnclosesIn(ms, o, a, b) <==> EnclosesIn(ms[1..], o + Size(ms[0].field), a, b)
    ensures CompleteIn(ms, o, c, a) <==> CompleteIn(ms[1..], o + Size(ms[0].field), c, a)
  {}

  lemma {:induction false} CoverByNode(f: Field, o: nat, m: set<nat>, l: nat)
    ensures l in Cover(f, o, m) <==> l in Leaves(f, o) && OnPath(f, o, m, l)
    decreases f, 0
  {
    Bounds(f, o, m);
    if o in m {
      if l in Leaves(f, o) { assert Encloses(f, o, o, l); }
    } else if Size(f) > 1 {
      CoverByNodeIn(f.members, o + 1, m, l);
      BoundsAll(f.members, o + 1, m);
      forall a | a in m && o < a < o + Size(f)
        ensures Encloses(f, o, a, l) <==> EnclosesIn(f.members, o + 1, a, l)
      {
        BelowRoot(f, o, a, l, {});
      }
    }
  }

  lemma {:induction false} CoverByNodeIn(ms: seq<Member>, o: nat, m: set<nat>, l: nat)
    ensures l in CoverAll(ms, o, m) <==> l in LeavesAll(ms, o) && OnPathIn(ms, o, m, l)
    decreases ms, 0
  {
    if ms != [] {
      var f, p := ms[0].field, o + Size(ms[0].field);
      CoverByNode(f, o, m, l);
      CoverByNodeIn(ms[1..], p, m, l);
      Bounds(f, o, m);
      BoundsAll(ms[1..], p, m);
      forall a | a in m && o <= a < p
        ensures EnclosesIn(ms, o, a, l) <==> Encloses(f, o, a, l)
        ensures EnclosesIn(ms, o, a, l) ==> l < p
      {
        InFirst(ms, o, a, l, {});
      }
      forall a | a in m && p <= a < o + SizeAll(ms)
        ensures EnclosesIn(ms, o, a, l) <==> EnclosesIn(ms[1..], p, a, l)
      {
        InRest(ms, o, a, l, {});
      }
    }
  }

  /** The recursive Cover is the plain reading of a mask: a leaf is covered when its own bit or
      the bit of a structure around it is set. */
  lemma CoverIffStandsFor(f: Field, m: set<nat>, l: nat)
    requires l < Size(f)
    ensures l in Cover(f, 0, m) <==> StandsFor(f, m, l)
  {
    CoverByNode(f, 0, m, l);
    LeavesByNode(f, 0, l);
    if StandsFor(f, m, l) {
      var a :| a in m && a < Size(f) && Within(f, a, l);
      assert Encloses(f, 0, a, l);
    }
    if OnPath(f, 0, m, l) {
      var a :| a in m && 0 <= a < Size(f) && Encloses(f, 0, a, l);
      assert Within(f, a, l);
    }
  }

  ghost predicate TopmostIn(ms: seq<Member>, o: nat, c: set<nat>, k: nat) {
    && o <= k < o + SizeAll(ms)
    && CompleteIn(ms, o, c, k)
    && forall a | o <= a < k && EnclosesIn(ms, o, a, k) :: !CompleteIn(ms, o, c, a)
  }

  lemma {:induction false} CanonByTopmost(f: Field, o: nat, c: set<nat>, k: nat)
    ensures k in CanonBy(f, o, c) <==> Topmost(f, o, c, k)
    decreases f, 0
  {
    CanonByLocal(f, o, c, c);
    if Complete(f, o, c, o) {
      if o < k < o + Size(f) { assert Encloses(f, o, o, k); }
    } else if Size(f) > 1 {
      CanonByTopmostIn(f.members, o + 1, c, k);
      if o < k < o + Size(f) { TopmostBelowRoot(f, o, c, k); }
    }
  }

  lemma TopmostBelowRoot(f: Field, o: nat, c: set<nat>, k: nat)
    requires Size(f) > 1 && !Complete(f, o, c, o) && o < k < o + Size(f)
    ensures Topmost(f, o, c, k) <==> TopmostIn(f.members, o + 1, c, k)
  {
    BelowRoot(f, o, k, k, c);
    var p := o + 1;
    if Topmost(f, o, c, k) {
      forall a | p <= a < k && EnclosesIn(f.members, p, a, k)
        ensures !CompleteIn(f.members, p, c, a)
      {
        BelowRoot(f, o, a, k, c);
      }
    }
    if TopmostIn(f.members, o + 1, c, k) {
      forall a | o <= a < k && Encloses(f, o, a, k)
        ensures !Complete(f, o, c, a)
      {
        if a > o { BelowRoot(f, o, a, k, c); }
      }
    }
  }

  lemma {:induction false} CanonByTopmostIn(ms: seq<Member>, o: nat, c: set<nat>, k: nat)
    ensures k in CanonByAll(ms, o, c) <==> TopmostIn(ms, o, c, k)
    decreases ms, 0
  {
    CanonByLocalAll(ms, o, c, c);
    if ms != [] && o <= k < o + SizeAll(ms) {
      var f, p := ms[0].field, o + Size(ms[0].field);
      CanonByTopmost(f, o, c, k);
      CanonByTopmostIn(ms[1..], p, c, k);
      CanonByLocal(f, o, c, c);
      CanonByLocalAll(ms[1..], p, c, c);
      forall a | o <= a < p
        ensures EnclosesIn(ms, o, a, k) <==> Encloses(f, o, a, k)
        ensures CompleteIn(ms, o, c, a) <==> Complete(f, o, c, a)
        ensures EnclosesIn(ms, o, a, k) ==> k < p
      {
        InFirst(ms, o, a, k, c);
      }
      forall a | p <= a < o + SizeAll(ms)
        ensures EnclosesIn(ms, o, a, k) <==> EnclosesIn(ms[1..], p, a, k)
        ensures CompleteIn(ms, o, c, a) <==> CompleteIn(ms[1..], p, c, a)
      {
        InRest(ms, o, a, k, c);
      }
    }
  }

  /** The compressed mask holds the bits of exactly those fields all of whose leaves are
      covered, and of no field inside such a structure. */
  lemma CompressIsTopmost(f: Field, o: nat, m: set<nat>, k: nat)
    ensures k in Canon(f, o, m) <==> Topmost(f, o, Cover(f, o, m), k)
  {
    CanonIsCanonBy(f, o, m);
    CanonByTopmost(f, o, Cover(f, o, m), k);
  }

  /** No bit is left below another one. */
  lemma CompressLeavesNoNestedBits(f: Field, o: nat, m: set<nat>, a: nat, b: nat)
    requires a in Canon(f, o, m) && b in Canon(f, o, m) && a != b
    ensures o <= a < o + Size(f) && !Encloses(f, o, a, b)
  {
    CompressIsTopmost(f, o, m, a);
    CompressIsTopmost(f, o, m, b);
  }

  // ----- fewest bits -----

  function Inside(q: set<nat>, lo: nat, hi: nat): set<nat> {
    set k | k in q && lo <= k < hi
  }

  lemma InsideSplit(q: set<nat>, lo: nat, mid: nat, hi: nat)
    requires lo <= mid <= hi
    ensures |Inside(q, lo, hi)| == |Inside(q, lo, mid)| + |Inside(q, mid, hi)|
  {
    assert Inside(q, lo, hi) == Inside(q, lo, mid) + Inside(q, mid, hi);
    assert Inside(q, lo, mid) * Inside(q, mid, hi) == {};
  }

  lemma UnionSize(a: set<nat>, b: set<nat>)
    ensures |a + b| <= |a| + |b|
  {
    assert a + b == a + (b - a);
    assert a * (b - a) == {};
    assert b == (b - a) + (b * a);
    assert (b - a) * (b * a) == {};
  }

  lemma NotSmallerThanOne(q: set<nat>, k: nat, lo: nat, hi: nat)
    requires k in q && lo <= k < hi
    ensures |Inside(q, lo, hi)| >= 1
  {
    assert k in Inside(q, lo, hi);
  }

  lemma {:induction false} CompressShortens(f: Field, o: nat, q: set<nat>)
    ensures |Canon(f, o, q)| <= |Inside(q, o, o + Size(f))|
    decreases f, 0
  {
    hide FullAll, CanonAll, Inside;
    if o in q {
      NotSmallerThanOne(q, o, o, o + Size(f));
    } else if Size(f) > 1 {
      BelowOwnBit(q, o, o + Size(f));
      if FullAll(f.members, o + 1, q) {
        FullNeedsBit(f.members, o + 1, q);
      } else {
        CompressShortensAll(f.members, o + 1, q);
      }
    }
  }

  lemma BelowOwnBit(q: set<nat>, o: nat, hi: nat)
    requires o !in q
    ensures Inside(q, o, hi) == Inside(q, o + 1, hi)
  {}

  /** Members can only be complete if some bit is set. */
  lemma FullNeedsBit(ms: seq<Member>, o: nat, q: set<nat>)
    requires FullAll(ms, o, q) && SizeAll(ms) > 0
    ensures |Inside(q, o, o + SizeAll(ms))| >= 1
  {
    if Inside(q, o, o + SizeAll(ms)) == {} {
      assert forall k | k in q :: k !in Inside(q, o, o + SizeAll(ms));
      EmptyCanonAll(ms, o, q);
    }
  }

  lemma {:induction false} CompressShortensAll(ms: seq<Member>, o: nat, q: set<nat>)
    ensures |CanonAll(ms, o, q)| <= |Inside(q, o, o + SizeAll(ms))|
    decreases ms, 0
  {
    if ms != [] {
      var s := Size(ms[0].field);
      CompressShortens(ms[0].field, o, q);
      CompressShortensAll(ms[1..], o + s, q);
      UnionSize(Canon(ms[0].field, o, q), CanonAll(ms[1..], o + s, q));
      InsideSplit(q, o, o + s, o + SizeAll(ms));
    }
  }

  /** No mask that stands for the same leaves has fewer bits in the tree. */
  lemma CompressUsesFewestBits(f: Field, o: nat, m: set<nat>, q: set<nat>)
    requires Cover(f, o, q) == Cover(f, o, m)
    ensures |Canon(f, o, m)| <= |Inside(q, o, o + Size(f))|
  {
    CompressIsCanonical(f, o, m, q);
    CompressShortens(f, o, q);
  }

  /** BitSetUtil::compress, for the fields of a top-level structure. */
  method CompressMask(bitSet: BitSet, top: Field) returns (r: bool)
    requires bitSet.Valid()
    modifies bitSet
    ensures bitSet.Valid()
    ensures forall k: nat | k < Size(top) :: k in bitSet.Bits() <==> Topmost(top, 0, Cover(top, 0, old(bitSet.Bits())), k)
    ensures forall k: nat | k >= Size(top) :: k in bitSet.Bits() <==> k in old(bitSet.Bits())
    ensures Cover(top, 0, bitSet.Bits()) == Cover(top, 0, old(bitSet.Bits()))
    ensures r <==> Cover(top, 0, old(bitSet.Bits())) != {}
  {
    ghost var m := bitSet.Bits();
    r := CheckBitSetPVField(top, bitSet, 0);
    forall k: nat
      ensures k in Canon(top, 0, m) <==> Topmost(top, 0, Cover(top, 0, m), k)
    {
      CompressIsTopmost(top, 0, m, k);
    }
    CompressKeepsCover(top, 0, m);
    Local(top, 0, bitSet.Bits(), Canon(top, 0, m));
    NothingCovered(top, 0, m);
  }

  lemma NothingCovered(f: Field, o: nat, m: set<nat>)
    ensures Canon(f, o, m) == {} <==> Cover(f, o, m) == {}
  {
    CompressKeepsCover(f, o, m);
    EmptyCanon(f, o, {});
    CompressIsCanonical(f, o, m, {});
    CompressKeepsCover(f, o, {});
    EmptyCover(f, o);
  }

  lemma {:induction false} EmptyCover(f: Field, o: nat)
    ensures Cover(f, o, {}) == {}
    decreases f, 0
  {
    if Size(f) > 1 { EmptyCoverAll(f.members, o + 1); }
  }

  lemma {:induction false} EmptyCoverAll(ms: seq<Member>, o: nat)
    ensures CoverAll(ms, o, {}) == {}
    decreases ms, 0
  {
    if ms != [] {
      EmptyCover(ms[0].field, o);
      EmptyCoverAll(ms[1..], o + Size(ms[0].field));
    }
  }
}
