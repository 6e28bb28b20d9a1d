/** Copying between a base structure and the requested structure, in either direction, and
    translating masks between them. */
module MapperCopy {
  import opened Fields
  import opened Values
  import opened BitSets
  import opened Names
  import opened PVTree
  import opened Lookup
  import opened MaskedCopy
  import opened Selection
  import opened MapperTables
  import opened Limits

  // ----- what one direction of a mapper does -----

  /** The fields of `x` in `paired` have partners of the same kind in `y`, one each; structures
      around them are paired as well. */
  ghost predicate Pairing(x: Field, y: Field, paired: set<nat>) {
    && WellNamed(x) && WellNamed(y)
    && (forall k | k in paired :: k < Size(x) && PairedAt(x, y, k))
    && (forall a: nat, k: nat | k in paired && a < Size(x) && Within(x, a, k) :: a in paired)
  }

  ghost predicate PairedAt(x: Field, y: Field, k: nat)
    requires k < Size(x)
  {
    var j := Partner(x, y, k);
    j < Size(y) && Find(x, PathAt(y, j)) == Some(k) && SameKind(NodeAt(x, k), NodeAt(y, j))
  }

  lemma BothPairings(base: Field, req: Field, mask: set<nat>)
    requires Matches(base, req, mask)
    ensures Pairing(base, req, mask)
    ensures Pairing(req, base, Requested(base, req, mask))
  {
    hide Partner, Within, Size, NodeAt, PathAt, Find, Linked;
    forall k | k in mask
      ensures PairedAt(base, req, k)
    {
      PartnerOfBase(base, req, mask, k);
      PartnerOfRequested(base, req, mask, Partner(base, req, k));
      FindPath(base, k);
    }
    var paired := Requested(base, req, mask);
    forall k | k in paired
      ensures PairedAt(req, base, k)
    {
      PartnerOfRequested(base, req, mask, k);
      FindPath(req, k);
    }
    forall a: nat, k: nat | k in paired && a < Size(req) && Within(req, a, k)
      ensures a in paired
    {
      PartnersNest(base, req, mask, a, k);
    }
  }

  /** The bit of field `k` or of a structure around it is in `m`. */
  ghost predicate Touched(x: Field, m: set<nat>, k: nat)
    requires k < Size(x)
  {
    exists a | 0 <= a <= k && a in m :: Within(x, a, k)
  }

  /** The paired fields before offset `n` that a mask reaches. */
  ghost function Reached(x: Field, paired: set<nat>, m: set<nat>, n: nat): (s: set<nat>)
    requires forall k | k in paired :: k < Size(x)
    ensures forall k | k in s :: k < Size(x)
  {
    set k | k in paired && k < n && Touched(x, m, k)
  }

  /** `dst` with the leaves replaced whose partners are in `reached`. */
  function Transfer(x: Field, y: Field, reached: set<nat>, src: seq<Value>, dst: seq<Value>): (s: seq<Value>)
    requires |src| == Size(x) && |dst| == Size(y)
    ensures |s| == Size(y)
  {
    seq(Size(y), j requires 0 <= j < Size(y) && |src| == Size(x) && |dst| == Size(y) =>
      var found := Find(x, PathAt(y, j));
      if !NodeAt(y, j).Structure? && found.Some? && found.value in reached && found.value < |src|
      then src[found.value] else dst[j])
  }

  // ----- the loop of _map -----

  /** The mask while it is scanned: the bits of all structures before `n` have been expanded. */
  ghost predicate Expanded(s: set<nat>, x: Field, paired: set<nat>, m: set<nat>, n: nat)
    requires forall k | k in paired :: k < Size(x)
  {
    forall k: nat :: k in s <==> k in m || (k in paired && TouchedBefore(x, m, k, n))
  }

  ghost predicate TouchedBefore(x: Field, m: set<nat>, k: nat, n: nat)
    requires k < Size(x)
  {
    exists a | 0 <= a < k && a < n && a in m :: Within(x, a, k)
  }

  lemma TouchedLater(x: Field, m: set<nat>, k: nat, n: nat)
    requires k < Size(x)
    ensures TouchedBefore(x, m, k, n + 1) <==> TouchedBefore(x, m, k, n) || (n in m && n < k && Within(x, n, k))
    ensures k <= n ==> (Touched(x, m, k) <==> k in m || TouchedBefore(x, m, k, n))
  {
    hide Within, Size;
    TouchedNext(x, m, k, n);
    if k <= n { TouchedEnd(x, m, k, n); }
  }

  lemma TouchedNext(x: Field, m: set<nat>, k: nat, n: nat)
    requires k < Size(x)
    ensures TouchedBefore(x, m, k, n + 1) <==> TouchedBefore(x, m, k, n) || (n in m && n < k && Within(x, n, k))
  {
    hide Within, Size;
    if TouchedBefore(x, m, k, n + 1) {
      var a :| 0 <= a < k && a < n + 1 && a in m && Within(x, a, k);
      assert a < n || a == n;
    }
  }

  lemma TouchedEnd(x: Field, m: set<nat>, k: nat, n: nat)
    requires k < Size(x) && k <= n
    ensures Touched(x, m, k) <==> k in m || TouchedBefore(x, m, k, n)
  {
    WithinSelf(x, k);
    hide Within, Size;
    if Touched(x, m, k) {
      var a :| 0 <= a <= k && a in m && Within(x, a, k);
      assert a == k || a < k;
    }
  }

  /** Field `i` of `x` has been looked at; if it is a structure in the mask, the paired fields
      inside it have been added. */
  lemma ExpandStep(s: set<nat>, t: set<nat>, x: Field, paired: set<nat>, m: set<nat>, i: nat)
    requires WellNamed(x) && (forall k | k in paired :: k < Size(x)) && i < Size(x)
    requires forall a: nat, k: nat | k in paired && a < Size(x) && Within(x, a, k) :: a in paired
    requires Expanded(s, x, paired, m, i)
    requires t == if i in s && i in paired then s + Inner(x, paired, i) else s
    ensures Expanded(t, x, paired, m, i + 1)
    ensures i in paired ==> (i in s <==> Touched(x, m, i))
  {
    hide Within, Size;
    if i in paired { TouchedLater(x, m, i, i); }
    forall k: nat
      ensures k in t <==> k in m || (k in paired && TouchedBefore(x, m, k, i + 1))
    {
      if k in paired {
        TouchedLater(x, m, k, i);
        if i in s && i !in m && i < k && Within(x, i, k) {
          var a :| 0 <= a < i && a in m && Within(x, a, i);
          WithinTransitive(x, a, i, k);
          assert TouchedBefore(x, m, k, i);
        }
      }
    }
  }

  /** No bit in [i, j): the scan goes on at `j`. */
  lemma ExpandSkip(s: set<nat>, x: Field, paired: set<nat>, m: set<nat>, i: nat, j: nat)
    requires (forall k | k in paired :: k < Size(x)) && i <= j && forall k | i <= k < j :: k !in s
    requires Expanded(s, x, paired, m, i)
    ensures Expanded(s, x, paired, m, j)
    ensures Reached(x, paired, m, i) == Reached(x, paired, m, j)
  {
    hide Within, Size;
    assert forall k | i <= k < j :: k !in m;
    forall k: nat | k in paired
      ensures TouchedBefore(x, m, k, j) <==> TouchedBefore(x, m, k, i)
      ensures i <= k < j ==> !Touched(x, m, k)
    {
      TouchedLater(x, m, k, k);
    }
  }

  lemma ReachedStep(x: Field, paired: set<nat>, m: set<nat>, i: nat)
    requires forall k | k in paired :: k < Size(x)
    ensures Reached(x, paired, m, i + 1)
            == Reached(x, paired, m, i) + if i in paired && Touched(x, m, i) then {i} else {}
  {
    hide Touched;
  }

  lemma OnlyPartner(x: Field, y: Field, paired: set<nat>, i: nat, j: nat)
    requires Pairing(x, y, paired) && i in paired && i < Size(x) && j < Size(y)
    ensures Partner(x, y, i) < Size(y)
    ensures Find(x, PathAt(y, j)) == Some(i) <==> j == Partner(x, y, i)
  {
    hide PathAt, Find, NodeAt, Size, WellNamed, Within;
    assert PairedAt(x, y, i);
    if Find(x, PathAt(y, j)) == Some(i) {
      PathFind(x, PathAt(y, j));
      FindPath(y, j);
    }
  }

  lemma TransferAt(x: Field, y: Field, reached: set<nat>, src: seq<Value>, dst: seq<Value>, j: nat)
    requires |src| == Size(x) && |dst| == Size(y) && j < Size(y)
    ensures Transfer(x, y, reached, src, dst)[j] ==
      var found := Find(x, PathAt(y, j));
      if !NodeAt(y, j).Structure? && found.Some? && found.value in reached && found.value < |src|
      then src[found.value] else dst[j]
  {}

  /** What copying one more field does to the goal. */
  lemma TransferStep(x: Field, y: Field, paired: set<nat>, reached: set<nat>, i: nat, src: seq<Value>, dst: seq<Value>)
    requires Pairing(x, y, paired) && i in paired && i < Size(x) && |src| == Size(x) && |dst| == Size(y)
    ensures Partner(x, y, i) < Size(y)
    ensures Transfer(x, y, reached + {i}, src, dst) ==
      if NodeAt(x, i).Structure? then Transfer(x, y, reached, src, dst)
      else Transfer(x, y, reached, src, dst)[Partner(x, y, i) := src[i]]
  {
    hide PathAt, Find, NodeAt, Size, WellNamed, Within, Transfer, Partner;
    var to := Partner(x, y, i);
    assert PairedAt(x, y, i);
    var was := Transfer(x, y, reached, src, dst);
    var goal := if NodeAt(x, i).Structure? then was else was[to := src[i]];
    forall j | 0 <= j < Size(y)
      ensures Transfer(x, y, reached + {i}, src, dst)[j] == goal[j]
    {
      OnlyPartner(x, y, paired, i, j);
      TransferAt(x, y, reached, src, dst, j);
      TransferAt(x, y, reached + {i}, src, dst, j);
    }
  }

  method AddAll(bits: BitSet, s: set<nat>)
    requires bits.Valid()
    modifies bits
    ensures bits.Valid() && bits.Bits() == old(bits.Bits()) + s
  {
    var rest := s;
    while rest != {}
      invariant bits.Valid() && rest <= s && bits.Bits() == old(bits.Bits()) + (s - rest)
    {
      var k :| k in rest;
      bits.Set(k);
      rest := rest - {k};
    }
  }

  // ----- refused leaves -----

  /** The value of every leaf in `reached` fits. */
  ghost predicate AllFit(x: Field, reached: set<nat>, src: seq<Value>)
    requires |src| == Size(x)
  {
    forall k | k in reached && k < Size(x) :: LeafFits(x, src, k)
  }

  predicate LeafFits(x: Field, src: seq<Value>, k: nat)
    requires |src| == Size(x) && k < Size(x)
  {
    NodeAt(x, k).Structure? || Fits(NodeAt(x, k), src[k])
  }

  /** The copy was refused at leaf `k`: it is the first one that does not fit, the ones before it have been
      copied and marked, and it is not marked. */
  ghost predicate StoppedAt(x: Field, y: Field, paired: set<nat>, m: set<nat>, src: seq<Value>, dst: seq<Value>,
                            k: nat, s: seq<Value>, marked: set<nat>)
    requires (forall j | j in paired :: j < Size(x)) && |src| == Size(x) && |dst| == Size(y)
  {
    && k in Reached(x, paired, m, Size(x)) && !LeafFits(x, src, k) && AllFit(x, Reached(x, paired, m, k), src)
    && Partner(x, y, k) < Size(y)
    && (var done := Transfer(x, y, Reached(x, paired, m, k), src, dst);
        s == done[Partner(x, y, k) := CopyValue(NodeAt(x, k), done[Partner(x, y, k)], src[k])])
    && marked == Partners(x, y, Reached(x, paired, m, k))
  }

  /** No union is selected alike on both sides by a selector of no member. */
  ghost predicate PairsParted(x: Field, y: Field, paired: set<nat>, src: seq<Value>, dst: seq<Value>) {
    |src| == Size(x) && |dst| == Size(y) &&
    forall k | k in paired && k < Size(x) && !NodeAt(x, k).Structure? && Partner(x, y, k) < Size(y) ::
      !SameUnknown(NodeAt(x, k), dst[Partner(x, y, k)], src[k])
  }

  ghost predicate LeafParted(src: Tree, i: nat, dest: Tree, to: nat)
    reads Nodes(src)`value, Nodes(dest)`value
    requires Shaped(src) && Shaped(dest) && i < Size(src.field) && to < Size(dest.field)
  {
    NodesSize(src);
    NodesSize(dest);
    !SameUnknown(NodeAt(src.field, i), Nodes(dest)[to].value, Nodes(src)[i].value)
  }

  /** PVField::copy of leaf `i` to leaf `to`. */
  method CopyLeaf(src: Tree, i: nat, dest: Tree, to: nat) returns (ok: bool)
    requires WellFormed(src) && WellFormed(dest) && src.field.Structure? && dest.field.Structure?
    requires Numbered(src, 0) && Numbered(dest, 0) && SameOrApart(dest, src)
    requires 0 < i < Size(src.field) && 0 < to < Size(dest.field) && (dest == src ==> i == to)
    requires dest == src || LeafParted(src, i, dest, to)
    modifies Nodes(dest)`value
    ensures |Nodes(src)| == Size(src.field) && |Nodes(dest)| == Size(dest.field)
    ensures ok <==> dest == src || Fits(NodeAt(src.field, i), old(Contents(src))[i])
    ensures Contents(dest) == old(Contents(dest))[to := if dest == src then old(Contents(src))[i]
      else CopyValue(NodeAt(src.field, i), old(Contents(dest))[to], old(Contents(src))[i])]
    ensures Contents(src) == old(Contents(src))
  {
    hide Shaped, Nodes, Size, Numbered, TreeAt, Fits, CopyValue, NodeAt, LeafParted;
    Top(src);
    Top(dest);
    NodesAllocated(src);
    NodesAllocated(dest);
    SameNode(dest, src);
    var from := GetSubFieldByOffset(src, i, 0);
    var into := GetSubFieldByOffset(dest, to, 0);
    TreeAtNode(src, i);
    TreeAtNode(dest, to);
    if dest.node == src.node {
      return true;
    }
    into.value.node.value := CopyValue(from.value.field, into.value.node.value, from.value.node.value);
    assert forall k | 0 <= k < |Nodes(src)| :: Nodes(src)[k] != Nodes(dest)[to];
    return Fits(from.value.field, from.value.node.value);
  }

  /** What _map does for one bit: a leaf is copied, the bits below a structure are added to the
      mask that is being scanned. */
  method MapEntry(entry: Mapping, i: nat, src: Tree, scratch: BitSet, dest: Tree, maskDest: BitSet, r2b: bool) returns (ok: bool)
    requires WellFormed(src) && WellFormed(dest) && src.field.Structure? && dest.field.Structure?
    requires Numbered(src, 0) && Numbered(dest, 0) && SameOrApart(dest, src)
    requires scratch.Valid() && maskDest.Valid() && scratch != maskDest
    requires entry.Hole? ==> !r2b
    requires entry.Mapping? && entry.leaf ==>
      && 0 < i < Size(src.field) && 0 < entry.to < Size(dest.field) && (dest == src ==> i == entry.to)
      && (dest == src || LeafParted(src, i, dest, entry.to))
    modifies Nodes(dest)`value, scratch, maskDest
    ensures |Nodes(src)| == Size(src.field) && |Nodes(dest)| == Size(dest.field)
    ensures scratch.Valid() && maskDest.Valid()
    ensures Contents(src) == old(Contents(src))
    ensures !ok <==> entry.Mapping? && entry.leaf && dest != src && !Fits(NodeAt(src.field, i), old(Contents(src))[i])
    ensures Contents(dest) == if entry.Mapping? && entry.leaf then
                                old(Contents(dest))[entry.to := if ok then old(Contents(src))[i]
                                  else CopyValue(NodeAt(src.field, i), old(Contents(dest))[entry.to], old(Contents(src))[i])]
                              else old(Contents(dest))
    ensures maskDest.Bits() == if entry.Mapping? && ok then old(maskDest.Bits()) + {entry.to} else old(maskDest.Bits())
    ensures scratch.Bits() == if entry.Mapping? && !entry.leaf then old(scratch.Bits()) + entry.frommask
                              else old(scratch.Bits())
  {
    hide Shaped, Nodes, Size, Distinct, Numbered, Contents, SameOrApart, WellFormed, BitSet.Bits, BitSet.Valid, Fits, CopyValue, NodeAt, LeafParted;
    Top(src);
    Top(dest);
    NodesAllocated(src);
    NodesAllocated(dest);
    ok := true;
    match entry {
      case Hole =>
        assert !r2b;
      case Mapping(to, leaf, _, frommask) =>
        if leaf {
          ghost var s, d := Contents(src), Contents(dest);
          ok := CopyLeaf(src, i, dest, to);
          if ok && dest != src { FitsCopied(NodeAt(src.field, i), d[to], s[i]); }
          if !ok {
            return;
          }
          NodesAllocated(src);
          NodesAllocated(dest);
        } else {
          AddAll(scratch, frommask);
        }
        maskDest.Set(to);
    }
  }

  /** PVRequestMapper::_map, in one direction. */
  method MapFields(map_: seq<Mapping>, src: Tree, maskSrc: BitSet, dest: Tree, maskDest: BitSet, r2b: bool, ghost paired: set<nat>)
    returns (ok: bool)
    requires WellFormed(src) && WellFormed(dest) && src.field.Structure? && dest.field.Structure?
    requires Numbered(src, 0) && Numbered(dest, 0) && SameOrApart(dest, src)
    requires Pairing(src.field, dest.field, paired) && Table(map_, src.field, dest.field, paired)
    requires maskSrc.Valid() && maskDest.Valid()
    requires r2b ==> forall k | k in maskSrc.Bits() && k < |map_| :: map_[k].Mapping?
    requires dest == src || PairsParted(src.field, dest.field, paired, Contents(src), Contents(dest))
    modifies Nodes(dest)`value, maskDest
    ensures |Nodes(src)| == Size(src.field) && |Nodes(dest)| == Size(dest.field)
    ensures maskDest.Valid()
    ensures var reached := Reached(src.field, paired, old(maskSrc.Bits()), Size(src.field));
      && (ok <==> dest == src || AllFit(src.field, reached, old(Contents(src))))
      && (ok ==> Contents(dest) == Transfer(src.field, dest.field, reached, old(Contents(src)), old(Contents(dest))))
      && (ok ==> maskDest.Bits() == old(maskDest.Bits()) + Partners(src.field, dest.field, reached))
    ensures !ok ==> exists k, marked ::
      && StoppedAt(src.field, dest.field, paired, old(maskSrc.Bits()), old(Contents(src)), old(Contents(dest)), k, Contents(dest), marked)
      && maskDest.Bits() == old(maskDest.Bits()) + marked
  {
    hide Shaped, Nodes, Size, Distinct, Numbered, TreeAt, Contents, Transfer, Partner, Entry, Pairing, Touched, SameOrApart, WellFormed,
         NodeAt, Within, BitSet.Bits, BitSet.Valid, Expanded, Inner, Partners, PairedAt, Disjoint, Fits, CopyValue, AllFit, StoppedAt, Reached,
         PairsParted, LeafParted, Table;
    ghost var x, y := src.field, dest.field;
    ghost var m, md := maskSrc.Bits(), maskDest.Bits();
    ghost var s0, d0 := Contents(src), Contents(dest);
    Top(src);
    Top(dest);
    NodesAllocated(src);
    NodesAllocated(dest);
    var scratch := new BitSet();
    scratch.Assign(maskSrc);
    var i := scratch.NextSetBit(0);
    ghost var b: nat := if 0 <= i < |map_| then i else |map_|;
    TableSize(map_, x, y, paired);
    MapStart(x, y, paired, m, s0, d0);
    PairingClosed(x, y, paired);
    ExpandSkip(m, x, paired, m, 0, b);
    while 0 <= i < |map_|
      invariant scratch.Valid() && maskDest.Valid()
      invariant b == if 0 <= i < |map_| then i else |map_|
      invariant 0 <= i ==> (i as nat) in scratch.Bits()
      invariant Expanded(scratch.Bits(), x, paired, m, b)
      invariant Contents(src) == s0 && (dest == src || AllFit(x, Reached(x, paired, m, b), s0))
      invariant Contents(dest) == Transfer(x, y, Reached(x, paired, m, b), s0, d0)
      invariant maskDest.Bits() == md + Partners(x, y, Reached(x, paired, m, b))
      decreases |map_| - b
    {
      NodesAllocated(src);
      NodesAllocated(dest);
      MapStep(map_, x, y, paired, m, scratch.Bits(), i, s0, d0);
      if map_[i].Mapping? && map_[i].leaf && dest != src { NotYetWritten(map_, src, dest, paired, m, i, s0, d0); }
      ok := MapEntry(map_[i], i, src, scratch, dest, maskDest, r2b);
      NodesAllocated(src);
      NodesAllocated(dest);
      if !ok {
        Stops(map_, x, y, paired, m, i, s0, d0, Contents(dest));
        return;
      }
      assert Contents(dest) == Transfer(x, y, Reached(x, paired, m, b + 1), s0, d0);
      assert maskDest.Bits() == md + Partners(x, y, Reached(x, paired, m, b + 1));
      i := scratch.NextSetBit(i + 1);
      ghost var b1 := b + 1;
      b := if 0 <= i < |map_| then i else |map_|;
      ExpandSkip(scratch.Bits(), x, paired, m, b1, b);
    }
    return true;
  }

  lemma TableSize(table: seq<Mapping>, x: Field, y: Field, paired: set<nat>)
    requires Table(table, x, y, paired)
    ensures |table| == Size(x) && forall j | j in paired :: j < Size(x)
  {}

  /** The partner of the next leaf still holds what it held at the start. */
  lemma NotYetWritten(map_: seq<Mapping>, src: Tree, dest: Tree, paired: set<nat>, m: set<nat>, i: nat, s0: seq<Value>, d0: seq<Value>)
    requires WellFormed(src) && WellFormed(dest) && src.field.Structure? && dest.field.Structure?
    requires Pairing(src.field, dest.field, paired) && Table(map_, src.field, dest.field, paired)
    requires i < Size(src.field) && map_[i].Mapping? && map_[i].leaf && map_[i].to < Size(dest.field)
    requires PairsParted(src.field, dest.field, paired, s0, d0) && Contents(src) == s0
    requires |d0| == Size(dest.field) && |s0| == Size(src.field)
    requires Contents(dest) == Transfer(src.field, dest.field, Reached(src.field, paired, m, i), s0, d0)
    ensures LeafParted(src, i, dest, map_[i].to)
  {
    hide Shaped, Nodes, Size, NodeAt, Find, PathAt, Within, Transfer, SameUnknown, Pairing, Touched, Partner, Contents;
    var x, y, to := src.field, dest.field, map_[i].to;
    Top(src);
    Top(dest);
    ContentsAt(src);
    ContentsAt(dest);
    EntryAt(map_, x, y, paired, i);
    OnlyPartner(x, y, paired, i, to);
    TransferAt(x, y, Reached(x, paired, m, i), s0, d0, to);
  }

  /** The first leaf that does not fit. */
  lemma Stops(map_: seq<Mapping>, x: Field, y: Field, paired: set<nat>, m: set<nat>, i: nat, s0: seq<Value>, d0: seq<Value>, s: seq<Value>)
    requires x.Structure? && y.Structure? && Pairing(x, y, paired) && Table(map_, x, y, paired)
    requires i < Size(x) && |s0| == Size(x) && |d0| == Size(y) && map_[i].Mapping? && map_[i].leaf
    requires AllFit(x, Reached(x, paired, m, i), s0) && !Fits(NodeAt(x, i), s0[i])
    requires i in Reached(x, paired, m, i + 1) && map_[i].to < Size(y)
    requires var done := Transfer(x, y, Reached(x, paired, m, i), s0, d0);
      s == done[map_[i].to := CopyValue(NodeAt(x, i), done[map_[i].to], s0[i])]
    ensures StoppedAt(x, y, paired, m, s0, d0, i, s, Partners(x, y, Reached(x, paired, m, i)))
    ensures !AllFit(x, Reached(x, paired, m, Size(x)), s0)
  {
    hide Size, NodeAt, Fits, CopyValue, Transfer, Inner, Partners, Within, Touched, Partner;
    EntryAt(map_, x, y, paired, i);
    assert !LeafFits(x, s0, i);
  }

  /** One bit of the scan: what the mask that is scanned, the contents and the destination mask
      become. */
  lemma MapStep(map_: seq<Mapping>, x: Field, y: Field, paired: set<nat>, m: set<nat>, s: set<nat>, i: nat,
                s0: seq<Value>, d0: seq<Value>)
    requires x.Structure? && y.Structure? && Pairing(x, y, paired) && Table(map_, x, y, paired)
    requires i < Size(x) && |s0| == Size(x) && |d0| == Size(y)
    requires Expanded(s, x, paired, m, i) && i in s
    ensures var entry, reached, next := map_[i], Reached(x, paired, m, i), Reached(x, paired, m, i + 1);
      && (entry.Hole? ==> i in m)
      && (entry.Mapping? && entry.leaf ==> 0 < i && 0 < entry.to)
      && (entry.Mapping? ==> entry.to < Size(y) && (x == y ==> entry.to == i))
      && Expanded(if entry.Mapping? && !entry.leaf then s + entry.frommask else s, x, paired, m, i + 1)
      && Transfer(x, y, next, s0, d0) ==
         (if entry.Mapping? && entry.leaf then Transfer(x, y, reached, s0, d0)[entry.to := s0[i]]
          else Transfer(x, y, reached, s0, d0))
      && Partners(x, y, next) == Partners(x, y, reached) + (if entry.Mapping? then {entry.to} else {})
      && (entry.Mapping? ==> i in next)
      && (AllFit(x, reached, s0) && (entry.Mapping? && entry.leaf ==> Fits(NodeAt(x, i), s0[i])) ==> AllFit(x, next, s0))
  {
    hide Size, Transfer, Partner, Entry, Pairing, Touched, NodeAt, Within, Expanded, Inner, Partners, PairedAt;
    PairingClosed(x, y, paired);
    var reached, next := Reached(x, paired, m, i), Reached(x, paired, m, i + 1);
    EntryAt(map_, x, y, paired, i);
    ExpandStep(s, if i in paired then s + Inner(x, paired, i) else s, x, paired, m, i);
    ReachedStep(x, paired, m, i);
    ExpandedInside(s, x, paired, m, i);
    if i in paired {
      assert next == reached + {i};
      TransferStep(x, y, paired, reached, i, s0, d0);
      PartnersStep(x, y, reached, i);
      if map_[i].leaf { assert s + Inner(x, paired, i) == s; }
    } else {
      assert next == reached;
    }
  }

  lemma MapStart(x: Field, y: Field, paired: set<nat>, m: set<nat>, src: seq<Value>, dst: seq<Value>)
    requires (forall k | k in paired :: k < Size(x)) && |src| == Size(x) && |dst| == Size(y)
    ensures Expanded(m, x, paired, m, 0) && Reached(x, paired, m, 0) == {}
    ensures Transfer(x, y, {}, src, dst) == dst && Partners(x, y, {}) == {} && AllFit(x, {}, src)
  {}

  lemma ExpandedInside(s: set<nat>, x: Field, paired: set<nat>, m: set<nat>, n: nat)
    requires (forall k | k in paired :: k < Size(x)) && Expanded(s, x, paired, m, n)
    ensures s <= m + paired
  {}

  lemma PairingClosed(x: Field, y: Field, paired: set<nat>)
    requires Pairing(x, y, paired)
    ensures WellNamed(x) && forall a: nat, k: nat | k in paired && a < Size(x) && Within(x, a, k) :: a in paired
  {}

  lemma PartnersStep(x: Field, y: Field, reached: set<nat>, i: nat)
    requires (forall j | j in reached :: j < Size(x)) && i < Size(x)
    ensures Partners(x, y, reached + {i}) == Partners(x, y, reached) + {Partner(x, y, i)}
  {}

  /** What the entry of field `i` says. */
  lemma EntryAt(table: seq<Mapping>, x: Field, y: Field, paired: set<nat>, i: nat)
    requires Pairing(x, y, paired) && Table(table, x, y, paired) && i < Size(x)
    requires x.Structure? && y.Structure?
    ensures table[i].Hole? <==> i !in paired
    ensures table[i].Mapping? ==>
      && table[i].to == Partner(x, y, i) < Size(y)
      && table[i].leaf == !NodeAt(x, i).Structure?
      && table[i].frommask == Inner(x, paired, i)
      && table[i].tomask == Partners(x, y, Inner(x, paired, i))
      && (table[i].leaf ==> Inner(x, paired, i) == {} && 0 < i && 0 < table[i].to)
      && (x == y ==> table[i].to == i)
  {
    if i in paired {
      assert PairedAt(x, y, i);
      FindPath(x, i);
      if !NodeAt(x, i).Structure? { assert Next(x, i) == i + 1; }
    }
  }

  // ----- translating masks -----

  /** The paired fields reached from the bits before offset `n`. */
  ghost function ReachedFrom(x: Field, paired: set<nat>, m: set<nat>, n: nat): set<nat>
    requires forall k | k in paired :: k < Size(x)
  {
    set k | k in paired && ((k in m && k < n) || TouchedBefore(x, m, k, n))
  }

  lemma FromStep(x: Field, paired: set<nat>, m: set<nat>, i: nat)
    requires WellNamed(x) && (forall k | k in paired :: k < Size(x)) && i < Size(x)
    requires forall a: nat, k: nat | k in paired && a < Size(x) && Within(x, a, k) :: a in paired
    ensures ReachedFrom(x, paired, m, i + 1) ==
      ReachedFrom(x, paired, m, i) + if i in paired && i in m then {i} + Inner(x, paired, i) else {}
  {
    hide Within, Size;
    forall k | k in paired
      ensures TouchedBefore(x, m, k, i + 1) <==> TouchedBefore(x, m, k, i) || (i in m && i < k && Within(x, i, k))
    {
      TouchedLater(x, m, k, i);
    }
  }

  lemma {:induction false} FromSkip(x: Field, paired: set<nat>, m: set<nat>, i: nat, j: nat)
    requires (forall k | k in paired :: k < Size(x)) && i <= j && forall k | i <= k < j :: k !in m
    ensures ReachedFrom(x, paired, m, i) == ReachedFrom(x, paired, m, j)
  {
    hide Within, Size;
    forall k | k in paired
      ensures TouchedBefore(x, m, k, i) <==> TouchedBefore(x, m, k, j)
    {
      assert forall a | i <= a < j :: a !in m;
    }
  }

  lemma FromEnds(x: Field, paired: set<nat>, m: set<nat>)
    requires forall k | k in paired :: k < Size(x)
    ensures ReachedFrom(x, paired, m, 0) == {}
    ensures ReachedFrom(x, paired, m, Size(x)) == Reached(x, paired, m, Size(x))
  {
    hide Within, Size;
    forall k | k in paired
      ensures Touched(x, m, k) <==> k in m || TouchedBefore(x, m, k, Size(x))
    {
      TouchedLater(x, m, k, Size(x));
      TouchedLater(x, m, k, k);
      assert TouchedBefore(x, m, k, Size(x)) ==> TouchedBefore(x, m, k, k);
      assert TouchedBefore(x, m, k, k) ==> TouchedBefore(x, m, k, Size(x));
    }
  }

  lemma PartnersSum(x: Field, y: Field, a: set<nat>, b: set<nat>)
    requires forall j | j in a + b :: j < Size(x)
    ensures Partners(x, y, a + b) == Partners(x, y, a) + Partners(x, y, b)
  {}

  /** PVRequestMapper::_mapMask, in one direction.  It sets the bits that copying would set. */
  method MapMask(map_: seq<Mapping>, maskSrc: BitSet, maskDest: BitSet, r2b: bool,
                 ghost x: Field, ghost y: Field, ghost paired: set<nat>)
    requires x.Structure? && y.Structure? && Pairing(x, y, paired) && Table(map_, x, y, paired)
    requires maskSrc.Valid() && maskDest.Valid() && maskSrc != maskDest
    requires r2b ==> forall k | k in maskSrc.Bits() && k < |map_| :: map_[k].Mapping?
    modifies maskDest
    ensures maskDest.Valid()
    ensures maskDest.Bits() == old(maskDest.Bits()) + Partners(x, y, Reached(x, paired, maskSrc.Bits(), Size(x)))
  {
    hide Size, Partner, Entry, Pairing, Touched, NodeAt, Within, BitSet.Bits, BitSet.Valid, Inner, Partners, TouchedBefore;
    ghost var m, md := maskSrc.Bits(), maskDest.Bits();
    PairingClosed(x, y, paired);
    FromEnds(x, paired, m);
    PartnersNone(x, y);
    var empty := maskSrc.IsEmpty();
    if empty {
      FromSkip(x, paired, m, 0, Size(x));
      return;
    }
    var i := maskSrc.NextSetBit(0);
    ghost var b: nat := if 0 <= i < |map_| then i else |map_|;
    FromSkip(x, paired, m, 0, b);
    while 0 <= i < |map_|
      invariant maskDest.Valid() && maskSrc.Bits() == m
      invariant b == if 0 <= i < |map_| then i else |map_|
      invariant 0 <= i ==> (i as nat) in m
      invariant maskDest.Bits() == md + Partners(x, y, ReachedFrom(x, paired, m, b))
      decreases |map_| - b
    {
      EntryAt(map_, x, y, paired, i);
      FromStep(x, paired, m, i);
      match map_[i] {
        case Hole =>
          assert !r2b;
          assert ReachedFrom(x, paired, m, b + 1) == ReachedFrom(x, paired, m, b);
        case Mapping(to, leaf, tomask, _) =>
          assert ReachedFrom(x, paired, m, b + 1) == ReachedFrom(x, paired, m, b) + ({i as nat} + Inner(x, paired, i));
          InnerInside(x, paired, i);
          PartnersSum(x, y, ReachedFrom(x, paired, m, b), {i as nat} + Inner(x, paired, i));
          PartnersSum(x, y, {i as nat}, Inner(x, paired, i));
          PartnersOne(x, y, i);
          maskDest.Set(to);
          if !leaf {
            AddAll(maskDest, tomask);
          } else {
            PartnersNone(x, y);
          }
      }
      assert maskDest.Bits() == md + Partners(x, y, ReachedFrom(x, paired, m, b + 1));
      i := maskSrc.NextSetBit(i + 1);
      ghost var b1 := b + 1;
      b := if 0 <= i < |map_| then i else |map_|;
      FromSkip(x, paired, m, b1, b);
    }
  }

  lemma PartnersNone(x: Field, y: Field)
    ensures Partners(x, y, {}) == {}
  {}

  lemma PartnersOne(x: Field, y: Field, i: nat)
    requires i < Size(x)
    ensures Partners(x, y, {i}) == {Partner(x, y, i)}
  {}
}
