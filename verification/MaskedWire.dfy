/** Sending the part of an instance that a mask stands for. */
module MaskedWire {
  import opened Fields
  import opened Values
  import opened BitSets
  import opened Compress
  import opened CompressLaws
  import opened PVTree
  import opened Lookup
  import opened MaskedCopy
  import opened Wire
  import opened ValueCodec
  import opened ValueLaws
  import opened Sink

  /** Field `k` is a leaf that is sent. */
  predicate Sent(f: Field, o: nat, c: set<nat>, k: nat)
    requires k < Size(f)
  {
    !NodeAt(f, k).Structure? && o + k in c
  }

  /** The values of all leaves have the types of the leaves. */
  predicate HasContents(f: Field, vals: seq<Value>) {
    |vals| == Size(f) && forall k | 0 <= k < Size(f) && !NodeAt(f, k).Structure? :: HasType(NodeAt(f, k), vals[k])
  }

  function SentBytes(f: Field, o: nat, c: set<nat>, vals: seq<Value>, i: nat, big: bool): Bytes
    requires HasContents(f, vals) && i < Size(f)
  {
    if Sent(f, o, c, i) then ValueBytes(NodeAt(f, i), vals[i], big) else []
  }

  /** The leaves in `c` with numbers from `i` up to `j`, one after the other. */
  function LeafBytes(f: Field, o: nat, c: set<nat>, vals: seq<Value>, i: nat, j: nat, big: bool): Bytes
    requires HasContents(f, vals) && i <= j <= Size(f)
    decreases j - i
  {
    if i == j then []
    else SentBytes(f, o, c, vals, i, big) + LeafBytes(f, o, c, vals, i + 1, j, big)
  }

  /** Field `i` is read if it is sent, and keeps what it held otherwise. */
  function ReadLeaf(f: Field, o: nat, c: set<nat>, held: seq<Value>, i: nat, big: bool, s: Bytes): Parsed<Value>
    requires |held| == Size(f) && i < Size(f)
  {
    if Sent(f, o, c, i) then ReadValue(NodeAt(f, i), held[i], big, s) else Parsed(held[i], s)
  }

  /** Reading the leaves in `c` with numbers from `i` up to `j`. */
  function ReadLeaves(f: Field, o: nat, c: set<nat>, held: seq<Value>, i: nat, j: nat, big: bool, s: Bytes): (p: Parsed<seq<Value>>)
    requires |held| == Size(f) && i <= j <= Size(f)
    ensures p.Parsed? ==> |p.value| == j - i
    decreases j - i
  {
    if i == j then Parsed([], s)
    else match ReadLeaf(f, o, c, held, i, big, s)
      case Malformed => Malformed
      case Parsed(v, rest) =>
        match ReadLeaves(f, o, c, held, i + 1, j, big, rest)
        case Malformed => Malformed
        case Parsed(vs, rest') => Parsed([v] + vs, rest')
  }

  /** Receiving what was sent under a mask gives exactly the leaves that the mask covers their values. */
  lemma {:induction false} SendDelivers(f: Field, o: nat, c: set<nat>, src: seq<Value>, dst: seq<Value>, i: nat, big: bool, rest: Bytes)
    requires HasContents(f, src) && |dst| == Size(f) && i <= Size(f)
    ensures ReadLeaves(f, o, c, dst, i, Size(f), big, LeafBytes(f, o, c, src, i, Size(f), big) + rest)
            == Parsed(Overlay(f, o, c, src, dst)[i..], rest)
    decreases Size(f) - i
  {
    hide ReadLeaf, SentBytes, HasType, Overlay;
    var all := Overlay(f, o, c, src, dst);
    if i == Size(f) {
      assert LeafBytes(f, o, c, src, i, Size(f), big) + rest == rest;
      assert all[i..] == [];
    } else {
      var more := LeafBytes(f, o, c, src, i + 1, Size(f), big) + rest;
      assert LeafBytes(f, o, c, src, i, Size(f), big) + rest == SentBytes(f, o, c, src, i, big) + more;
      SendLeaf(f, o, c, src, dst, i, big, more);
      SendDelivers(f, o, c, src, dst, i + 1, big, rest);
      assert all[i..] == [all[i]] + all[i + 1..];
    }
  }

  lemma SendLeaf(f: Field, o: nat, c: set<nat>, src: seq<Value>, dst: seq<Value>, i: nat, big: bool, more: Bytes)
    requires HasContents(f, src) && |dst| == Size(f) && i < Size(f)
    ensures ReadLeaf(f, o, c, dst, i, big, SentBytes(f, o, c, src, i, big) + more)
            == Parsed(Overlay(f, o, c, src, dst)[i], more)
  {
    hide ReadValue, ValueBytes, NodeAt, HasType;
    if Sent(f, o, c, i) {
      ValueRoundTrip(NodeAt(f, i), src[i], dst[i], big, more);
    } else {
      assert [] + more == more;
    }
  }

  /** What a masked copy does, as the outcome of a read. */
  ghost function CopyOutcome(f: Field, o: nat, c: set<nat>, src: seq<Value>, dst: seq<Value>, rest: Bytes): Parsed<seq<Value>>
    requires |src| == |dst| == Size(f)
  {
    if Accepted(f, o, c, src) then Parsed(Carried(f, o, c, src, dst), rest) else Malformed
  }

  /** Sending and receiving does what copying does exactly if every leaf that is covered fits: receiving
      accepts bounded strings and arrays that copying refuses. */
  lemma SendIsCopyIffFits(f: Field, o: nat, c: set<nat>, src: seq<Value>, dst: seq<Value>, big: bool, rest: Bytes)
    requires HasContents(f, src) && |dst| == Size(f)
    ensures ReadLeaves(f, o, c, dst, 0, Size(f), big, LeafBytes(f, o, c, src, 0, Size(f), big) + rest)
            == CopyOutcome(f, o, c, src, dst, rest)
            <==> Accepted(f, o, c, src)
  {
    hide ReadLeaves, LeafBytes, Overlay, Carried, HasType, NodeAt, Accepted;
    SendDelivers(f, o, c, src, dst, 0, big, rest);
    assert Overlay(f, o, c, src, dst)[0..] == Overlay(f, o, c, src, dst);
    if Accepted(f, o, c, src) { CarriedIsOverlay(f, o, c, src, dst); }
  }

  /** A string that is longer than its bound can be sent and received, but not copied. */
  lemma SentButNotCopied(id: string, name: string, n: nat, text: Bytes, top: Value)
    requires 0 < n < |text| < MAX_SIZE
    ensures var f, src := Structure(id, [Member(name, BoundedString(n))]), [top, Text(text)];
      Size(f) == 2 && HasContents(f, src) && !Accepted(f, 0, Cover(f, 0, {1}), src)
  {
    var g := BoundedString(n);
    var ms := [Member(name, g)];
    var f := Structure(id, ms);
    assert ms[1..] == [] && SizeAll(ms) == 1 + SizeAll([]);
    assert NodeAt(f, 0) == f && NodeAt(f, 1) == NodeIn(ms, 0) == g;
    assert Within(f, 1, 1);
    AcceptedIff(f, {1}, [top, Text(text)]);
  }

  // ----- sections -----

  lemma {:induction false} LeafBytesSplit(f: Field, o: nat, c: set<nat>, vals: seq<Value>, i: nat, j: nat, k: nat, big: bool)
    requires HasContents(f, vals) && i <= j <= k <= Size(f)
    ensures LeafBytes(f, o, c, vals, i, k, big) == LeafBytes(f, o, c, vals, i, j, big) + LeafBytes(f, o, c, vals, j, k, big)
    decreases j - i
  {
    hide ValueBytes, NodeAt, HasType;
    if i < j { LeafBytesSplit(f, o, c, vals, i + 1, j, k, big); }
  }

  lemma {:induction false} ReadLeavesSplit(f: Field, o: nat, c: set<nat>, held: seq<Value>, i: nat, j: nat, k: nat, big: bool, s: Bytes)
    requires |held| == Size(f) && i <= j <= k <= Size(f)
    ensures ReadLeaves(f, o, c, held, i, k, big, s) ==
      match ReadLeaves(f, o, c, held, i, j, big, s)
      case Malformed => Malformed
      case Parsed(a, rest) =>
        match ReadLeaves(f, o, c, held, j, k, big, rest)
        case Malformed => Malformed
        case Parsed(b, rest') => Parsed(a + b, rest')
    decreases j - i
  {
    hide ReadLeaf;
    if i == j {
      var b := ReadLeaves(f, o, c, held, j, k, big, s);
      if b.Parsed? { assert [] + b.value == b.value; }
    } else {
      var first := ReadLeaf(f, o, c, held, i, big, s);
      if first.Parsed? {
        ReadLeavesSplit(f, o, c, held, i + 1, j, k, big, first.rest);
        var a := ReadLeaves(f, o, c, held, i + 1, j, big, first.rest);
        if a.Parsed? {
          var b := ReadLeaves(f, o, c, held, j, k, big, a.rest);
          if b.Parsed? { assert [first.value] + (a.value + b.value) == [first.value] + a.value + b.value; }
        }
      }
    }
  }

  /** The part of the bytes that belongs to member `i`. */
  ghost predicate SectionOf(f: Field, g: Field, o: nat, p: nat, c: set<nat>, d: set<nat>) {
    && p + Size(g) <= Size(f) && Agree(c, d, o + p, o + p + Size(g))
    && forall k | p <= k < p + Size(g) :: NodeAt(f, k) == NodeAt(g, k - p)
  }

  lemma {:induction false} LeafBytesSection(f: Field, g: Field, o: nat, p: nat, c: set<nat>, d: set<nat>, vals: seq<Value>, i: nat, big: bool)
    requires SectionOf(f, g, o, p, c, d) && HasContents(f, vals) && i <= Size(g)
    ensures HasContents(g, vals[p..p + Size(g)])
    ensures LeafBytes(f, o, c, vals, p + i, p + Size(g), big)
            == LeafBytes(g, o + p, d, vals[p..p + Size(g)], i, Size(g), big)
    decreases Size(g) - i
  {
    hide ValueBytes, NodeAt, HasType;
    assert forall k | 0 <= k < Size(g) :: NodeAt(g, k) == NodeAt(f, p + k) && vals[p..p + Size(g)][k] == vals[p + k];
    if i < Size(g) { LeafBytesSection(f, g, o, p, c, d, vals, i + 1, big); }
  }

  lemma ReadLeafSection(f: Field, g: Field, o: nat, p: nat, c: set<nat>, d: set<nat>, held: seq<Value>, i: nat, big: bool, s: Bytes)
    requires SectionOf(f, g, o, p, c, d) && |held| == Size(f) && i < Size(g)
    ensures ReadLeaf(f, o, c, held, p + i, big, s) == ReadLeaf(g, o + p, d, held[p..p + Size(g)], i, big, s)
  {
    hide ReadValue, NodeAt;
    assert NodeAt(g, i) == NodeAt(f, p + i) && held[p..p + Size(g)][i] == held[p + i];
  }

  lemma {:induction false} ReadLeavesSection(f: Field, g: Field, o: nat, p: nat, c: set<nat>, d: set<nat>, held: seq<Value>,
                                             i: nat, j: nat, big: bool, s: Bytes)
    requires SectionOf(f, g, o, p, c, d) && |held| == Size(f) && i <= j <= Size(g)
    ensures ReadLeaves(f, o, c, held, p + i, p + j, big, s)
            == ReadLeaves(g, o + p, d, held[p..p + Size(g)], i, j, big, s)
    decreases j - i
  {
    hide ReadLeaf;
    if i < j {
      ReadLeafSection(f, g, o, p, c, d, held, i, big, s);
      var first := ReadLeaf(f, o, c, held, p + i, big, s);
      if first.Parsed? {
        ReadLeavesSection(f, g, o, p, c, d, held, i + 1, j, big, first.rest);
      }
    }
  }

  /** Nothing is sent when no leaf is selected. */
  lemma NotSent(f: Field, o: nat, c: set<nat>, vals: seq<Value>, i: nat, big: bool, s: Bytes)
    requires |vals| == Size(f) && i < Size(f) && o + i !in c
    ensures HasContents(f, vals) ==> SentBytes(f, o, c, vals, i, big) == []
    ensures ReadLeaf(f, o, c, vals, i, big, s) == Parsed(vals[i], s)
  {}

  lemma {:induction false} NothingSent(f: Field, o: nat, c: set<nat>, vals: seq<Value>, i: nat, j: nat, big: bool, s: Bytes)
    requires |vals| == Size(f) && i <= j <= Size(f) && forall k | o + i <= k < o + j :: k !in c
    ensures HasContents(f, vals) ==> LeafBytes(f, o, c, vals, i, j, big) == []
    ensures ReadLeaves(f, o, c, vals, i, j, big, s) == Parsed(vals[i..j], s)
    decreases j - i
  {
    hide ReadLeaf, SentBytes, NodeAt, HasType;
    if i < j {
      NotSent(f, o, c, vals, i, big, s);
      NothingSent(f, o, c, vals, i + 1, j, big, s);
      assert vals[i..j] == [vals[i]] + vals[i + 1..j];
    } else {
      assert vals[i..j] == [];
    }
  }

  // ----- what the bytes depend on -----

  /** Masks that stand for the same leaves send the same bytes; compressing the mask first
      changes nothing. */
  lemma CompressedSend(f: Field, m: set<nat>, vals: seq<Value>, big: bool)
    requires HasContents(f, vals)
    ensures LeafBytes(f, 0, Cover(f, 0, Canon(f, 0, m)), vals, 0, Size(f), big)
            == LeafBytes(f, 0, Cover(f, 0, m), vals, 0, Size(f), big)
  {
    CompressKeepsCover(f, 0, m);
  }

  /** The bytes depend on the values of the leaves that are sent only. */
  lemma {:induction false} SentValuesOnly(f: Field, o: nat, c: set<nat>, a: seq<Value>, b: seq<Value>, i: nat, big: bool)
    requires HasContents(f, a) && HasContents(f, b) && i <= Size(f)
    requires forall k | 0 <= k < Size(f) && Sent(f, o, c, k) :: a[k] == b[k]
    ensures LeafBytes(f, o, c, a, i, Size(f), big) == LeafBytes(f, o, c, b, i, Size(f), big)
    decreases Size(f) - i
  {
    hide ValueBytes, NodeAt, HasType;
    if i < Size(f) { SentValuesOnly(f, o, c, a, b, i + 1, big); }
  }

  // ----- sending an instance -----

  /** All leaves of the instance are in `c`. */
  predicate AllLeaves(f: Field, o: nat, c: set<nat>) {
    forall k | 0 <= k < Size(f) && !NodeAt(f, k).Structure? :: o + k in c
  }

  /** What is needed before member `i` is sent or received. */
  lemma MemberSection(t: Tree, o: nat, c: set<nat>, i: nat)
    requires WellFormed(t) && t.field.Structure? && i < |t.children|
    ensures |Nodes(t)| == Size(t.field) && |t.children| == |t.field.members|
    ensures var ms := t.field.members;
      var p, q, g := 1 + SizeAll(ms[..i]), 1 + SizeAll(ms[..i + 1]), ms[i].field;
      && WellFormed(t.children[i]) && t.children[i].field == g && |Nodes(t.children[i])| == Size(g)
      && q == p + Size(g) <= Size(t.field)
      && SectionOf(t.field, g, o, p, c, c)
      && Contents(t.children[i]) == Contents(t)[p..q]
      && (AllLeaves(t.field, o, c) ==> AllLeaves(g, o + p, c))
  {
    hide Shaped, Nodes, NodesAll, SizeAll, Size, NodeAt, Distinct, Contents;
    Section(t, i);
    ContentsSection(t, i);
    SectionTypes(t.field, i);
    var ms := t.field.members;
    var p, g := 1 + SizeAll(ms[..i]), ms[i].field;
    if AllLeaves(t.field, o, c) {
      forall k | 0 <= k < Size(g) && !NodeAt(g, k).Structure?
        ensures o + p + k in c
      {
        assert NodeAt(t.field, p + k) == NodeAt(g, k);
      }
    }
  }

  /** The structure itself sends nothing. */
  lemma TopSendsNothing(f: Field, o: nat, c: set<nat>, vals: seq<Value>, big: bool)
    requires f.Structure? && HasContents(f, vals)
    ensures LeafBytes(f, o, c, vals, 0, 1, big) == []
  {
    assert LeafBytes(f, o, c, vals, 0, 1, big) == SentBytes(f, o, c, vals, 0, big) + LeafBytes(f, o, c, vals, 1, 1, big);
  }

  lemma LeafSends(f: Field, o: nat, c: set<nat>, vals: seq<Value>, big: bool)
    requires !f.Structure? && HasContents(f, vals) && o in c
    ensures HasType(f, vals[0]) && LeafBytes(f, o, c, vals, 0, 1, big) == ValueBytes(f, vals[0], big)
  {
    hide ValueBytes, HasType;
    assert NodeAt(f, 0) == f;
    assert LeafBytes(f, o, c, vals, 0, 1, big) == SentBytes(f, o, c, vals, 0, big) + LeafBytes(f, o, c, vals, 1, 1, big);
  }

  /** Serializing a field completely. */
  method SerializeTree(t: Tree, sink: Serializer, ghost o: nat, ghost c: set<nat>)
    requires WellFormed(t) && |Nodes(t)| == Size(t.field) && HasContents(t.field, Contents(t))
    requires sink.Valid() && AllLeaves(t.field, o, c)
    modifies sink, sink.buffer
    ensures sink.Valid() && Contents(t) == old(Contents(t))
    ensures sink.Emitted() == old(sink.Emitted()) + LeafBytes(t.field, o, c, Contents(t), 0, Size(t.field), sink.big)
    decreases t
  {
    hide Shaped, Nodes, NodesAll, SizeAll, Size, NodeAt, Distinct, Contents, HasContents, LeafBytes, Serializer.Emitted, AllLeaves,
         SectionOf, WellFormed;
    ghost var f, vals, before := t.field, Contents(t), sink.Emitted();
    Top(t);
    NodesAllocated(t);
    if !t.field.Structure? {
      OneLeaf(t, o, c, sink.big);
      sink.SerializeValue(t.field, t.node.value);
      return;
    }
    ghost var ms := f.members;
    ghost var p := 1;
    TopSendsNothing(f, o, c, vals, sink.big);
    for i := 0 to |t.children|
      invariant sink.Valid() && Contents(t) == vals
      invariant p == 1 + SizeAll(ms[..i]) <= Size(f)
      invariant sink.Emitted() == before + LeafBytes(f, o, c, vals, 0, p, sink.big)
    {
      ghost var now := sink.Emitted();
      NodesAllocated(t);
      MemberSection(t, o, c, i);
      ghost var q := 1 + SizeAll(ms[..i + 1]);
      LeafBytesSection(f, ms[i].field, o, p, c, c, vals, 0, sink.big);
      LeafBytesSplit(f, o, c, vals, 0, p, q, sink.big);
      SerializeTree(t.children[i], sink, o + p, c);
      Joined(before, LeafBytes(f, o, c, vals, 0, p, sink.big), LeafBytes(f, o, c, vals, p, q, sink.big));
      p := q;
    }
  }

  lemma OneLeaf(t: Tree, o: nat, c: set<nat>, big: bool)
    requires WellFormed(t) && !t.field.Structure? && |Nodes(t)| == Size(t.field)
    requires HasContents(t.field, Contents(t)) && AllLeaves(t.field, o, c)
    ensures Size(t.field) == 1 && HasType(t.field, t.node.value)
    ensures LeafBytes(t.field, o, c, Contents(t), 0, 1, big) == ValueBytes(t.field, t.node.value, big)
  {
    Top(t);
    ContentsAt(t);
    assert NodeAt(t.field, 0) == t.field;
    LeafSends(t.field, o, c, Contents(t), big);
  }

  /** No selected bit in a part of the tree: nothing in it is covered. */
  lemma {:induction false} RestNotCovered(f: Field, o: nat, m: set<nat>, i: nat)
    requires f.Structure? && i <= |f.members| && o !in m
    requires Agree(m, {}, o + 1 + SizeAll(f.members[..i]), o + Size(f))
    ensures forall k | o + 1 + SizeAll(f.members[..i]) <= k < o + Size(f) :: k !in Cover(f, o, m)
    decreases |f.members| - i
  {
    hide SizeAll, Size, Cover, NodeAt;
    if i == |f.members| {
      Ends(f, o, m);
    } else {
      SectionTypes(f, i);
      MemberNotCovered(f, o, m, i);
      RestNotCovered(f, o, m, i + 1);
    }
  }

  lemma MemberNotCovered(f: Field, o: nat, m: set<nat>, i: nat)
    requires f.Structure? && i < |f.members| && o !in m
    requires Agree(m, {}, o + 1 + SizeAll(f.members[..i]), o + 1 + SizeAll(f.members[..i + 1]))
    ensures forall k | o + 1 + SizeAll(f.members[..i]) <= k < o + 1 + SizeAll(f.members[..i + 1]) :: k !in Cover(f, o, m)
  {
    hide SizeAll, Size, Cover, NodeAt;
    var p := 1 + SizeAll(f.members[..i]);
    SectionTypes(f, i);
    CoverSection(f, o, m, i);
    Local(f.members[i].field, o + p, m, {});
    EmptyCover(f.members[i].field, o + p);
  }

  lemma NoneCovered(f: Field, o: nat, m: set<nat>)
    requires Agree(m, {}, o, o + Size(f))
    ensures Cover(f, o, m) == {}
  {
    Local(f, o, m, {});
    EmptyCover(f, o);
  }

  lemma AllCovered(f: Field, o: nat, m: set<nat>)
    requires o in m
    ensures AllLeaves(f, o, Cover(f, o, m))
  {
    forall k | 0 <= k < Size(f) && !NodeAt(f, k).Structure?
      ensures o + k in Cover(f, o, m)
    {
      LeavesByNode(f, o, o + k);
    }
  }

  /** The part of member `i`, under the mask. */
  lemma MaskedMember(f: Field, o: nat, m: set<nat>, i: nat)
    requires f.Structure? && i < |f.members| && o !in m
    ensures var p, g := 1 + SizeAll(f.members[..i]), f.members[i].field;
      SectionOf(f, g, o, p, Cover(f, o, m), Cover(g, o + p, m))
  {
    hide SizeAll, Size, Cover, NodeAt;
    SectionTypes(f, i);
    CoverSection(f, o, m, i);
  }

  /** PVStructure::serialize under a mask, for a subtree that is numbered from `o`. */
  method SerializeMasked(t: Tree, sink: Serializer, mask: BitSet, ghost o: nat)
    requires WellFormed(t) && |Nodes(t)| == Size(t.field) && HasContents(t.field, Contents(t))
    requires t.field.Structure? && Numbered(t, o) && sink.Valid()
    modifies sink, sink.buffer
    ensures sink.Valid() && Contents(t) == old(Contents(t)) && mask.Bits() == old(mask.Bits())
    ensures sink.Emitted() == old(sink.Emitted())
      + LeafBytes(t.field, o, Cover(t.field, o, mask.Bits()), Contents(t), 0, Size(t.field), sink.big)
    decreases t, 1
  {
    hide Shaped, Nodes, NodesAll, SizeAll, Size, NodeAt, Distinct, Contents, HasContents, LeafBytes, Serializer.Emitted, AllLeaves,
         SectionOf, WellFormed, Cover, Numbered, BitSet.Bits;
    ghost var f, vals, before, m := t.field, Contents(t), sink.Emitted(), mask.Bits();
    ghost var c := Cover(f, o, m);
    Top(t);
    NodesAllocated(t);
    NumberedTop(t, o);
    var offset := t.node.fieldOffset;
    var numberFields := t.node.nextFieldOffset - offset;
    var next := mask.NextSetBit(offset);
    if next < 0 || next >= offset + numberFields {
      NoneCovered(f, o, m);
      NothingSent(f, o, c, vals, 0, Size(f), sink.big, []);
      return;
    }
    if offset == next {
      AllCovered(f, o, m);
      SerializeTree(t, sink, o, c);
      return;
    }
    ghost var ms := f.members;
    ghost var p := 1;
    TopSendsNothing(f, o, c, vals, sink.big);
    for i := 0 to |t.children|
      invariant sink.Valid() && Contents(t) == vals && mask.Bits() == m
      invariant p == 1 + SizeAll(ms[..i]) <= Size(f)
      invariant sink.Emitted() == before + LeafBytes(f, o, c, vals, 0, p, sink.big)
    {
      NodesAllocated(t);
      ghost var q := 1 + SizeAll(ms[..i + 1]);
      MemberSection(t, o, c, i);
      NumberedChild(t, i, o);
      var pvField := t.children[i];
      NumberedTop(pvField, o + p);
      NodesAllocated(pvField);
      offset := pvField.node.fieldOffset;
      numberFields := pvField.node.nextFieldOffset - offset;
      next := mask.NextSetBit(offset);
      if next < 0 {
        RestNotCovered(f, o, m, i);
        NothingSent(f, o, c, vals, p, Size(f), sink.big, []);
        LeafBytesSplit(f, o, c, vals, 0, p, Size(f), sink.big);
        return;
      }
      LeafBytesSplit(f, o, c, vals, 0, p, q, sink.big);
      if next >= offset + numberFields {
        MemberNotCovered(f, o, m, i);
        NothingSent(f, o, c, vals, p, q, sink.big, []);
      } else {
        MaskedMember(f, o, m, i);
        LeafBytesSection(f, ms[i].field, o, p, c, Cover(ms[i].field, o + p, m), vals, 0, sink.big);
        SerializeMember(pvField, sink, mask, o + p);
        Joined(before, LeafBytes(f, o, c, vals, 0, p, sink.big), LeafBytes(f, o, c, vals, p, q, sink.big));
      }
      p := q;
    }
  }

  /** What the loop does with a subfield that has a selected bit. */
  method SerializeMember(pvField: Tree, sink: Serializer, mask: BitSet, ghost o: nat)
    requires WellFormed(pvField) && |Nodes(pvField)| == Size(pvField.field) && HasContents(pvField.field, Contents(pvField))
    requires Numbered(pvField, o) && sink.Valid() && !Agree(mask.Bits(), {}, o, o + Size(pvField.field))
    modifies sink, sink.buffer
    ensures sink.Valid() && Contents(pvField) == old(Contents(pvField)) && mask.Bits() == old(mask.Bits())
    ensures sink.Emitted() == old(sink.Emitted())
      + LeafBytes(pvField.field, o, Cover(pvField.field, o, mask.Bits()), Contents(pvField), 0, Size(pvField.field), sink.big)
    decreases pvField, 2
  {
    hide Shaped, Nodes, NodesAll, SizeAll, Size, NodeAt, Distinct, Contents, HasContents, LeafBytes, Serializer.Emitted, AllLeaves,
         WellFormed, Cover, Numbered, BitSet.Bits;
    Top(pvField);
    NumberedTop(pvField, o);
    if pvField.node.nextFieldOffset - pvField.node.fieldOffset == 1 {
      AllCovered(pvField.field, o, mask.Bits());
      SerializeTree(pvField, sink, o, Cover(pvField.field, o, mask.Bits()));
    } else {
      SerializeMasked(pvField, sink, mask, o);
    }
  }

  // ----- receiving into an instance -----

  /** What is known after the fields before `p` have been received. */
  ghost predicate Received(f: Field, o: nat, c: set<nat>, dst: seq<Value>, big: bool, s: Bytes,
                           p: nat, now: seq<Value>, rest: Bytes) {
    && p <= Size(f) == |dst| == |now|
    && ReadLeaves(f, o, c, dst, 0, p, big, s) == Parsed(now[..p], rest)
    && now[p..] == dst[p..]
  }

  /** The result of receiving a field: the bytes that are left, or an error. */
  function Outcome(r: Parsed<seq<Value>>): Parsed<()> {
    match r
    case Malformed => Malformed
    case Parsed(_, rest) => Parsed((), rest)
  }

  /** Reading has failed at field `k`: the fields before it have been received, and those behind it keep what
      they held.  Nothing is said of the field itself. */
  ghost predicate BrokenAt(f: Field, o: nat, c: set<nat>, dst: seq<Value>, big: bool, s: Bytes, k: nat, now: seq<Value>) {
    && k < Size(f) == |dst| == |now| && now[k + 1..] == dst[k + 1..]
    && match ReadLeaves(f, o, c, dst, 0, k, big, s)
       case Malformed => false
       case Parsed(vs, rest) => vs == now[..k] && ReadLeaf(f, o, c, dst, k, big, rest).Malformed?
  }

  ghost predicate Broken(f: Field, o: nat, c: set<nat>, dst: seq<Value>, big: bool, s: Bytes, now: seq<Value>) {
    exists k: nat :: BrokenAt(f, o, c, dst, big, s, k, now)
  }

  /** Reading fails at one field only, and only if it fails. */
  lemma BrokenOnce(f: Field, o: nat, c: set<nat>, dst: seq<Value>, big: bool, s: Bytes, k: nat, now: seq<Value>, j: nat, then': seq<Value>)
    requires BrokenAt(f, o, c, dst, big, s, k, now)
    ensures ReadLeaves(f, o, c, dst, 0, Size(f), big, s) == Malformed
    ensures BrokenAt(f, o, c, dst, big, s, j, then') ==> j == k && now[..k] == then'[..k] && now[k + 1..] == then'[k + 1..]
  {
    hide ReadLeaf;
    FailsFrom(f, o, c, dst, big, s, k, Size(f));
    if BrokenAt(f, o, c, dst, big, s, j, then') {
      if k < j { FailsFrom(f, o, c, dst, big, s, k, j); }
      if j < k { FailsFrom(f, o, c, dst, big, s, j, k); }
    }
  }

  lemma FailsFrom(f: Field, o: nat, c: set<nat>, dst: seq<Value>, big: bool, s: Bytes, k: nat, n: nat)
    requires k < n <= Size(f) == |dst|
    requires var r := ReadLeaves(f, o, c, dst, 0, k, big, s);
      r.Parsed? && ReadLeaf(f, o, c, dst, k, big, r.rest).Malformed?
    ensures ReadLeaves(f, o, c, dst, 0, n, big, s) == Malformed
  {
    hide ReadLeaf;
    ReadLeavesSplit(f, o, c, dst, 0, k, n, big, s);
  }

  lemma PartPlaced(before: seq<Value>, part: seq<Value>, dst: seq<Value>, p: nat, q: nat, j: nat)
    requires p <= q <= |before| == |dst| && |part| == q - p && j < |part|
    requires before[p..] == dst[p..] && part[j + 1..] == dst[p..q][j + 1..]
    ensures var now, k := before[..p] + part + before[q..], p + j;
      |now| == |dst| && now[..k] == before[..p] + part[..j] && now[k + 1..] == dst[k + 1..]
  {
    var now, k := before[..p] + part + before[q..], p + j;
    assert forall l | 0 <= l < |dst| - p :: before[p..][l] == dst[p..][l];
    forall l | k + 1 <= l < |dst|
      ensures now[l] == dst[l]
    {
      if l < q {
        assert part[j + 1..][l - k - 1] == dst[p..q][j + 1..][l - k - 1];
      } else {
        assert before[p..][l - p] == dst[p..][l - p];
      }
    }
  }

  /** Reading has failed in the fields from `p` on that belong to a subfield. */
  lemma BrokenSection(f: Field, g: Field, o: nat, p: nat, c: set<nat>, d: set<nat>, dst: seq<Value>, big: bool, s: Bytes,
                      before: seq<Value>, rest: Bytes, part: seq<Value>)
    requires Received(f, o, c, dst, big, s, p, before, rest) && SectionOf(f, g, o, p, c, d)
    requires Broken(g, o + p, d, dst[p..p + Size(g)], big, rest, part)
    ensures Broken(f, o, c, dst, big, s, before[..p] + part + before[p + Size(g)..])
  {
    hide ReadLeaf, ReadLeaves, SectionOf, Size;
    var q := p + Size(g);
    SectionWithin(f, g, o, p, c, d);
    var j: nat :| BrokenAt(g, o + p, d, dst[p..q], big, rest, j, part);
    PartPlaced(before, part, dst, p, q, j);
    BrokenLeaf(f, g, o, p, c, d, dst, big, s, before[..p], rest, j, part[..j]);
    assert BrokenAt(f, o, c, dst, big, s, p + j, before[..p] + part + before[q..]);
  }

  lemma BrokenLeaf(f: Field, g: Field, o: nat, p: nat, c: set<nat>, d: set<nat>, dst: seq<Value>, big: bool, s: Bytes,
                   first: seq<Value>, rest: Bytes, j: nat, part: seq<Value>)
    requires SectionOf(f, g, o, p, c, d) && p + Size(g) <= Size(f) == |dst| && j < Size(g)
    requires ReadLeaves(f, o, c, dst, 0, p, big, s) == Parsed(first, rest)
    requires var r := ReadLeaves(g, o + p, d, dst[p..p + Size(g)], 0, j, big, rest);
      r.Parsed? && r.value == part && ReadLeaf(g, o + p, d, dst[p..p + Size(g)], j, big, r.rest).Malformed?
    ensures var r := ReadLeaves(f, o, c, dst, 0, p + j, big, s);
      r.Parsed? && r.value == first + part && ReadLeaf(f, o, c, dst, p + j, big, r.rest).Malformed?
  {
    hide ReadLeaf, ReadLeaves, SectionOf, Size;
    var r := ReadLeaves(g, o + p, d, dst[p..p + Size(g)], 0, j, big, rest);
    ReadLeavesSection(f, g, o, p, c, d, dst, 0, j, big, rest);
    ReadLeavesSplit(f, o, c, dst, 0, p, p + j, big, s);
    ReadLeafSection(f, g, o, p, c, d, dst, j, big, r.rest);
  }

  lemma SectionWithin(f: Field, g: Field, o: nat, p: nat, c: set<nat>, d: set<nat>)
    requires SectionOf(f, g, o, p, c, d)
    ensures p + Size(g) <= Size(f)
  {}

  lemma ReceivedStart(f: Field, o: nat, c: set<nat>, dst: seq<Value>, big: bool, s: Bytes)
    requires f.Structure? && |dst| == Size(f)
    ensures Received(f, o, c, dst, big, s, 1, dst, s)
  {
    assert !Sent(f, o, c, 0);
    assert ReadLeaves(f, o, c, dst, 1, 1, big, s) == Parsed([], s);
    assert dst[..1] == [dst[0]] + [];
  }

  lemma ReceivedMember(f: Field, o: nat, c: set<nat>, dst: seq<Value>, big: bool, s: Bytes, p: nat, q: nat, now: seq<Value>, rest: Bytes)
    requires Received(f, o, c, dst, big, s, p, now, rest) && p <= q <= Size(f)
    ensures now[p..q] == dst[p..q]
    ensures var r := ReadLeaves(f, o, c, dst, p, q, big, rest);
      if r.Malformed? then ReadLeaves(f, o, c, dst, 0, Size(f), big, s) == Malformed
      else Received(f, o, c, dst, big, s, q, now[..p] + r.value + now[q..], r.rest)
  {
    hide ReadLeaves;
    ReadLeavesSplit(f, o, c, dst, 0, p, q, big, s);
    ReadLeavesSplit(f, o, c, dst, 0, q, Size(f), big, s);
    assert now[p..q] == now[p..][..q - p] && now[q..] == now[p..][q - p..] && dst[q..] == dst[p..][q - p..];
    var r := ReadLeaves(f, o, c, dst, p, q, big, rest);
    if r.Parsed? {
      var then' := now[..p] + r.value + now[q..];
      assert then'[..q] == now[..p] + r.value && then'[q..] == now[q..];
    }
  }

  lemma ReceivedEnd(f: Field, o: nat, c: set<nat>, dst: seq<Value>, big: bool, s: Bytes, now: seq<Value>, rest: Bytes)
    requires Received(f, o, c, dst, big, s, Size(f), now, rest)
    ensures ReadLeaves(f, o, c, dst, 0, Size(f), big, s) == Parsed(now, rest)
  {
    assert now[..Size(f)] == now;
  }

  lemma LeafReceives(f: Field, o: nat, c: set<nat>, dst: seq<Value>, big: bool, s: Bytes)
    requires !f.Structure? && |dst| == Size(f) && o in c
    ensures Size(f) == 1
    ensures ReadLeaves(f, o, c, dst, 0, 1, big, s) ==
      match ReadValue(f, dst[0], big, s)
      case Malformed => Malformed
      case Parsed(v, rest) => Parsed([v], rest)
  {
    hide ReadValue;
    assert NodeAt(f, 0) == f;
    var r := ReadValue(f, dst[0], big, s);
    if r.Parsed? {
      assert ReadLeaves(f, o, c, dst, 1, 1, big, r.rest) == Parsed([], r.rest);
      assert [r.value] + [] == [r.value];
    }
  }

  /** What is known after one more member has been received. */
  lemma ChildReceived(t: Tree, o: nat, c: set<nat>, i: nat, dst: seq<Value>, before: seq<Value>, big: bool, s: Bytes,
                      rest: Bytes, child: Parsed<()>)
    requires WellFormed(t) && t.field.Structure? && i < |t.children| == |t.field.members|
    requires |before| == |Nodes(t)| == Size(t.field)
    requires Received(t.field, o, c, dst, big, s, 1 + SizeAll(t.field.members[..i]), before, rest)
    requires forall k | 0 <= k < |before| && Nodes(t)[k] !in Nodes(t.children[i]) :: Nodes(t)[k].value == before[k]
    requires 1 + SizeAll(t.field.members[..i]) <= 1 + SizeAll(t.field.members[..i + 1]) <= Size(t.field)
    requires var p, q, g := 1 + SizeAll(t.field.members[..i]), 1 + SizeAll(t.field.members[..i + 1]), t.field.members[i].field;
      && q - p == Size(g)
      && child == Outcome(ReadLeaves(g, o + p, c, before[p..q], 0, Size(g), big, rest))
      && (child.Parsed? ==> Contents(t.children[i]) == ReadLeaves(g, o + p, c, before[p..q], 0, Size(g), big, rest).value)
      && (child.Malformed? ==> Broken(g, o + p, c, before[p..q], big, rest, Contents(t.children[i])))
    ensures child.Malformed? ==> Broken(t.field, o, c, dst, big, s, Contents(t))
    ensures child.Malformed? ==> |dst| == Size(t.field) && ReadLeaves(t.field, o, c, dst, 0, Size(t.field), big, s) == Malformed
    ensures child.Parsed? ==>
      Received(t.field, o, c, dst, big, s, 1 + SizeAll(t.field.members[..i + 1]), Contents(t), child.rest)
  {
    hide Shaped, Nodes, NodesAll, SizeAll, Size, NodeAt, Distinct, Contents, SectionOf, ReadLeaves, Broken;
    var f, ms := t.field, t.field.members;
    var p, q := 1 + SizeAll(ms[..i]), 1 + SizeAll(ms[..i + 1]);
    MemberSection(t, o, c, i);
    ReceivedMember(f, o, c, dst, big, s, p, q, before, rest);
    ReadLeavesSection(f, ms[i].field, o, p, c, c, dst, 0, Size(ms[i].field), big, rest);
    SectionUpdated(t, i, before);
    if child.Malformed? { BrokenSection(f, ms[i].field, o, p, c, c, dst, big, s, before, rest, Contents(t.children[i])); }
  }

  /** Deserializing a field completely. */
  method DeserializeTree(t: Tree, big: bool, s: Bytes, ghost o: nat, ghost c: set<nat>) returns (r: Parsed<()>)
    requires WellFormed(t) && |Nodes(t)| == Size(t.field) && AllLeaves(t.field, o, c)
    modifies Nodes(t)`value
    ensures r == Outcome(ReadLeaves(t.field, o, c, old(Contents(t)), 0, Size(t.field), big, s))
    ensures r.Parsed? ==> Contents(t) == ReadLeaves(t.field, o, c, old(Contents(t)), 0, Size(t.field), big, s).value
    ensures r.Malformed? ==> Broken(t.field, o, c, old(Contents(t)), big, s, Contents(t))
    decreases t
  {
    hide Shaped, Nodes, NodesAll, SizeAll, Size, NodeAt, Distinct, Contents, AllLeaves, SectionOf, WellFormed, ReadLeaves, Received, Broken;
    ghost var f, dst := t.field, Contents(t);
    Top(t);
    if !t.field.Structure? {
      r := ReceiveLeaf(t, big, s, o, c);
      return;
    }
    var rest := s;
    ghost var ms := f.members;
    ghost var p := 1;
    ReceivedStart(f, o, c, dst, big, s);
    for i := 0 to |t.children|
      invariant p == 1 + SizeAll(ms[..i]) <= Size(f)
      invariant Received(f, o, c, dst, big, s, p, Contents(t), rest)
    {
      ghost var q := 1 + SizeAll(ms[..i + 1]);
      MemberSection(t, o, c, i);
      NodesAllocated(t);
      ContentsAt(t);
      Section(t, i);
      ghost var before := Contents(t);
      var child := DeserializeTree(t.children[i], big, rest, o + p, c);
      ChildReceived(t, o, c, i, dst, before, big, s, rest, child);
      if child.Malformed? {
        return Malformed;
      }
      rest := child.rest;
      p := q;
    }
    ReceivedEnd(f, o, c, dst, big, s, Contents(t), rest);
    return Parsed((), rest);
  }

  method ReceiveLeaf(t: Tree, big: bool, s: Bytes, ghost o: nat, ghost c: set<nat>) returns (r: Parsed<()>)
    requires WellFormed(t) && !t.field.Structure? && |Nodes(t)| == Size(t.field) && AllLeaves(t.field, o, c)
    modifies Nodes(t)`value
    ensures r == Outcome(ReadLeaves(t.field, o, c, old(Contents(t)), 0, Size(t.field), big, s))
    ensures r.Parsed? ==> Contents(t) == ReadLeaves(t.field, o, c, old(Contents(t)), 0, Size(t.field), big, s).value
    ensures r.Malformed? ==> Broken(t.field, o, c, old(Contents(t)), big, s, Contents(t))
  {
    hide Shaped, NodesAll, SizeAll, ReadLeaves, ReadValue;
    ghost var dst := Contents(t);
    Top(t);
    ContentsAt(t);
    assert NodeAt(t.field, 0) == t.field;
    LeafReceives(t.field, o, c, dst, big, s);
    var v := ReadValue(t.field, t.node.value, big, s);
    if v.Malformed? {
      LeafBroken(t.field, o, c, dst, big, s);
      return Malformed;
    }
    assert t.node in Nodes(t);
    t.node.value := v.value;
    ContentsAt(t);
    assert Contents(t) == [v.value];
    return Parsed((), v.rest);
  }

  lemma LeafBroken(f: Field, o: nat, c: set<nat>, dst: seq<Value>, big: bool, s: Bytes)
    requires !f.Structure? && |dst| == Size(f) == 1 && o in c && ReadValue(f, dst[0], big, s).Malformed?
    ensures Broken(f, o, c, dst, big, s, dst)
  {
    hide ReadValue;
    assert NodeAt(f, 0) == f;
    assert ReadLeaves(f, o, c, dst, 0, 0, big, s) == Parsed([], s);
    assert BrokenAt(f, o, c, dst, big, s, 0, dst);
  }

  /** Nothing is received for the fields from `p` up to `q`. */
  lemma ReceivedNothing(f: Field, o: nat, c: set<nat>, dst: seq<Value>, big: bool, s: Bytes, p: nat, q: nat, now: seq<Value>, rest: Bytes)
    requires Received(f, o, c, dst, big, s, p, now, rest) && p <= q <= Size(f)
    requires forall k | o + p <= k < o + q :: k !in c
    ensures Received(f, o, c, dst, big, s, q, now, rest)
  {
    hide ReadLeaves;
    ReceivedMember(f, o, c, dst, big, s, p, q, now, rest);
    NothingSent(f, o, c, dst, p, q, big, rest);
    assert now == now[..p] + now[p..q] + now[q..];
  }

  /** PVStructure::deserialize under a mask, for a subtree that is numbered from `o`. */
  method DeserializeMasked(t: Tree, big: bool, s: Bytes, mask: BitSet, ghost o: nat) returns (r: Parsed<()>)
    requires WellFormed(t) && |Nodes(t)| == Size(t.field) && t.field.Structure? && Numbered(t, o)
    modifies Nodes(t)`value
    ensures r == Outcome(ReadLeaves(t.field, o, Cover(t.field, o, mask.Bits()), old(Contents(t)), 0, Size(t.field), big, s))
    ensures r.Parsed? ==>
      Contents(t) == ReadLeaves(t.field, o, Cover(t.field, o, mask.Bits()), old(Contents(t)), 0, Size(t.field), big, s).value
    ensures r.Malformed? ==> Broken(t.field, o, Cover(t.field, o, mask.Bits()), old(Contents(t)), big, s, Contents(t))
    decreases t, 1
  {
    hide Shaped, Nodes, NodesAll, SizeAll, Size, NodeAt, Distinct, Contents, AllLeaves, SectionOf, WellFormed, ReadLeaves, Received, Broken,
         Cover, Numbered, BitSet.Bits;
    ghost var f, dst, m := t.field, Contents(t), mask.Bits();
    ghost var c := Cover(f, o, m);
    Top(t);
    NodesAllocated(t);
    NumberedTop(t, o);
    var offset := t.node.fieldOffset;
    var numberFields := t.node.nextFieldOffset - offset;
    var next := mask.NextSetBit(offset);
    if next < 0 || next >= offset + numberFields {
      NoneCovered(f, o, m);
      NothingSent(f, o, c, dst, 0, Size(f), big, s);
      assert dst[0..Size(f)] == dst;
      return Parsed((), s);
    }
    if offset == next {
      AllCovered(f, o, m);
      r := DeserializeTree(t, big, s, o, c);
      return;
    }
    var rest := s;
    ghost var ms := f.members;
    ghost var p := 1;
    ReceivedStart(f, o, c, dst, big, s);
    for i := 0 to |t.children|
      invariant p == 1 + SizeAll(ms[..i]) <= Size(f)
      invariant Received(f, o, c, dst, big, s, p, Contents(t), rest)
    {
      ghost var q := 1 + SizeAll(ms[..i + 1]);
      MemberSection(t, o, c, i);
      NumberedChild(t, i, o);
      var pvField := t.children[i];
      NumberedTop(pvField, o + p);
      NodesAllocated(pvField);
      NodesAllocated(t);
      offset := pvField.node.fieldOffset;
      numberFields := pvField.node.nextFieldOffset - offset;
      next := mask.NextSetBit(offset);
      if next < 0 {
        RestNotCovered(f, o, m, i);
        ReceivedNothing(f, o, c, dst, big, s, p, Size(f), Contents(t), rest);
        ReceivedEnd(f, o, c, dst, big, s, Contents(t), rest);
        return Parsed((), rest);
      }
      if next >= offset + numberFields {
        MemberNotCovered(f, o, m, i);
        ReceivedNothing(f, o, c, dst, big, s, p, q, Contents(t), rest);
      } else {
        var child := ReceiveMember(t, i, big, rest, mask, o, p, dst, s);
        if child.Malformed? {
          return Malformed;
        }
        rest := child.rest;
      }
      p := q;
    }
    ReceivedEnd(f, o, c, dst, big, s, Contents(t), rest);
    return Parsed((), rest);
  }

  /** What the loop does with a subfield that has a selected bit. */
  method ReceiveMember(t: Tree, i: nat, big: bool, rest: Bytes, mask: BitSet, ghost o: nat, ghost p: nat, ghost dst: seq<Value>, ghost s: Bytes)
    returns (r: Parsed<()>)
    requires WellFormed(t) && |Nodes(t)| == Size(t.field) && t.field.Structure? && Numbered(t, o) && i < |t.children| == |t.field.members|
    requires o !in mask.Bits() && p == 1 + SizeAll(t.field.members[..i]) && |dst| == Size(t.field)
    requires Received(t.field, o, Cover(t.field, o, mask.Bits()), dst, big, s, p, Contents(t), rest)
    requires !Agree(mask.Bits(), {}, o + p, o + 1 + SizeAll(t.field.members[..i + 1]))
    modifies Nodes(t)`value
    ensures r.Malformed? ==> ReadLeaves(t.field, o, Cover(t.field, o, mask.Bits()), dst, 0, Size(t.field), big, s) == Malformed
    ensures r.Malformed? ==> Broken(t.field, o, Cover(t.field, o, mask.Bits()), dst, big, s, Contents(t))
    ensures r.Parsed? ==>
      Received(t.field, o, Cover(t.field, o, mask.Bits()), dst, big, s, 1 + SizeAll(t.field.members[..i + 1]), Contents(t), r.rest)
    decreases t, 0
  {
    hide Shaped, Nodes, NodesAll, SizeAll, Size, NodeAt, Distinct, Contents, AllLeaves, SectionOf, WellFormed, ReadLeaves, Received, Broken,
         Cover, Numbered, BitSet.Bits;
    ghost var f, m, ms := t.field, mask.Bits(), t.field.members;
    ghost var c, q, g := Cover(f, o, m), 1 + SizeAll(ms[..i + 1]), ms[i].field;
    MemberSection(t, o, c, i);
    MaskedMember(f, o, m, i);
    ReceivedMember(f, o, c, dst, big, s, p, q, Contents(t), rest);
    ReadLeavesSection(f, g, o, p, c, Cover(g, o + p, m), dst, 0, Size(g), big, rest);
    NumberedChild(t, i, o);
    NodesAllocated(t);
    ContentsAt(t);
    Section(t, i);
    ghost var before := Contents(t);
    var pvField := t.children[i];
    Top(pvField);
    NumberedTop(pvField, o + p);
    if pvField.node.nextFieldOffset - pvField.node.fieldOffset == 1 {
      AllCovered(g, o + p, m);
      r := DeserializeTree(pvField, big, rest, o + p, Cover(g, o + p, m));
    } else {
      r := DeserializeMasked(pvField, big, rest, mask, o + p);
    }
    SectionUpdated(t, i, before);
    if r.Malformed? { BrokenSection(f, g, o, p, c, Cover(g, o + p, m), dst, big, s, before, rest, Contents(pvField)); }
  }

  /** Sending an instance under a mask and receiving the bytes in another instance under the same
      mask gives exactly the covered leaves of that instance the values that were sent. */
  method SendAndReceive(from: Tree, dest: Tree, mask: BitSet, capacity: nat, big: bool) returns (ok: bool)
    requires WellFormed(from) && WellFormed(dest) && from.field == dest.field && from.field.Structure?
    requires Numbered(from, 0) && Numbered(dest, 0) && Disjoint(Nodes(dest), Nodes(from))
    requires |Nodes(from)| == |Nodes(dest)| == Size(from.field) && HasContents(from.field, Contents(from)) && capacity >= 9
    modifies Nodes(dest)`value
    ensures ok
    ensures Contents(dest) == Overlay(from.field, 0, Cover(from.field, 0, mask.Bits()), old(Contents(from)), old(Contents(dest)))
  {
    hide LeafBytes, ReadLeaves, Overlay, Cover, HasContents, Contents, Nodes;
    NodesAllocated(from);
    NodesAllocated(dest);
    ghost var f, c := from.field, Cover(from.field, 0, mask.Bits());
    var sink := new Serializer(capacity, big);
    SerializeMasked(from, sink, mask, 0);
    sink.FlushSerializeBuffer();
    var bytes := sink.out;
    assert bytes == sink.Emitted();
    SendDelivers(f, 0, c, Contents(from), Contents(dest), 0, big, []);
    assert LeafBytes(f, 0, c, Contents(from), 0, Size(f), big) + [] == bytes;
    ghost var goal := Overlay(f, 0, c, Contents(from), Contents(dest));
    assert goal[0..] == goal;
    var r := DeserializeMasked(dest, big, bytes, mask, 0);
    return r.Parsed?;
  }
}
