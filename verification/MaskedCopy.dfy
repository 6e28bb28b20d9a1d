/** Copying one instance over another, completely or under a mask.  The copy goes on leaf by leaf until
    one of them is refused. */
module MaskedCopy {
  import opened Fields
  import opened Values
  import opened Limits
  import ValueCodec
  import opened BitSets
  import opened Compress
  import opened CompressLaws
  import opened PVTree
  import opened Lookup

  /** The values of all fields in preorder; the entries of structures are not used. */
  ghost function Contents(t: Tree): (s: seq<Value>)
    reads Nodes(t)
    ensures |s| == |Nodes(t)|
  {
    seq(|Nodes(t)|, k requires 0 <= k < |Nodes(t)| reads Nodes(t) => Nodes(t)[k].value)
  }

  lemma ContentsAt(t: Tree)
    ensures forall k | 0 <= k < |Nodes(t)| :: Contents(t)[k] == Nodes(t)[k].value
  {}

  /** `dst` with the entries of the leaves in `c` replaced by those of `src`. */
  function Overlay(f: Field, o: nat, c: set<nat>, src: seq<Value>, dst: seq<Value>): (s: seq<Value>)
    requires |src| == |dst| == Size(f)
    ensures |s| == Size(f)
  {
    seq(Size(f), k requires 0 <= k < Size(f) && |src| == |dst| == Size(f) =>
      if !NodeAt(f, k).Structure? && o + k in c then src[k] else dst[k])
  }

  // ----- refused leaves -----

  /** Leaf `k` is copied, but its value is refused. */
  ghost predicate Refused(f: Field, o: nat, c: set<nat>, src: seq<Value>, k: nat)
    requires |src| == Size(f) && k < Size(f)
  {
    !NodeAt(f, k).Structure? && o + k in c && !Fits(NodeAt(f, k), src[k])
  }

  /** No leaf before `n` is refused. */
  ghost predicate Free(f: Field, o: nat, c: set<nat>, src: seq<Value>, n: nat)
    requires |src| == Size(f)
  {
    forall k | 0 <= k < n && k < Size(f) :: !Refused(f, o, c, src, k)
  }

  /** Every leaf in `c` fits. */
  ghost predicate Accepted(f: Field, o: nat, c: set<nat>, src: seq<Value>)
    requires |src| == Size(f)
  {
    Free(f, o, c, src, Size(f))
  }

  /** `dst` after the copy: the leaves in `c` have been copied up to and including the first one that is
      refused. */
  ghost function Carried(f: Field, o: nat, c: set<nat>, src: seq<Value>, dst: seq<Value>): (s: seq<Value>)
    requires |src| == |dst| == Size(f)
    ensures |s| == Size(f)
  {
    seq(Size(f), k requires 0 <= k < Size(f) && |src| == |dst| == Size(f) =>
      if !NodeAt(f, k).Structure? && o + k in c && Free(f, o, c, src, k) then CopyValue(NodeAt(f, k), dst[k], src[k])
      else dst[k])
  }

  lemma CarriedAt(f: Field, o: nat, c: set<nat>, src: seq<Value>, dst: seq<Value>)
    requires |src| == |dst| == Size(f)
    ensures forall k | 0 <= k < Size(f) ::
      Carried(f, o, c, src, dst)[k] ==
        if !NodeAt(f, k).Structure? && o + k in c && Free(f, o, c, src, k) then CopyValue(NodeAt(f, k), dst[k], src[k])
        else dst[k]
  {}

  /** If nothing is refused, exactly the leaves in `c` have the values of the source. */
  lemma CarriedIsOverlay(f: Field, o: nat, c: set<nat>, src: seq<Value>, dst: seq<Value>)
    requires |src| == |dst| == Size(f) && Accepted(f, o, c, src)
    ensures Carried(f, o, c, src, dst) == Overlay(f, o, c, src, dst)
  {
    hide NodeAt, Fits, CopyValue, Size;
    forall k | 0 <= k < Size(f)
      ensures Carried(f, o, c, src, dst)[k] == Overlay(f, o, c, src, dst)[k]
    {
      assert !Refused(f, o, c, src, k);
      if !NodeAt(f, k).Structure? && o + k in c { FitsCopied(NodeAt(f, k), dst[k], src[k]); }
    }
  }

  /** The first leaf that is refused divides the copy: before it, the covered leaves have the values of the
      source, and behind it nothing has changed. */
  lemma CarriedUpTo(f: Field, o: nat, c: set<nat>, src: seq<Value>, dst: seq<Value>, k: nat, l: nat)
    requires |src| == |dst| == Size(f) && k < Size(f) && l < Size(f) && l != k
    requires !NodeAt(f, k).Structure? && o + k in c && !Fits(NodeAt(f, k), src[k])
    requires forall j | 0 <= j < k && !NodeAt(f, j).Structure? && o + j in c :: Fits(NodeAt(f, j), src[j])
    ensures Carried(f, o, c, src, dst)[l] == if l < k && !NodeAt(f, l).Structure? && o + l in c then src[l] else dst[l]
  {
    hide NodeAt, Fits, CopyValue, Size;
    assert Refused(f, o, c, src, k);
    if l < k && !NodeAt(f, l).Structure? && o + l in c {
      assert Free(f, o, c, src, l);
      FitsCopied(NodeAt(f, l), dst[l], src[l]);
    }
  }

  /** Behind a refused leaf nothing is copied. */
  lemma CarriedRest(f: Field, o: nat, c: set<nat>, src: seq<Value>, dst: seq<Value>, q: nat)
    requires |src| == |dst| == Size(f) && q <= Size(f) && !Free(f, o, c, src, q)
    ensures !Accepted(f, o, c, src) && Carried(f, o, c, src, dst)[q..] == dst[q..]
  {
    hide NodeAt, Refused, CopyValue, Size;
  }

  /** No union is selected alike on both sides by a selector of no member. */
  ghost predicate Parted(f: Field, src: seq<Value>, dst: seq<Value>) {
    |src| == |dst| == Size(f) &&
    forall k | 0 <= k < Size(f) && !NodeAt(f, k).Structure? :: !SameUnknown(NodeAt(f, k), dst[k], src[k])
  }

  lemma PartedSection(f: Field, src: seq<Value>, dst: seq<Value>, i: nat)
    requires f.Structure? && i < |f.members| && Parted(f, src, dst)
    ensures var p, q := 1 + SizeAll(f.members[..i]), 1 + SizeAll(f.members[..i + 1]);
      p <= q <= Size(f) && Parted(f.members[i].field, src[p..q], dst[p..q])
  {
    hide SizeAll, Size, NodeAt, SameUnknown;
    SectionTypes(f, i);
    var p, q, g := 1 + SizeAll(f.members[..i]), 1 + SizeAll(f.members[..i + 1]), f.members[i].field;
    forall k | 0 <= k < Size(g) && !NodeAt(g, k).Structure?
      ensures !SameUnknown(NodeAt(g, k), dst[p..q][k], src[p..q][k])
    {
      var l := p + k;
      assert NodeAt(f, l) == NodeAt(g, l - p);
    }
  }

  /** Two instances share all of their objects or none. */
  ghost predicate SameOrApart(dest: Tree, from: Tree) {
    dest == from || (dest.node != from.node && Disjoint(Nodes(dest), Nodes(from)))
  }

  lemma SameNode(dest: Tree, from: Tree)
    requires SameOrApart(dest, from)
    ensures dest.node == from.node <==> dest == from
  {}

  lemma ApartChildren(dest: Tree, from: Tree, i: nat)
    requires WellFormed(dest) && WellFormed(from) && dest.field == from.field && dest.field.Structure?
    requires SameOrApart(dest, from) && dest != from && i < |dest.field.members|
    ensures |dest.children| == |from.children| == |dest.field.members|
    ensures SameOrApart(dest.children[i], from.children[i])
    ensures dest.children[i].node != from.children[i].node
    ensures dest.children[i].field == from.children[i].field
    ensures Disjoint(Nodes(dest.children[i]), Nodes(from))
  {
    hide Shaped, Nodes, NodesAll, SizeAll, Size;
    Top(dest);
    Top(from);
    Section(dest, i);
    Section(from, i);
    Top(dest.children[i]);
    Top(from.children[i]);
    assert Nodes(dest.children[i])[0] != Nodes(from.children[i])[0];
  }

  lemma ContentsSection(t: Tree, i: nat)
    requires WellFormed(t) && t.field.Structure? && i < |t.children|
    ensures |Nodes(t)| == Size(t.field) && |t.children| == |t.field.members|
    ensures var ms := t.field.members;
      && t.children[i].field == ms[i].field
      && 1 + SizeAll(ms[..i]) + Size(ms[i].field) == 1 + SizeAll(ms[..i + 1]) <= Size(t.field)
      && Contents(t.children[i]) == Contents(t)[1 + SizeAll(ms[..i])..1 + SizeAll(ms[..i + 1])]
  {
    hide Shaped, Nodes, NodesAll, SizeAll, Size, Distinct;
    Section(t, i);
  }

  /** The part of the result that belongs to member `i` is the result for that member, if nothing before
      it is refused. */
  lemma CarriedSection(f: Field, o: nat, c: set<nat>, src: seq<Value>, dst: seq<Value>, i: nat, d: set<nat>)
    requires f.Structure? && i < |f.members| && |src| == |dst| == Size(f)
    requires var p, q := 1 + SizeAll(f.members[..i]), 1 + SizeAll(f.members[..i + 1]);
      Agree(c, d, o + p, o + q) && Free(f, o, c, src, p)
    ensures var p, q := 1 + SizeAll(f.members[..i]), 1 + SizeAll(f.members[..i + 1]);
      var g := f.members[i].field;
      && p <= q <= Size(f) && q - p == Size(g)
      && Carried(f, o, c, src, dst)[p..q] == Carried(g, o + p, d, src[p..q], dst[p..q])
      && (Free(f, o, c, src, q) <==> Accepted(g, o + p, d, src[p..q]))
  {
    hide SizeAll, Size, NodeAt, Fits, CopyValue, Refused, Free, Carried;
    SectionTypes(f, i);
    var p, q := 1 + SizeAll(f.members[..i]), 1 + SizeAll(f.members[..i + 1]);
    var g := f.members[i].field;
    FreeSection(f, o, c, src, p, q, g, d, Size(g));
    CarriedAt(f, o, c, src, dst);
    CarriedAt(g, o + p, d, src[p..q], dst[p..q]);
    forall k: nat | k < Size(g)
      ensures Carried(f, o, c, src, dst)[p..q][k] == Carried(g, o + p, d, src[p..q], dst[p..q])[k]
    {
      FreeSection(f, o, c, src, p, q, g, d, k);
      var l := p + k;
      assert o + l in c <==> o + l in d;
      assert NodeAt(f, l) == NodeAt(g, l - p);
    }
  }

  lemma FreeSection(f: Field, o: nat, c: set<nat>, src: seq<Value>, p: nat, q: nat, g: Field, d: set<nat>, n: nat)
    requires |src| == Size(f) && p + Size(g) == q <= Size(f) && Agree(c, d, o + p, o + q) && Free(f, o, c, src, p)
    requires forall k | p <= k < q :: NodeAt(f, k) == NodeAt(g, k - p)
    requires n <= Size(g)
    ensures Free(f, o, c, src, p + n) <==> Free(g, o + p, d, src[p..q], n)
  {
    hide Size, NodeAt, Fits;
    forall k | p <= k < q
      ensures Refused(f, o, c, src, k) <==> Refused(g, o + p, d, src[p..q], k - p)
    {
      assert o + k == o + p + (k - p);
    }
    var r, part := o + p, src[p..q];
    forall k | 0 <= k < Size(g)
      ensures Refused(g, r, d, part, k) <==> Refused(f, o, c, src, p + k)
    {
      var l := p + k;
      assert Refused(f, o, c, src, l) <==> Refused(g, o + p, d, src[p..q], l - p);
    }
  }

  /** The contents after a step that wrote to the objects of child `i` only. */
  lemma SectionUpdated(t: Tree, i: nat, before: seq<Value>)
    requires WellFormed(t) && t.field.Structure? && i < |t.children| && |before| == |Nodes(t)|
    requires forall k | 0 <= k < |before| && Nodes(t)[k] !in Nodes(t.children[i]) :: Nodes(t)[k].value == before[k]
    ensures |Nodes(t)| == Size(t.field) && |t.children| == |t.field.members|
    ensures var ms := t.field.members;
      && 1 + SizeAll(ms[..i]) <= 1 + SizeAll(ms[..i + 1]) <= Size(t.field)
      && Contents(t) == before[..1 + SizeAll(ms[..i])] + Contents(t.children[i]) + before[1 + SizeAll(ms[..i + 1])..]
  {
    hide Shaped, Nodes, NodesAll, SizeAll, Size, Distinct;
    Apart(t, i);
    ContentsSection(t, i);
  }

  /** The contents after a step that wrote to the objects of another instance. */
  lemma Untouched(t: Tree, written: Tree, before: seq<Value>)
    requires Disjoint(Nodes(written), Nodes(t)) && |before| == |Nodes(t)|
    requires forall k | 0 <= k < |before| && Nodes(t)[k] !in Nodes(written) :: Nodes(t)[k].value == before[k]
    ensures Contents(t) == before
  {
    forall k | 0 <= k < |Nodes(t)|
      ensures Nodes(t)[k].value == before[k]
    {
      assert Nodes(t)[k] !in Nodes(written);
    }
  }

  /** `s` has reached `goal` up to `p` and is still `start` from there on. */
  ghost predicate HalfDone(s: seq<Value>, goal: seq<Value>, start: seq<Value>, p: nat) {
    p <= |s| == |goal| == |start| && s[..p] == goal[..p] && s[p..] == start[p..]
  }

  lemma HalfRest(s: seq<Value>, goal: seq<Value>, start: seq<Value>, p: nat, q: nat)
    requires HalfDone(s, goal, start, p) && p <= q <= |s|
    ensures s[p..q] == start[p..q]
  {
    assert s[p..q] == s[p..][..q - p];
  }

  lemma HalfStep(s: seq<Value>, goal: seq<Value>, start: seq<Value>, p: nat, q: nat, r: seq<Value>)
    requires HalfDone(s, goal, start, p) && p <= q <= |s|
    requires r == s[..p] + goal[p..q] + s[q..]
    ensures HalfDone(r, goal, start, q)
  {
    assert r[..q] == goal[..p] + goal[p..q];
    assert s[q..] == s[p..][q - p..];
    assert r[q..] == s[q..];
  }

  /** One more member has been copied: nothing else has changed, so the copy has got one member further. */
  lemma MemberCopied(dest: Tree, from: Tree, i: nat, before: seq<Value>, goal: seq<Value>, src: seq<Value>, dst: seq<Value>)
    requires WellFormed(dest) && dest.field.Structure? && i < |dest.children| == |dest.field.members|
    requires Disjoint(Nodes(dest.children[i]), Nodes(from)) && |src| == |Nodes(from)| && |before| == |Nodes(dest)|
    requires forall k | 0 <= k < |before| && Nodes(dest)[k] !in Nodes(dest.children[i]) :: Nodes(dest)[k].value == before[k]
    requires forall k | 0 <= k < |src| && Nodes(from)[k] !in Nodes(dest.children[i]) :: Nodes(from)[k].value == src[k]
    requires 1 + SizeAll(dest.field.members[..i]) <= 1 + SizeAll(dest.field.members[..i + 1]) <= |goal|
    requires HalfDone(before, goal, dst, 1 + SizeAll(dest.field.members[..i]))
    requires Contents(dest.children[i]) == goal[1 + SizeAll(dest.field.members[..i])..1 + SizeAll(dest.field.members[..i + 1])]
    ensures Contents(from) == src
    ensures HalfDone(Contents(dest), goal, dst, 1 + SizeAll(dest.field.members[..i + 1]))
  {
    hide Shaped, Nodes, NodesAll, SizeAll, Size, Distinct, Disjoint, HalfDone, WellFormed;
    Untouched(from, dest.children[i], src);
    SectionUpdated(dest, i, before);
    HalfStep(before, goal, dst, 1 + SizeAll(dest.field.members[..i]), 1 + SizeAll(dest.field.members[..i + 1]), Contents(dest));
  }

  /** A leaf takes the value of another one, or refuses it. */
  method PutLeaf(dest: Tree, from: Tree) returns (ok: bool)
    requires WellFormed(dest) && WellFormed(from) && dest.field == from.field && !dest.field.Structure?
    requires dest.node != from.node && Parted(dest.field, Contents(from), Contents(dest))
    modifies Nodes(dest)`value
    ensures |Nodes(dest)| == |Nodes(from)| == Size(dest.field)
    ensures ok <==> Accepted(dest.field, 0, Span(0, Size(dest.field)), old(Contents(from)))
    ensures Contents(dest) == Carried(dest.field, 0, Span(0, Size(dest.field)), old(Contents(from)), old(Contents(dest)))
  {
    hide Shaped, Nodes, Distinct, Contents, Carried, Accepted, Span, Fits, CopyValue, Parted;
    Top(dest);
    Top(from);
    ContentsAt(from);
    ContentsAt(dest);
    ghost var src, dst := Contents(from), Contents(dest);
    assert dest.node in Nodes(dest);
    dest.node.value := CopyValue(dest.field, dest.node.value, from.node.value);
    ContentsAt(dest);
    LeafCarried(dest.field, src, dst, Contents(dest));
    return Fits(dest.field, from.node.value);
  }

  /** PVField::copyUnchecked and PVStructure::copyUnchecked: leaf after leaf is overwritten until one is
      refused.  A copy to itself looks at nothing. */
  method CopyUnchecked(dest: Tree, from: Tree) returns (ok: bool)
    requires WellFormed(dest) && WellFormed(from) && dest.field == from.field && SameOrApart(dest, from)
    requires dest == from || Parted(dest.field, Contents(from), Contents(dest))
    modifies Nodes(dest)`value
    ensures |Nodes(dest)| == |Nodes(from)| == Size(dest.field)
    ensures ok <==> dest == from || Accepted(dest.field, 0, Span(0, Size(dest.field)), old(Contents(from)))
    ensures Contents(dest) == if dest == from then old(Contents(dest))
      else Carried(dest.field, 0, Span(0, Size(dest.field)), old(Contents(from)), old(Contents(dest)))
    decreases dest
  {
    hide Shaped, Nodes, NodesAll, SizeAll, Size, NodeAt, Distinct, Disjoint, HalfDone, Contents, Carried, Free,
         Accepted, GotTo, SameOrApart, WellFormed, Span, Fits, CopyValue, Parted;
    ghost var f := dest.field;
    Top(dest);
    Top(from);
    SameNode(dest, from);
    if dest.node == from.node {
      return true;
    }
    ghost var src, dst := Contents(from), Contents(dest);
    if !dest.field.Structure? {
      ok := PutLeaf(dest, from);
      return;
    }
    ghost var ms, c := f.members, Span(0, Size(f));
    GotStarted(f, 0, c, src, dst);
    for i := 0 to |from.children|
      invariant 1 + SizeAll(ms[..i]) <= Size(f)
      invariant Contents(from) == src
      invariant GotTo(f, 0, c, src, dst, Contents(dest), 1 + SizeAll(ms[..i]))
    {
      PrepareWhole(dest, from, i, src, dst);
      Section(dest, i);
      NodesAllocated(dest);
      NodesAllocated(from);
      ContentsAt(dest);
      ContentsAt(from);
      ghost var before := Contents(dest);
      ok := CopyUnchecked(dest.children[i], from.children[i]);
      GotFurther(dest, from, i, 0, c, before, src, dst, ok);
      if !ok {
        return;
      }
    }
    GotAll(f, 0, c, src, dst, Contents(dest), 1 + SizeAll(ms[..|from.children|]));
    return true;
  }

  lemma LeafCarried(f: Field, src: seq<Value>, dst: seq<Value>, s: seq<Value>)
    requires !f.Structure? && |src| == |dst| == |s| == Size(f)
    requires s[0] == CopyValue(f, dst[0], src[0])
    ensures s == Carried(f, 0, Span(0, Size(f)), src, dst)
    ensures Accepted(f, 0, Span(0, Size(f)), src) <==> Fits(f, src[0])
  {
    hide Fits, CopyValue;
    assert NodeAt(f, 0) == f && 0 in Span(0, 1);
    assert Refused(f, 0, Span(0, Size(f)), src, 0) <==> !Fits(f, src[0]);
  }

  /** A structure itself is never refused. */
  lemma CarriedStart(f: Field, o: nat, c: set<nat>, src: seq<Value>, dst: seq<Value>)
    requires f.Structure? && |src| == |dst| == Size(f)
    ensures Carried(f, o, c, src, dst)[0] == dst[0] && Free(f, o, c, src, 1)
  {
    hide Size, CopyValue, Fits;
    assert Size(f) >= 1 && NodeAt(f, 0) == f;
  }

  /** Nothing changes any more from `q` on. */
  lemma HalfStop(s: seq<Value>, goal: seq<Value>, start: seq<Value>, q: nat)
    requires HalfDone(s, goal, start, q) && goal[q..] == start[q..]
    ensures s == goal
  {
    assert s == s[..q] + s[q..] && goal == goal[..q] + goal[q..];
  }

  lemma HalfStart(goal: seq<Value>, start: seq<Value>)
    requires 1 <= |goal| == |start| && goal[0] == start[0]
    ensures HalfDone(start, goal, start, 1)
  {}

  lemma HalfEnd(s: seq<Value>, goal: seq<Value>, start: seq<Value>)
    requires HalfDone(s, goal, start, |goal|)
    ensures s == goal
  {}

  /** Everything that has to be known before the copy of child `i`. */
  lemma Prepare(dest: Tree, from: Tree, i: nat, o: nat, c: set<nat>,
                goal: seq<Value>, src: seq<Value>, dst: seq<Value>)
    requires WellFormed(dest) && WellFormed(from) && dest.field == from.field && dest.field.Structure?
    requires SameOrApart(dest, from) && dest != from && i < |dest.field.members|
    requires |src| == |dst| == |goal| == Size(dest.field) && goal == Carried(dest.field, o, c, src, dst)
    requires |Nodes(from)| == Size(dest.field) && Contents(from) == src
    requires Free(dest.field, o, c, src, 1 + SizeAll(dest.field.members[..i]))
    requires HalfDone(Contents(dest), goal, dst, 1 + SizeAll(dest.field.members[..i])) && Parted(dest.field, src, dst)
    ensures |dest.children| == |from.children| == |dest.field.members|
    ensures var ms, a, b := dest.field.members, dest.children[i], from.children[i];
      var p, q := 1 + SizeAll(ms[..i]), 1 + SizeAll(ms[..i + 1]);
      && WellFormed(a) && WellFormed(b) && a.field == b.field == ms[i].field
      && SameOrApart(a, b) && a.node != b.node && Disjoint(Nodes(a), Nodes(from))
      && |Nodes(a)| == |Nodes(b)| == Size(ms[i].field) && p + Size(ms[i].field) == q <= Size(dest.field)
      && Contents(a) == dst[p..q] && Contents(b) == src[p..q] && Parted(ms[i].field, src[p..q], dst[p..q])
      && goal[p..q] == Carried(ms[i].field, o + p, c, src[p..q], dst[p..q])
      && (Free(dest.field, o, c, src, q) <==> Accepted(ms[i].field, o + p, c, src[p..q]))
  {
    hide Shaped, Nodes, NodesAll, SizeAll, Size, NodeAt, Distinct, Disjoint, HalfDone, Contents, Carried, Free, Accepted, Fits, Parted;
    var ms := dest.field.members;
    Top(dest);
    Top(from);
    Section(dest, i);
    Section(from, i);
    ApartChildren(dest, from, i);
    ContentsSection(dest, i);
    ContentsSection(from, i);
    HalfRest(Contents(dest), goal, dst, 1 + SizeAll(ms[..i]), 1 + SizeAll(ms[..i + 1]));
    CarriedSection(dest.field, o, c, src, dst, i, c);
    PartedSection(dest.field, src, dst, i);
  }

  /** When every offset is selected, the numbering does not matter. */
  lemma CarriedAll(f: Field, p: nat, c: set<nat>, src: seq<Value>, dst: seq<Value>)
    requires |src| == |dst| == Size(f) && forall k | 0 <= k < Size(f) && !NodeAt(f, k).Structure? :: p + k in c
    ensures Carried(f, p, c, src, dst) == Carried(f, 0, Span(0, Size(f)), src, dst)
    ensures Accepted(f, p, c, src) <==> Accepted(f, 0, Span(0, Size(f)), src)
  {
    CarriedAgree(f, p, c, 0, Span(0, Size(f)), src, dst);
  }

  /** Only which leaves are copied matters. */
  lemma CarriedAgree(f: Field, o: nat, c: set<nat>, p: nat, d: set<nat>, src: seq<Value>, dst: seq<Value>)
    requires |src| == |dst| == Size(f)
    requires forall k | 0 <= k < Size(f) && !NodeAt(f, k).Structure? :: o + k in c <==> p + k in d
    ensures Carried(f, o, c, src, dst) == Carried(f, p, d, src, dst)
    ensures Accepted(f, o, c, src) <==> Accepted(f, p, d, src)
  {
    hide Size, NodeAt, Fits, CopyValue;
    forall k | 0 <= k < Size(f)
      ensures Refused(f, o, c, src, k) <==> Refused(f, p, d, src, k)
    {
      if !NodeAt(f, k).Structure? { assert o + k in c <==> p + k in d; }
    }
    forall n: nat | n <= Size(f)
      ensures Free(f, o, c, src, n) <==> Free(f, p, d, src, n)
    {
    }
    forall k | 0 <= k < Size(f)
      ensures Carried(f, o, c, src, dst)[k] == Carried(f, p, d, src, dst)[k]
    {
      if !NodeAt(f, k).Structure? { assert o + k in c <==> p + k in d; }
    }
  }

  lemma PrepareWhole(dest: Tree, from: Tree, i: nat, src: seq<Value>, dst: seq<Value>)
    requires WellFormed(dest) && WellFormed(from) && dest.field == from.field && dest.field.Structure?
    requires SameOrApart(dest, from) && dest != from && i < |dest.field.members|
    requires |src| == |dst| == Size(dest.field)
    requires |Nodes(from)| == Size(dest.field) && Contents(from) == src
    requires GotTo(dest.field, 0, Span(0, Size(dest.field)), src, dst, Contents(dest), 1 + SizeAll(dest.field.members[..i]))
    requires Parted(dest.field, src, dst)
    ensures |dest.children| == |from.children| == |dest.field.members|
    ensures var ms, a, b := dest.field.members, dest.children[i], from.children[i];
      var p, q := 1 + SizeAll(ms[..i]), 1 + SizeAll(ms[..i + 1]);
      && WellFormed(a) && WellFormed(b) && a.field == b.field == ms[i].field
      && SameOrApart(a, b) && a.node != b.node && Disjoint(Nodes(a), Nodes(from))
      && |Nodes(a)| == |Nodes(b)| == Size(ms[i].field) && p + Size(ms[i].field) == q <= Size(dest.field)
      && q <= |Nodes(dest)| && Nodes(a) == Nodes(dest)[p..q] && Parted(ms[i].field, Contents(b), Contents(a))
      && Carried(dest.field, 0, Span(0, Size(dest.field)), src, dst)[p..q]
         == Carried(ms[i].field, 0, Span(0, Size(ms[i].field)), Contents(b), Contents(a))
      && (Free(dest.field, 0, Span(0, Size(dest.field)), src, q) <==>
          Accepted(ms[i].field, 0, Span(0, Size(ms[i].field)), Contents(b)))
  {
    hide Shaped, Nodes, NodesAll, SizeAll, Size, NodeAt, Distinct, Disjoint, HalfDone, Contents, Carried, Free, Accepted, WellFormed, Fits, Parted;
    var ms := dest.field.members;
    var p, q := 1 + SizeAll(ms[..i]), 1 + SizeAll(ms[..i + 1]);
    Prepare(dest, from, i, 0, Span(0, Size(dest.field)), Carried(dest.field, 0, Span(0, Size(dest.field)), src, dst), src, dst);
    Section(dest, i);
    CarriedAll(ms[i].field, p, Span(0, Size(dest.field)), src[p..q], dst[p..q]);
  }

  // ----- copying under a mask -----

  /** The bits of `chosen` in [lo, hi) are those set in `bits`, or in inverse mode those clear. */
  ghost predicate Chooses(chosen: set<nat>, bits: set<nat>, inverse: bool, lo: nat, hi: nat) {
    forall k | lo <= k < hi :: k in chosen <==> (k in bits) != inverse
  }

  /** What the leaves of member `i` see of the leaves that are covered. */
  lemma {:induction false} CoverSectionIn(ms: seq<Member>, o: nat, m: set<nat>, i: nat)
    requires i < |ms|
    ensures Agree(CoverAll(ms, o, m), Cover(ms[i].field, o + SizeAll(ms[..i]), m),
                  o + SizeAll(ms[..i]), o + SizeAll(ms[..i + 1]))
    decreases i
  {
    var s := Size(ms[0].field);
    Bounds(ms[0].field, o, m);
    BoundsAll(ms[1..], o + s, m);
    PrefixSize(ms, i);
    if i > 0 {
      CoverSectionIn(ms[1..], o + s, m, i - 1);
      assert ms[..i][1..] == ms[1..][..i - 1];
      assert ms[..i + 1][1..] == ms[1..][..i];
    } else {
      assert ms[..1][1..] == [];
    }
  }

  lemma CoverSection(f: Field, o: nat, m: set<nat>, i: nat)
    requires f.Structure? && i < |f.members| && o !in m
    ensures var p, q := 1 + SizeAll(f.members[..i]), 1 + SizeAll(f.members[..i + 1]);
      Agree(Cover(f, o, m), Cover(f.members[i].field, o + p, m), o + p, o + q)
  {
    CoverSectionIn(f.members, o + 1, m, i);
    PrefixSize(f.members, i);
    MemberStart(f.members, i);
  }

  /** Nothing is selected: nothing changes. */
  lemma CarriedNothing(f: Field, o: nat, m: set<nat>, src: seq<Value>, dst: seq<Value>)
    requires |src| == |dst| == Size(f) && Agree(m, {}, o, o + Size(f))
    ensures Carried(f, o, Cover(f, o, m), src, dst) == dst && Accepted(f, o, Cover(f, o, m), src)
  {
    hide Size, NodeAt, Fits, CopyValue;
    Local(f, o, m, {});
    EmptyCover(f, o);
  }

  /** The bit of the whole instance is set: every leaf is copied. */
  lemma CarriedWhole(f: Field, o: nat, m: set<nat>, src: seq<Value>, dst: seq<Value>)
    requires |src| == |dst| == Size(f) && o in m
    ensures Carried(f, o, Cover(f, o, m), src, dst) == Carried(f, 0, Span(0, Size(f)), src, dst)
    ensures Accepted(f, o, Cover(f, o, m), src) <==> Accepted(f, 0, Span(0, Size(f)), src)
  {
    hide Fits, CopyValue;
    forall k | 0 <= k < Size(f) && !NodeAt(f, k).Structure?
      ensures o + k in Cover(f, o, m)
    {
      LeavesByNode(f, o, o + k);
    }
    CarriedAll(f, o, Cover(f, o, m), src, dst);
  }

  /** The part of the goal that belongs to member `i`. */
  lemma MaskedSection(f: Field, o: nat, m: set<nat>, src: seq<Value>, dst: seq<Value>, i: nat)
    requires f.Structure? && i < |f.members| && o !in m && |src| == |dst| == Size(f)
    requires Free(f, o, Cover(f, o, m), src, 1 + SizeAll(f.members[..i]))
    ensures var p, q := 1 + SizeAll(f.members[..i]), 1 + SizeAll(f.members[..i + 1]);
      var g := f.members[i].field;
      && p <= q <= Size(f) && q - p == Size(g)
      && Carried(f, o, Cover(f, o, m), src, dst)[p..q]
         == Carried(g, o + p, Cover(g, o + p, m), src[p..q], dst[p..q])
      && (Free(f, o, Cover(f, o, m), src, q) <==> Accepted(g, o + p, Cover(g, o + p, m), src[p..q]))
  {
    hide SizeAll, Size, NodeAt, Carried, Free, Accepted, Cover, Fits;
    CoverSection(f, o, m, i);
    var p := 1 + SizeAll(f.members[..i]);
    CarriedSection(f, o, Cover(f, o, m), src, dst, i, Cover(f.members[i].field, o + p, m));
  }

  /** How far a masked copy has got: nothing has been refused yet. */
  ghost predicate GotTo(f: Field, o: nat, c: set<nat>, src: seq<Value>, dst: seq<Value>, s: seq<Value>, p: nat)
    requires |src| == |dst| == Size(f)
  {
    Free(f, o, c, src, p) && HalfDone(s, Carried(f, o, c, src, dst), dst, p)
  }

  /** Member `i` has no selected bit: the goal keeps its old contents. */
  lemma SkipMember(f: Field, o: nat, m: set<nat>, src: seq<Value>, dst: seq<Value>, s: seq<Value>, i: nat)
    requires f.Structure? && i < |f.members| && o !in m && |src| == |dst| == Size(f)
    requires var p, q := 1 + SizeAll(f.members[..i]), 1 + SizeAll(f.members[..i + 1]);
      Agree(m, {}, o + p, o + q) && GotTo(f, o, Cover(f, o, m), src, dst, s, p)
    ensures GotTo(f, o, Cover(f, o, m), src, dst, s, 1 + SizeAll(f.members[..i + 1]))
  {
    hide SizeAll, Size, Carried, Free, Accepted, Cover, Fits;
    var p, q := 1 + SizeAll(f.members[..i]), 1 + SizeAll(f.members[..i + 1]);
    var goal := Carried(f, o, Cover(f, o, m), src, dst);
    MaskedSection(f, o, m, src, dst, i);
    CarriedNothing(f.members[i].field, o + p, m, src[p..q], dst[p..q]);
    HalfSame(s, goal, dst, p, q);
  }

  lemma HalfSame(s: seq<Value>, goal: seq<Value>, start: seq<Value>, p: nat, q: nat)
    requires HalfDone(s, goal, start, p) && p <= q <= |s| && goal[p..q] == start[p..q]
    ensures HalfDone(s, goal, start, q)
  {
    HalfRest(s, goal, start, p, q);
    assert s == s[..p] + goal[p..q] + s[q..];
    HalfStep(s, goal, start, p, q, s);
  }

  /** No member from `i` on has a selected bit. */
  lemma {:induction false} SkipRest(f: Field, o: nat, m: set<nat>, src: seq<Value>, dst: seq<Value>, s: seq<Value>, i: nat)
    requires f.Structure? && i <= |f.members| && o !in m && |src| == |dst| == Size(f)
    requires Agree(m, {}, o + 1 + SizeAll(f.members[..i]), o + Size(f))
    requires GotTo(f, o, Cover(f, o, m), src, dst, s, 1 + SizeAll(f.members[..i]))
    ensures s == Carried(f, o, Cover(f, o, m), src, dst) && Accepted(f, o, Cover(f, o, m), src)
    decreases |f.members| - i
  {
    hide SizeAll, Size, Carried, Free, Cover, HalfDone, NodeAt, Fits;
    if i == |f.members| {
      Ends(f, o, m);
      HalfEnd(s, Carried(f, o, Cover(f, o, m), src, dst), dst);
    } else {
      SectionTypes(f, i);
      SkipMember(f, o, m, src, dst, s, i);
      SkipRest(f, o, m, src, dst, s, i + 1);
    }
  }

  /** PVStructure::copyUnchecked under a mask, for a subtree that is numbered from `o`. */
  method CopyMasked(dest: Tree, from: Tree, mask: BitSet, inverse: bool, ghost chosen: set<nat>, ghost o: nat) returns (ok: bool)
    requires WellFormed(dest) && WellFormed(from) && dest.field == from.field && SameOrApart(dest, from)
    requires dest.field.Structure? && Numbered(from, o)
    requires Chooses(chosen, mask.Bits(), inverse, o, o + Size(dest.field))
    requires dest == from || Parted(dest.field, Contents(from), Contents(dest))
    modifies Nodes(dest)`value
    ensures |Nodes(dest)| == |Nodes(from)| == Size(dest.field)
    ensures ok <==> dest == from || Accepted(dest.field, o, Cover(dest.field, o, chosen), old(Contents(from)))
    ensures Contents(dest) == if dest == from then old(Contents(dest))
      else Carried(dest.field, o, Cover(dest.field, o, chosen), old(Contents(from)), old(Contents(dest)))
    decreases dest, 2
  {
    hide Shaped, Nodes, NodesAll, SizeAll, Size, NodeAt, Distinct, Disjoint, HalfDone, Contents, Carried, Free, Accepted, GotTo, Cover,
         Numbered, SameOrApart, WellFormed, Fits, Span, Parted;
    ghost var f := dest.field;
    Top(dest);
    Top(from);
    ghost var src, dst := Contents(from), Contents(dest);
    NodesAllocated(dest);
    NodesAllocated(from);
    SameNode(dest, from);
    if dest.node == from.node {
      return true;
    }
    NumberedTop(from, o);
    var offset := from.node.fieldOffset;
    var numberFields := from.node.nextFieldOffset - offset;
    var next := NextChosen(mask, inverse, offset, chosen, o + Size(f));
    if next < 0 || next >= offset + numberFields {
      CarriedNothing(f, o, chosen, src, dst);
      return true;
    }
    if offset == next {
      CarriedWhole(f, o, chosen, src, dst);
      ok := CopyUnchecked(dest, from);
      return;
    }
    ghost var ms := f.members;
    ghost var c := Cover(f, o, chosen);
    GotStarted(f, o, c, src, dst);
    ghost var p := 1;
    for i := 0 to |from.children|
      invariant p == 1 + SizeAll(ms[..i]) <= Size(f)
      invariant Contents(from) == src
      invariant GotTo(f, o, c, src, dst, Contents(dest), p)
    {
      ghost var q := 1 + SizeAll(ms[..i + 1]);
      SectionTypes(f, i);
      var done: bool;
      ok, done := CopyMember(dest, from, i, mask, inverse, chosen, o, p, src, dst);
      if done {
        return;
      }
      NodesAllocated(dest);
      NodesAllocated(from);
      p := q;
    }
    GotAll(f, o, c, src, dst, Contents(dest), p);
    return true;
  }

  lemma GotStarted(f: Field, o: nat, c: set<nat>, src: seq<Value>, dst: seq<Value>)
    requires f.Structure? && |src| == |dst| == Size(f)
    ensures GotTo(f, o, c, src, dst, dst, 1)
  {
    hide Size, Carried, Free;
    CarriedStart(f, o, c, src, dst);
    assert Size(f) >= 1;
    HalfStart(Carried(f, o, c, src, dst), dst);
  }

  lemma GotAll(f: Field, o: nat, c: set<nat>, src: seq<Value>, dst: seq<Value>, s: seq<Value>, p: nat)
    requires |src| == |dst| == Size(f) == p && GotTo(f, o, c, src, dst, s, p)
    ensures s == Carried(f, o, c, src, dst) && Accepted(f, o, c, src)
  {
    hide Size, Carried, Free, HalfDone;
    HalfEnd(s, Carried(f, o, c, src, dst), dst);
  }

  /** What the loop does with subfield `i`; it is done when there is no selected bit any more, or when a
      leaf has been refused. */
  method CopyMember(dest: Tree, from: Tree, i: nat, mask: BitSet, inverse: bool, ghost chosen: set<nat>,
                    ghost o: nat, ghost p: nat, ghost src: seq<Value>, ghost dst: seq<Value>)
    returns (ok: bool, done: bool)
    requires WellFormed(dest) && WellFormed(from) && dest.field == from.field && SameOrApart(dest, from)
    requires dest != from && dest.field.Structure? && Numbered(from, o) && i < |dest.field.members|
    requires Chooses(chosen, mask.Bits(), inverse, o, o + Size(dest.field)) && o !in chosen
    requires |src| == |dst| == Size(dest.field) && Parted(dest.field, src, dst)
    requires |Nodes(from)| == Size(dest.field) && Contents(from) == src
    requires p == 1 + SizeAll(dest.field.members[..i])
    requires GotTo(dest.field, o, Cover(dest.field, o, chosen), src, dst, Contents(dest), p)
    modifies Nodes(dest)`value
    ensures Contents(from) == src
    ensures done ==> Contents(dest) == Carried(dest.field, o, Cover(dest.field, o, chosen), src, dst)
    ensures done ==> (ok <==> Accepted(dest.field, o, Cover(dest.field, o, chosen), src))
    ensures !done ==> GotTo(dest.field, o, Cover(dest.field, o, chosen), src, dst, Contents(dest), 1 + SizeAll(dest.field.members[..i + 1]))
    decreases dest, 1
  {
    hide Shaped, Nodes, NodesAll, SizeAll, Size, NodeAt, Distinct, Disjoint, HalfDone, Contents, Carried, Free, Accepted, GotTo, Cover,
         Numbered, SameOrApart, WellFormed, Fits, Parted;
    ghost var f := dest.field;
    PrepareMasked(dest, from, i, o, chosen, src, dst);
    var pvField := from.children[i];
    NumberedTop(pvField, o + p);
    var offset := pvField.node.fieldOffset;
    var numberFields := pvField.node.nextFieldOffset - offset;
    NodesAllocated(dest);
    NodesAllocated(from);
    var next := NextChosen(mask, inverse, offset, chosen, o + Size(f));
    if next < 0 {
      SkipRest(f, o, chosen, src, dst, Contents(dest), i);
      return true, true;
    }
    if next >= offset + numberFields {
      SkipMember(f, o, chosen, src, dst, Contents(dest), i);
      return true, false;
    }
    ok := CopySelected(dest, from, i, mask, inverse, chosen, o, p, src, dst);
    return ok, !ok;
  }

  /** A subfield that has a selected bit is copied completely if it has no subfields. */
  method CopySelected(dest: Tree, from: Tree, i: nat, mask: BitSet, inverse: bool, ghost chosen: set<nat>,
                    ghost o: nat, ghost p: nat, ghost src: seq<Value>, ghost dst: seq<Value>) returns (ok: bool)
    requires WellFormed(dest) && WellFormed(from) && dest.field == from.field && SameOrApart(dest, from)
    requires dest != from && dest.field.Structure? && Numbered(from, o) && i < |dest.field.members|
    requires Chooses(chosen, mask.Bits(), inverse, o, o + Size(dest.field)) && o !in chosen
    requires |src| == |dst| == Size(dest.field) && Parted(dest.field, src, dst)
    requires |Nodes(from)| == Size(dest.field) && Contents(from) == src
    requires p == 1 + SizeAll(dest.field.members[..i])
    requires GotTo(dest.field, o, Cover(dest.field, o, chosen), src, dst, Contents(dest), p)
    requires !Agree(chosen, {}, o + p, o + 1 + SizeAll(dest.field.members[..i + 1]))
    modifies Nodes(dest)`value
    ensures Contents(from) == src
    ensures ok ==> GotTo(dest.field, o, Cover(dest.field, o, chosen), src, dst, Contents(dest), 1 + SizeAll(dest.field.members[..i + 1]))
    ensures !ok ==> Contents(dest) == Carried(dest.field, o, Cover(dest.field, o, chosen), src, dst)
    ensures !ok ==> !Accepted(dest.field, o, Cover(dest.field, o, chosen), src)
    decreases dest, 0
  {
    hide Shaped, Nodes, NodesAll, SizeAll, Size, NodeAt, Distinct, Disjoint, HalfDone, Contents, Carried, Free, Accepted, GotTo, Cover,
         Numbered, Fits, WellFormed, SameOrApart, Span, Parted;
    ghost var ms := dest.field.members;
    ghost var before := Contents(dest);
    PrepareMasked(dest, from, i, o, chosen, src, dst);
    Section(dest, i);
    NodesAllocated(dest);
    NodesAllocated(from);
    ContentsAt(dest);
    ContentsAt(from);
    var pvField := from.children[i];
    NumberedTop(pvField, o + p);
    ghost var ca, cb := Contents(dest.children[i]), Contents(pvField);
    if pvField.node.nextFieldOffset - pvField.node.fieldOffset == 1 {
      CarriedWhole(ms[i].field, o + p, chosen, cb, ca);
      ok := CopyUnchecked(dest.children[i], pvField);
    } else {
      Top(pvField);
      ok := CopyMasked(dest.children[i], pvField, mask, inverse, chosen, o + p);
    }
    GotFurther(dest, from, i, o, Cover(dest.field, o, chosen), before, src, dst, ok);
  }

  /** Member `i` has been copied, completely or up to a leaf that was refused. */
  lemma GotFurther(dest: Tree, from: Tree, i: nat, o: nat, c: set<nat>, before: seq<Value>, src: seq<Value>, dst: seq<Value>, ok: bool)
    requires WellFormed(dest) && dest.field.Structure? && i < |dest.children| == |dest.field.members|
    requires Disjoint(Nodes(dest.children[i]), Nodes(from)) && |src| == |Nodes(from)| && |before| == |Nodes(dest)|
    requires forall k | 0 <= k < |before| && Nodes(dest)[k] !in Nodes(dest.children[i]) :: Nodes(dest)[k].value == before[k]
    requires forall k | 0 <= k < |src| && Nodes(from)[k] !in Nodes(dest.children[i]) :: Nodes(from)[k].value == src[k]
    requires |src| == |dst| == Size(dest.field)
    requires 1 + SizeAll(dest.field.members[..i]) <= 1 + SizeAll(dest.field.members[..i + 1]) <= Size(dest.field)
    requires GotTo(dest.field, o, c, src, dst, before, 1 + SizeAll(dest.field.members[..i]))
    requires Contents(dest.children[i])
      == Carried(dest.field, o, c, src, dst)[1 + SizeAll(dest.field.members[..i])..1 + SizeAll(dest.field.members[..i + 1])]
    requires ok <==> Free(dest.field, o, c, src, 1 + SizeAll(dest.field.members[..i + 1]))
    ensures Contents(from) == src
    ensures ok ==> GotTo(dest.field, o, c, src, dst, Contents(dest), 1 + SizeAll(dest.field.members[..i + 1]))
    ensures !ok ==> Contents(dest) == Carried(dest.field, o, c, src, dst) && !Accepted(dest.field, o, c, src)
  {
    hide Shaped, Nodes, NodesAll, SizeAll, Size, Distinct, Disjoint, HalfDone, WellFormed, Contents, Carried, Free, Accepted;
    var goal := Carried(dest.field, o, c, src, dst);
    var q := 1 + SizeAll(dest.field.members[..i + 1]);
    MemberCopied(dest, from, i, before, goal, src, dst);
    if !ok {
      CarriedRest(dest.field, o, c, src, dst, q);
      HalfStop(Contents(dest), goal, dst, q);
    }
  }

  /** Everything that has to be known before the copy of child `i` under a mask. */
  lemma PrepareMasked(dest: Tree, from: Tree, i: nat, o: nat, m: set<nat>, src: seq<Value>, dst: seq<Value>)
    requires WellFormed(dest) && WellFormed(from) && dest.field == from.field && dest.field.Structure?
    requires SameOrApart(dest, from) && dest != from && i < |dest.field.members| && o !in m
    requires |src| == |dst| == Size(dest.field)
    requires |Nodes(from)| == Size(dest.field) && Contents(from) == src && Numbered(from, o)
    requires GotTo(dest.field, o, Cover(dest.field, o, m), src, dst, Contents(dest), 1 + SizeAll(dest.field.members[..i]))
    requires Parted(dest.field, src, dst)
    ensures |dest.children| == |from.children| == |dest.field.members|
    ensures var ms, a, b := dest.field.members, dest.children[i], from.children[i];
      var p, q := 1 + SizeAll(ms[..i]), 1 + SizeAll(ms[..i + 1]);
      && WellFormed(a) && WellFormed(b) && a.field == b.field == ms[i].field
      && SameOrApart(a, b) && a.node != b.node && Disjoint(Nodes(a), Nodes(from))
      && |Nodes(a)| == |Nodes(b)| == Size(ms[i].field) && p + Size(ms[i].field) == q <= Size(dest.field)
      && Contents(a) == dst[p..q] && Contents(b) == src[p..q] && Numbered(b, o + p) && Parted(ms[i].field, Contents(b), Contents(a))
      && Carried(dest.field, o, Cover(dest.field, o, m), src, dst)[p..q]
         == Carried(ms[i].field, o + p, Cover(ms[i].field, o + p, m), Contents(b), Contents(a))
      && (Free(dest.field, o, Cover(dest.field, o, m), src, q) <==>
          Accepted(ms[i].field, o + p, Cover(ms[i].field, o + p, m), Contents(b)))
  {
    hide Shaped, Nodes, NodesAll, SizeAll, Size, NodeAt, Distinct, Disjoint, HalfDone, Contents, Carried, Free, Accepted, Cover, Numbered, Fits, Parted;
    var ms := dest.field.members;
    Prepare(dest, from, i, o, Cover(dest.field, o, m), Carried(dest.field, o, Cover(dest.field, o, m), src, dst), src, dst);
    MaskedSection(dest.field, o, m, src, dst, i);
    NumberedChild(from, i, o);
  }

  /** The first selected bit from `from` on: nextClearBit in inverse mode, nextSetBit otherwise. */
  method NextChosen(mask: BitSet, inverse: bool, from: nat, ghost chosen: set<nat>, ghost hi: nat) returns (next: int)
    requires Chooses(chosen, mask.Bits(), inverse, from, hi)
    ensures -1 <= next
    ensures 0 <= next < hi ==> from <= next && next in chosen
    ensures forall k | k in chosen && from <= k < hi :: 0 <= next <= k
  {
    if inverse {
      next := mask.NextClearBit(from);
    } else {
      next := mask.NextSetBit(from);
    }
  }

  /** PVStructure::copyUnchecked under a mask, for a whole instance.  It succeeds exactly if every leaf
      that is covered fits, and then exactly those leaves have the values of the source.  The inverse copy
      is the plain copy under the complemented mask. */
  method CopyUnderMask(dest: Tree, from: Tree, mask: BitSet, inverse: bool) returns (ok: bool)
    requires WellFormed(dest) && WellFormed(from) && dest.field == from.field && SameOrApart(dest, from)
    requires dest.field.Structure? && Numbered(from, 0)
    requires dest == from || Parted(dest.field, Contents(from), Contents(dest))
    modifies Nodes(dest)`value
    ensures |Nodes(dest)| == |Nodes(from)| == Size(dest.field)
    ensures var c := Cover(dest.field, 0, if inverse then Span(0, Size(dest.field)) - mask.Bits() else mask.Bits());
      && (ok <==> dest == from || Accepted(dest.field, 0, c, old(Contents(from))))
      && (ok ==> Contents(dest) == Overlay(dest.field, 0, c, old(Contents(from)), old(Contents(dest))))
      && (!ok ==> Contents(dest) == Carried(dest.field, 0, c, old(Contents(from)), old(Contents(dest))))
  {
    hide Nodes, Contents, Carried, Accepted, Cover, Overlay, WellFormed, Span, Size, Parted;
    ghost var bits, f := mask.Bits(), dest.field;
    ghost var chosen := if inverse then Span(0, Size(f)) - bits else bits;
    ghost var src, dst, c := Contents(from), Contents(dest), Cover(f, 0, chosen);
    Chosen(bits, inverse, Size(f));
    Top(dest);
    Top(from);
    OverlaySelf(f, 0, c, dst);
    ok := CopyMasked(dest, from, mask, inverse, chosen, 0);
    if ok && dest != from { CarriedIsOverlay(f, 0, c, src, dst); }
  }

  lemma Chosen(bits: set<nat>, inverse: bool, n: nat)
    ensures Chooses(if inverse then Span(0, n) - bits else bits, bits, inverse, 0, n)
  {}

  lemma OverlaySelf(f: Field, o: nat, c: set<nat>, s: seq<Value>)
    requires |s| == Size(f)
    ensures Overlay(f, o, c, s, s) == s
  {}

  /** Which leaves a copy is refused at: those that the mask stands for and that do not fit. */
  lemma AcceptedIff(f: Field, m: set<nat>, src: seq<Value>)
    requires |src| == Size(f)
    ensures Accepted(f, 0, Cover(f, 0, m), src) <==>
      forall l | 0 <= l < Size(f) && !NodeAt(f, l).Structure? && StandsFor(f, m, l) :: Fits(NodeAt(f, l), src[l])
  {
    hide Size, NodeAt, Fits, StandsFor, Cover;
    forall l: nat | l < Size(f)
      ensures l in Cover(f, 0, m) <==> StandsFor(f, m, l)
      ensures Refused(f, 0, Cover(f, 0, m), src, l) <==> !NodeAt(f, l).Structure? && StandsFor(f, m, l) && !Fits(NodeAt(f, l), src[l])
    {
      CoverIffStandsFor(f, m, l);
    }
  }

  /** A structure with a fixed array that has just been created cannot be copied. */
  lemma NewInstanceRefused(id: string, name: string, t: ScalarType, n: nat, top: Value)
    requires n > 0
    ensures var f := Structure(id, [Member(name, FixedScalarArray(t, n))]);
      Size(f) == 2 && !Accepted(f, 0, Cover(f, 0, {0}), [top, ValueCodec.Default(FixedScalarArray(t, n))])
  {
    var g := FixedScalarArray(t, n);
    var ms := [Member(name, g)];
    var f := Structure(id, ms);
    assert ms[1..] == [] && SizeAll(ms) == 1 + SizeAll([]);
    assert NodeAt(f, 1) == NodeIn(ms, 0) == g;
    assert Within(f, 0, 1);
    NewFixedArray(t, n);
    AcceptedIff(f, {0}, [top, ValueCodec.Default(g)]);
  }

  /** A union that was left with a selector of no member cannot be copied. */
  lemma UnknownSelectorRefused(id: string, name: string, uid: string, ms: seq<Member>, k: nat, v: Value, top: Value)
    requires k >= |ms|
    ensures var f := Structure(id, [Member(name, Union(uid, ms))]);
      Size(f) == 2 && !Accepted(f, 0, Cover(f, 0, {0}), [top, Selected(k, v)])
  {
    var g := Union(uid, ms);
    var members := [Member(name, g)];
    var f := Structure(id, members);
    assert members[1..] == [] && SizeAll(members) == 1 + SizeAll([]);
    assert NodeAt(f, 1) == NodeIn(members, 0) == g;
    assert Within(f, 0, 1);
    AcceptedIff(f, {0}, [top, Selected(k, v)]);
  }

  // ----- what a masked copy does to each field -----

  /** Exactly the leaves change that the mask stands for. */
  lemma CopiedIffStandsFor(f: Field, m: set<nat>, src: seq<Value>, dst: seq<Value>, l: nat)
    requires |src| == |dst| == Size(f) && l < Size(f) && !NodeAt(f, l).Structure?
    ensures Overlay(f, 0, Cover(f, 0, m), src, dst)[l] == if StandsFor(f, m, l) then src[l] else dst[l]
  {
    CoverIffStandsFor(f, m, l);
  }

  /** A compressed mask copies the same fields. */
  lemma CompressedCopy(f: Field, m: set<nat>, src: seq<Value>, dst: seq<Value>)
    requires |src| == |dst| == Size(f)
    ensures Overlay(f, 0, Cover(f, 0, Canon(f, 0, m)), src, dst) == Overlay(f, 0, Cover(f, 0, m), src, dst)
  {
    CompressKeepsCover(f, 0, m);
  }

  /** An inverse copy spares a leaf only if its own bit and the bits of all structures around
      it are set. */
  lemma InverseSparesLeaf(f: Field, m: set<nat>, l: nat)
    requires l < Size(f) && Size(NodeAt(f, l)) == 1
    ensures l !in Cover(f, 0, Span(0, Size(f)) - m) <==>
            forall a | 0 <= a <= l && Within(f, a, l) :: a in m
  {
    CoverIffStandsFor(f, Span(0, Size(f)) - m, l);
    if StandsFor(f, Span(0, Size(f)) - m, l) {
      var a :| a in Span(0, Size(f)) - m && a < Size(f) && Within(f, a, l);
    }
  }

  /** The plain copy and the inverse copy split the leaves between them exactly when no leaf
      both lies under a set bit and under a clear one. */
  lemma InverseIsComplement(f: Field, m: set<nat>)
    ensures Cover(f, 0, Span(0, Size(f)) - m) == Leaves(f, 0) - Cover(f, 0, m) <==>
            forall l | 0 <= l < Size(f) && Size(NodeAt(f, l)) == 1 :: !Mixed(f, m, l)
  {
    var inverse := Span(0, Size(f)) - m;
    forall l: nat | l < Size(f)
      ensures l in Cover(f, 0, m) <==> StandsFor(f, m, l)
      ensures l in Cover(f, 0, inverse) <==> StandsFor(f, inverse, l)
      ensures l in Leaves(f, 0) <==> Size(NodeAt(f, l)) == 1
      ensures Size(NodeAt(f, l)) == 1 ==> StandsFor(f, m, l) || StandsFor(f, inverse, l)
      ensures Mixed(f, m, l) && Size(NodeAt(f, l)) == 1 <==> StandsFor(f, m, l) && StandsFor(f, inverse, l)
    {
      CoverIffStandsFor(f, m, l);
      CoverIffStandsFor(f, inverse, l);
      LeavesByNode(f, 0, l);
      assert Size(NodeAt(f, l)) == 1 ==> Within(f, l, l);
    }
    Bounds(f, 0, m);
    Bounds(f, 0, inverse);
  }

  /** Leaf `l` lies under a set bit and under a clear one (its own bit counts). */
  ghost predicate Mixed(f: Field, m: set<nat>, l: nat)
    requires l < Size(f)
  {
    (exists a | 0 <= a <= l && a in m :: Within(f, a, l)) && (exists a | 0 <= a <= l && a !in m :: Within(f, a, l))
  }

  /** The smallest case in which it fails: the bit of a leaf is set and that of the structure around it
      is clear, and both copies copy the leaf. */
  lemma BothCopyLeaf(id: string, name: string, t: ScalarType)
    ensures var f := Structure(id, [Member(name, Scalar(t))]);
      && Size(f) == 2
      && 1 in Cover(f, 0, {1}) && 1 in Cover(f, 0, Span(0, Size(f)) - {1})
  {
    var ms := [Member(name, Scalar(t))];
    var f := Structure(id, ms);
    assert ms[1..] == [] && SizeAll(ms) == 1 + SizeAll([]);
    assert NodeAt(f, 1) == NodeIn(ms, 0) == Scalar(t);
    assert Within(f, 0, 1) && Within(f, 1, 1) && 0 in Span(0, Size(f)) - {1};
    CoverIffStandsFor(f, {1}, 1);
    CoverIffStandsFor(f, Span(0, Size(f)) - {1}, 1);
  }
}
