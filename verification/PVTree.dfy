/** Structure instances: a tree of mutable PVField objects.  The shape of the tree is fixed when
    an instance is built, so it is a datatype whose nodes refer to the objects; the offsets and
    the values of the leaves live in the objects and are updated in place. */
module PVTree {
  import opened Fields
  import opened Values

  class PVField {
    var parent: PVField?
    var name: string
    var fieldOffset: nat
    var nextFieldOffset: nat
    var value: Value

    /** A new field stands in no structure and is not numbered: its next offset is zero. */
    constructor (value: Value)
      ensures parent == null && name == "" && this.fieldOffset == 0 && nextFieldOffset == 0 && this.value == value
    {
      parent, name, fieldOffset, nextFieldOffset := null, "", 0, 0;
      this.value := value;
    }
  }

  datatype Tree = Tree(node: PVField, field: Field, children: seq<Tree>)

  /** The children correspond to the members of the type; only structures have children. */
  ghost predicate Shaped(t: Tree)
    decreases t, 0
  {
    if t.field.Structure? then ShapedAll(t.children, t.field.members) else t.children == []
  }

  ghost predicate ShapedAll(ts: seq<Tree>, ms: seq<Member>)
    decreases ts, 0
  {
    |ts| == |ms| &&
    (ts != [] ==> ts[0].field == ms[0].field && Shaped(ts[0]) && ShapedAll(ts[1..], ms[1..]))
  }

  /** All objects of an instance in preorder. */
  ghost function Nodes(t: Tree): seq<PVField>
    decreases t, 0
  {
    [t.node] + NodesAll(t.children)
  }

  ghost function NodesAll(ts: seq<Tree>): seq<PVField>
    decreases ts, 0
  {
    if ts == [] then [] else Nodes(ts[0]) + NodesAll(ts[1..])
  }

  ghost predicate Distinct(s: seq<PVField>) {
    forall i, j | 0 <= i < j < |s| :: s[i] != s[j]
  }

  ghost predicate Disjoint(s: seq<PVField>, r: seq<PVField>) {
    forall i, j | 0 <= i < |s| && 0 <= j < |r| :: s[i] != r[j]
  }

  /** A well-formed instance: shaped like its type, with an object of its own for every field. */
  ghost predicate WellFormed(t: Tree) {
    Shaped(t) && Distinct(Nodes(t))
  }

  lemma {:induction false} NodesSize(t: Tree)
    requires Shaped(t)
    ensures |Nodes(t)| == Size(t.field)
    decreases t, 0
  {
    if t.field.Structure? { NodesSizeAll(t.children, t.field.members); }
  }

  lemma {:induction false} NodesSizeAll(ts: seq<Tree>, ms: seq<Member>)
    requires ShapedAll(ts, ms)
    ensures |NodesAll(ts)| == SizeAll(ms)
    decreases ts, 0
  {
    if ts != [] {
      NodesSize(ts[0]);
      NodesSizeAll(ts[1..], ms[1..]);
    }
  }

  /** The instance below the field with offset `k`. */
  ghost function TreeAt(t: Tree, k: nat): Tree
    requires Shaped(t) && k < Size(t.field)
    decreases t, 0
  {
    if k == 0 then t else TreeIn(t.children, t.field.members, k - 1)
  }

  ghost function TreeIn(ts: seq<Tree>, ms: seq<Member>, k: nat): Tree
    requires ShapedAll(ts, ms) && k < SizeAll(ms)
    decreases ts, 0
  {
    var s := Size(ms[0].field);
    if k < s then TreeAt(ts[0], k) else TreeIn(ts[1..], ms[1..], k - s)
  }

  lemma {:induction false} TreeAtNode(t: Tree, k: nat)
    requires Shaped(t) && k < Size(t.field)
    ensures |Nodes(t)| == Size(t.field)
    ensures Shaped(TreeAt(t, k)) && TreeAt(t, k).field == NodeAt(t.field, k)
    ensures TreeAt(t, k).node == Nodes(t)[k]
    decreases t, 0
  {
    NodesSize(t);
    if k != 0 { TreeInNode(t.children, t.field.members, k - 1); }
  }

  lemma {:induction false} TreeInNode(ts: seq<Tree>, ms: seq<Member>, k: nat)
    requires ShapedAll(ts, ms) && k < SizeAll(ms)
    ensures |NodesAll(ts)| == SizeAll(ms)
    ensures Shaped(TreeIn(ts, ms, k)) && TreeIn(ts, ms, k).field == NodeIn(ms, k)
    ensures TreeIn(ts, ms, k).node == NodesAll(ts)[k]
    decreases ts, 0
  {
    NodesSizeAll(ts, ms);
    NodesSize(ts[0]);
    var s := Size(ms[0].field);
    if k < s { TreeAtNode(ts[0], k); } else { TreeInNode(ts[1..], ms[1..], k - s); }
  }

  // ----- numbering -----

  /** Every object below `t` holds its preorder number, counted from `o`, and the number one
      past its own subtree. */
  ghost predicate Numbered(t: Tree, o: nat)
    requires Shaped(t)
    reads Nodes(t)`fieldOffset, Nodes(t)`nextFieldOffset
  {
    NodesSize(t);
    forall k | 0 <= k < Size(t.field) :: Numbers(t, k, o)
  }

  /** The objects of child `i` are a section of the objects of the whole, and the numbering of
      the child continues the numbering of the whole. */
  lemma {:induction false} SectionIn(ts: seq<Tree>, ms: seq<Member>, i: nat)
    requires ShapedAll(ts, ms) && i < |ts|
    ensures |NodesAll(ts)| == SizeAll(ms) && Shaped(ts[i]) && ts[i].field == ms[i].field
    ensures |Nodes(ts[i])| == Size(ms[i].field)
    ensures SizeAll(ms[..i]) + Size(ms[i].field) == SizeAll(ms[..i + 1]) <= SizeAll(ms)
    ensures forall j | 0 <= j < Size(ms[i].field) :: NodesAll(ts)[SizeAll(ms[..i]) + j] == Nodes(ts[i])[j]
    decreases i
  {
    hide Shaped, Nodes, Size;
    NodesSizeAll(ts, ms);
    NodesSize(ts[0]);
    if i > 0 {
      SectionIn(ts[1..], ms[1..], i - 1);
      assert ms[..i][1..] == ms[1..][..i - 1];
      assert ms[..i + 1][1..] == ms[1..][..i];
    } else {
      assert ms[..0] == [] && ms[..1][1..] == [];
    }
  }

  lemma Section(t: Tree, i: nat)
    requires WellFormed(t) && t.field.Structure? && i < |t.children|
    ensures |Nodes(t)| == Size(t.field)
    ensures |t.children| == |t.field.members| && WellFormed(t.children[i])
    ensures var ms := t.field.members;
      var p := 1 + SizeAll(ms[..i]);
      && t.children[i].field == ms[i].field
      && p + Size(ms[i].field) == 1 + SizeAll(ms[..i + 1]) <= Size(t.field)
      && |Nodes(t.children[i])| == Size(ms[i].field)
      && (forall k | p <= k < p + Size(ms[i].field) :: Nodes(t)[k] == Nodes(t.children[i])[k - p])
      && Nodes(t.children[i]) == Nodes(t)[p..p + Size(ms[i].field)]
  {
    hide ShapedAll, Size, SizeAll, NodesAll;
    var ms := t.field.members;
    ShapedLength(t.children, ms);
    SectionIn(t.children, ms, i);
    NodesSize(t);
    SizeOfStructure(t.field);
    var p := 1 + SizeAll(ms[..i]);
    forall k | p <= k < p + Size(ms[i].field)
      ensures Nodes(t)[k] == Nodes(t.children[i])[k - p]
    {
      assert Nodes(t)[k] == NodesAll(t.children)[SizeAll(ms[..i]) + (k - p)];
    }
    assert Nodes(t.children[i]) == Nodes(t)[p..p + Size(ms[i].field)];
  }

  lemma SizeOfStructure(f: Field)
    requires f.Structure?
    ensures Size(f) == 1 + SizeAll(f.members)
  {}

  /** The objects of child `i` occur nowhere else in the instance. */
  lemma Apart(t: Tree, i: nat)
    requires WellFormed(t) && t.field.Structure? && i < |t.children|
    ensures |Nodes(t)| == Size(t.field) && |t.children| == |t.field.members|
    ensures var ms := t.field.members;
      && (forall k | 0 <= k < 1 + SizeAll(ms[..i]) && k < |Nodes(t)| :: Nodes(t)[k] !in Nodes(t.children[i]))
      && (forall k | 1 + SizeAll(ms[..i + 1]) <= k < |Nodes(t)| :: Nodes(t)[k] !in Nodes(t.children[i]))
      && (forall c | c in Nodes(t.children[i]) :: c in Nodes(t))
  {
    hide Nodes, Shaped, SizeAll, Size;
    Section(t, i);
  }

  lemma Top(t: Tree)
    requires WellFormed(t)
    ensures forall k | 0 < k < |Nodes(t)| :: Nodes(t)[k] != t.node
    ensures |Nodes(t)| == Size(t.field) && Nodes(t)[0] == t.node && NodeAt(t.field, 0) == t.field
    ensures !t.field.Structure? ==> Size(t.field) == 1
    ensures t.field.Structure? ==> |t.children| == |t.field.members|
    ensures t.field.Structure? ==>
      var ms := t.field.members; Size(t.field) == 1 + SizeAll(ms[..|ms|]) && SizeAll(ms[..0]) == 0
  {
    NodesSize(t);
    assert Nodes(t)[0] == t.node;
    if t.field.Structure? {
      ShapedLength(t.children, t.field.members);
      assert t.field.members[..|t.field.members|] == t.field.members;
    }
  }

  lemma ShapedLength(ts: seq<Tree>, ms: seq<Member>)
    requires ShapedAll(ts, ms)
    ensures |ts| == |ms|
  {}

  /** An instance refers to existing objects only. */
  lemma {:induction false} NodesAllocated(t: Tree)
    ensures forall k | 0 <= k < |Nodes(t)| :: allocated(Nodes(t)[k])
    decreases t, 0
  {
    NodesAllocatedAll(t.children);
  }

  lemma {:induction false} NodesAllocatedAll(ts: seq<Tree>)
    ensures forall k | 0 <= k < |NodesAll(ts)| :: allocated(NodesAll(ts)[k])
    decreases ts, 0
  {
    if ts != [] {
      NodesAllocated(ts[0]);
      NodesAllocatedAll(ts[1..]);
    }
  }

  lemma NumberedLeaf(t: Tree, o: nat)
    requires WellFormed(t) && !t.field.Structure?
    requires t.node.fieldOffset == o && t.node.nextFieldOffset == o + 1
    ensures Numbered(t, o)
  {
    Top(t);
  }

  lemma NumberedTop(t: Tree, o: nat)
    requires WellFormed(t) && Numbered(t, o)
    ensures t.node.fieldOffset == o && t.node.nextFieldOffset == o + Size(t.field)
  {
    Top(t);
    assert Numbers(t, 0, o);
  }

  ghost predicate Numbers(t: Tree, k: nat, o: nat)
    requires Shaped(t) && k < Size(t.field)
    reads Nodes(t)`fieldOffset, Nodes(t)`nextFieldOffset
  {
    NodesSize(t);
    Nodes(t)[k].fieldOffset == o + k && Nodes(t)[k].nextFieldOffset == o + Next(t.field, k)
  }

  /** When child `i` is numbered, so is its section of the whole. */
  lemma NumberedSection(t: Tree, i: nat, o: nat, k: nat)
    requires WellFormed(t) && t.field.Structure? && i < |t.children| == |t.field.members|
    requires var p := 1 + SizeAll(t.field.members[..i]);
      && p <= k < 1 + SizeAll(t.field.members[..i + 1])
      && Shaped(t.children[i]) && Numbered(t.children[i], o + p)
    ensures k < Size(t.field) && Numbers(t, k, o)
  {
    hide Nodes, Shaped, NodeAt, Size, SizeAll, Distinct;
    var p := 1 + SizeAll(t.field.members[..i]);
    Section(t, i);
    SectionTypes(t.field, i);
    assert Numbers(t.children[i], k - p, o + p);
    assert Next(t.field, k) == p + Next(t.children[i].field, k - p);
  }

  /** PVField::computeOffset for a structure whose own number is `offset`. */
  method ComputeOffset(t: Tree, offset: nat)
    requires WellFormed(t) && t.field.Structure?
    modifies Nodes(t)`fieldOffset, Nodes(t)`nextFieldOffset
    ensures Numbered(t, offset)
    decreases t, 0
  {
    hide Nodes, Shaped, NodeAt, Size, SizeAll, Distinct, Numbered;
    ghost var ms := t.field.members;
    Top(t);
    var beginOffset := offset;
    var nextOffset := offset + 1;
    for i := 0 to |t.children|
      invariant nextOffset == offset + 1 + SizeAll(ms[..i]) <= offset + Size(t.field)
      invariant forall k | 1 <= k < nextOffset - offset :: Numbers(t, k, offset)
    {
      ghost var p := 1 + SizeAll(ms[..i]);
      Section(t, i);
      Apart(t, i);
      Top(t.children[i]);
      NodesAllocated(t);
      var pvSubField := t.children[i];
      assert pvSubField.node in Nodes(pvSubField);
      label Before:
      nextOffset := ComputeSubOffset(pvSubField, nextOffset);
      forall k | 1 <= k < nextOffset - offset
        ensures Numbers(t, k, offset)
      {
        if k < p {
          assert Nodes(t)[k] !in Nodes(pvSubField) && old@Before(Numbers(t, k, offset));
        } else {
          NumberedSection(t, i, offset, k);
        }
      }
    }
    label Children:
    t.node.fieldOffset := beginOffset;
    t.node.nextFieldOffset := nextOffset;
    forall k | 0 <= k < Size(t.field)
      ensures Numbers(t, k, offset)
    {
      assert k > 0 ==> old@Children(Numbers(t, k, offset));
    }
    NumberedAll(t, offset);
  }

  /** What the loop does with one subfield. */
  method ComputeSubOffset(pvSubField: Tree, offset: nat) returns (nextOffset: nat)
    requires WellFormed(pvSubField)
    modifies Nodes(pvSubField)`fieldOffset, Nodes(pvSubField)`nextFieldOffset
    ensures Numbered(pvSubField, offset) && nextOffset == offset + Size(pvSubField.field)
    decreases pvSubField, 1
  {
    hide Shaped, NodeAt, Size, SizeAll, Distinct, Numbered;
    Top(pvSubField);
    nextOffset := offset;
    if pvSubField.field.Structure? {
      ComputeOffset(pvSubField, nextOffset);
      NumberedTop(pvSubField, offset);
      nextOffset := pvSubField.node.nextFieldOffset;
    } else {
      pvSubField.node.fieldOffset := nextOffset;
      nextOffset := nextOffset + 1;
      pvSubField.node.nextFieldOffset := nextOffset;
      NumberedLeaf(pvSubField, offset);
    }
  }

  lemma NumberedAll(t: Tree, o: nat)
    requires Shaped(t) && forall k | 0 <= k < Size(t.field) :: Numbers(t, k, o)
    ensures Numbered(t, o)
  {}
}
