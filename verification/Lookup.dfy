/** Finding a field of an instance by its offset or by its dotted name. */
module Lookup {
  import opened Fields
  import opened Names
  import opened PVTree
  import opened Parents

  // ----- offsets on demand -----

  ghost predicate Fresh(t: Tree)
    reads Nodes(t)`nextFieldOffset
  {
    forall k | 0 <= k < |Nodes(t)| :: Nodes(t)[k].nextFieldOffset == 0
  }

  /** PVField::computeOffset from any node: the whole instance is numbered from the top, which is
      found by following the parents. */
  method NumberFromTop(top: Tree, node: PVField, ghost k: nat)
    requires WellFormed(top) && Hangs(top) && top.node.parent == null
    requires k < |Nodes(top)| && node == Nodes(top)[k]
    modifies Nodes(top)`fieldOffset, Nodes(top)`nextFieldOffset
    ensures Numbered(top, 0)
  {
    var pvTop := FindTop(top, node, k);
    if top.field.Structure? {
      ComputeOffset(top, 0);
    } else {
      Top(top);
      assert pvTop in Nodes(top);
      pvTop.fieldOffset := 0;
      pvTop.nextFieldOffset := 1;
      NumberedLeaf(top, 0);
    }
  }

  /** The lazy getters, for the field `k` of an instance: whichever field is asked first, every
      field has its preorder number afterwards. */
  method GetOffsets(top: Tree, node: PVField, ghost k: nat) returns (offset: nat, next: nat)
    requires WellFormed(top) && Hangs(top) && top.node.parent == null
    requires k < |Nodes(top)| && node == Nodes(top)[k]
    requires Fresh(top) || Numbered(top, 0)
    modifies Nodes(top)`fieldOffset, Nodes(top)`nextFieldOffset
    ensures Numbered(top, 0)
    ensures k < Size(top.field) && offset == k && next == Next(top.field, k)
  {
    Top(top);
    if Numbered(top, 0) { assert Numbers(top, k, 0); }
    if node.nextFieldOffset == 0 {
      NumberFromTop(top, node, k);
    }
    assert Numbers(top, k, 0);
    return node.fieldOffset, node.nextFieldOffset;
  }

  // ----- by offset -----

  lemma NumberedChild(t: Tree, i: nat, o: nat)
    requires WellFormed(t) && t.field.Structure? && i < |t.children| == |t.field.members|
    requires Numbered(t, o)
    ensures Shaped(t.children[i]) && Numbered(t.children[i], o + 1 + SizeAll(t.field.members[..i]))
  {
    hide Nodes, Shaped, NodeAt, Size, SizeAll, Distinct;
    var p := 1 + SizeAll(t.field.members[..i]);
    Section(t, i);
    SectionTypes(t.field, i);
    var q := o + p;
    forall j | 0 <= j < Size(t.children[i].field)
      ensures Numbers(t.children[i], j, q)
    {
      assert Numbers(t, p + j, o);
      assert Nodes(t)[p + j] == Nodes(t.children[i])[j];
      assert Next(t.field, p + j) == p + Next(t.children[i].field, j);
    }
  }

  lemma {:induction false} TreeInSection(ts: seq<Tree>, ms: seq<Member>, i: nat, j: nat)
    requires ShapedAll(ts, ms) && i < |ts| && j < Size(ms[i].field)
    ensures SizeAll(ms[..i]) + j < SizeAll(ms) && Shaped(ts[i]) && ts[i].field == ms[i].field
    ensures TreeIn(ts, ms, SizeAll(ms[..i]) + j) == TreeAt(ts[i], j)
    decreases i
  {
    if i > 0 {
      TreeInSection(ts[1..], ms[1..], i - 1, j);
      assert ms[..i][1..] == ms[1..][..i - 1];
    } else {
      assert ms[..0] == [];
    }
  }

  /** PVStructure::getSubField by offset.  It finds the unique field with that number among the
      proper subfields, and nothing for any other number. */
  method GetSubFieldByOffset(t: Tree, fieldOffset: nat, ghost o: nat) returns (r: Option<Tree>)
    requires WellFormed(t) && t.field.Structure? && Numbered(t, o)
    ensures r == if o < fieldOffset < o + Size(t.field) then Some(TreeAt(t, fieldOffset - o)) else None
  {
    hide Nodes, Shaped, NodeAt, Size, SizeAll, Distinct, Numbered, TreeAt;
    var current := t;
    ghost var c: nat := o;
    while true
      invariant WellFormed(current) && current.field.Structure? && Numbered(current, c)
      invariant (o < fieldOffset < o + Size(t.field)) <==> (c < fieldOffset < c + Size(current.field))
      invariant o < fieldOffset < o + Size(t.field) ==>
        TreeAt(t, fieldOffset - o) == TreeAt(current, fieldOffset - c)
      decreases current
    {
      Top(current);
      NumberedTop(current, c);
      // self lookup is not permitted
      if fieldOffset <= current.node.fieldOffset || fieldOffset >= current.node.nextFieldOffset {
        return None;
      }
      ghost var ms := current.field.members;
      var i, descend := 0, false;
      while i < |current.children|
        invariant 0 <= i <= |current.children| && !descend && Numbered(current, c)
        invariant c + 1 + SizeAll(ms[..i]) <= fieldOffset
        decreases |current.children| - i
      {
        ghost var p := 1 + SizeAll(ms[..i]);
        Section(current, i);
        NumberedChild(current, i, c);
        NumberedTop(current.children[i], c + p);
        Top(current.children[i]);
        var pvField := current.children[i];
        if pvField.node.fieldOffset == fieldOffset {
          SubTree(current, i, 0);
          TreeAtZero(pvField);
          return Some(pvField);
        } else if pvField.node.nextFieldOffset <= fieldOffset {
          i := i + 1;
        } else if pvField.field.Structure? {
          SubTree(current, i, fieldOffset - (c + p));
          descend := true;
          break;
        } else {
          i := i + 1;
        }
      }
      // the range test above makes the search succeed, so the error after it is never raised
      assert descend;
      Section(current, i);
      NumberedChild(current, i, c);
      c := c + 1 + SizeAll(ms[..i]);
      current := current.children[i];
    }
  }

  lemma TreeAtZero(t: Tree)
    requires Shaped(t)
    ensures Size(t.field) >= 1 && TreeAt(t, 0) == t
  {}

  lemma SubTree(t: Tree, i: nat, j: nat)
    requires WellFormed(t) && t.field.Structure? && i < |t.children| == |t.field.members|
    requires j < Size(t.field.members[i].field)
    ensures 1 + SizeAll(t.field.members[..i]) + j < Size(t.field) && Shaped(t.children[i])
    ensures t.children[i].field == t.field.members[i].field
    ensures TreeAt(t, 1 + SizeAll(t.field.members[..i]) + j) == TreeAt(t.children[i], j)
  {
    TreeInSection(t.children, t.field.members, i, j);
  }

  // ----- by name -----

  lemma {:induction false} ValidMember(ms: seq<Member>, i: nat)
    requires ValidNamesAll(ms) && i < |ms|
    ensures ValidName(ms[i].name) && ValidNames(ms[i].field)
    decreases i
  {
    if i > 0 { ValidMember(ms[1..], i - 1); }
  }

  /** One level of a lookup: the child with the wanted name, or none. */
  method FindChild(parent: Tree, name: string) returns (found: bool, i: nat)
    requires WellFormed(parent) && parent.field.Structure?
    ensures |parent.children| == |parent.field.members|
    ensures found ==> i < |parent.children| && parent.field.members[i].name == name
    ensures found ==> forall j | 0 <= j < i :: parent.field.members[j].name != name
    ensures !found ==> forall j | 0 <= j < |parent.field.members| :: parent.field.members[j].name != name
  {
    Top(parent);
    i := 0;
    while i < |parent.children|
      invariant forall j | 0 <= j < i && j < |parent.field.members| :: parent.field.members[j].name != name
    {
      if parent.field.members[i].name == name {
        return true, i;
      }
      i := i + 1;
    }
    return false, 0;
  }

  /** The end of the first name: a dot, a space or the end of the string. */
  method Separator(name: string) returns (sep: nat)
    ensures sep <= |name| && '.' !in name[..sep] && ' ' !in name[..sep]
    ensures sep < |name| ==> name[sep] == '.' || name[sep] == ' '
  {
    sep := 0;
    while sep < |name| && name[sep] != '.' && name[sep] != ' '
      invariant sep <= |name| && '.' !in name[..sep] && ' ' !in name[..sep]
    {
      sep := sep + 1;
    }
  }

  /** PVStructure::getSubField by dotted name. */
  method GetSubFieldByName(t: Tree, name: string) returns (r: Option<Tree>)
    requires WellFormed(t) && t.field.Structure? && ValidNames(t.field)
    ensures match LookupName(t.field, name)
      case None => r == None
      case Some(k) => k < Size(t.field) && r == Some(TreeAt(t, k))
  {
    hide Nodes, NodesAll, Distinct, Size, SizeAll, TreeAt, Find, Split, Shaped;
    var parent, rest := t, name;
    ghost var c: nat := 0;
    TreeAtZero(t);
    FindOffsets(t.field, 0, Split(name));
    while true
      invariant WellFormed(parent) && parent.field.Structure? && ValidNames(parent.field)
      invariant ' ' in name <==> ' ' in rest
      invariant c < Size(t.field) && parent == TreeAt(t, c)
      invariant FoundFrom(Find(t.field, Split(name)), c, Find(parent.field, Split(rest)))
      decreases parent
    {
      var sep := Separator(rest);
      if sep < |rest| && rest[sep] == ' ' {
        assert rest[sep] in rest;
        return None;
      }
      SplitAt(rest, sep);
      FindStep(parent.field, Split(rest));
      ghost var ms := parent.field.members;
      if sep == 0 {
        forall j | 0 <= j < |ms| ensures ms[j].name != "" {
          ValidMember(ms, j);
        }
        FindInNone(ms, Split(rest));
        return None;
      }
      var found, i := FindChild(parent, rest[..sep]);
      if !found {
        FindInNone(ms, Split(rest));
        return None;
      }
      FindInAt(ms, i, Split(rest));
      ValidMember(ms, i);
      Section(parent, i);
      var child := parent.children[i];
      ghost var p := 1 + SizeAll(ms[..i]);
      FindOffsets(child.field, 0, Split(rest)[1..]);
      Top(child);
      SubTree(parent, i, 0);
      TreeAtZero(child);
      TreeAtCompose(t, c, p);
      if sep < |rest| {
        if !child.field.Structure? {
          FindStep(child.field, Split(rest)[1..]);
          return None;
        }
        SpaceAfter(rest, sep);
        parent := child;
        rest := rest[sep + 1..];
        c := c + p;
      } else {
        assert rest[..sep] == rest;
        FindEmpty(child.field);
        return Some(child);
      }
    }
  }

  /** A search from the top and a search from the field with offset `c` agree. */
  ghost predicate FoundFrom(whole: Option<nat>, c: nat, part: Option<nat>) {
    whole == match part case None => None case Some(k) => Some(c + k)
  }

  lemma FindOffsets(f: Field, c: nat, p: Path)
    ensures FoundFrom(Find(f, p), 0, Find(f, p))
    ensures Find(f, p).Some? ==> Find(f, p).value < Size(f)
  {
    PathFindOpt(f, p);
  }

  lemma FindEmpty(f: Field)
    ensures Find(f, []) == Some(0)
  {}

  lemma FindStep(f: Field, p: Path)
    requires p != []
    ensures !f.Structure? ==> Find(f, p) == None
    ensures f.Structure? ==> FoundFrom(Find(f, p), 1, FindIn(f.members, p))
  {}

  lemma CutAt(s: string, sep: nat)
    requires sep < |s|
    ensures s == s[..sep] + [s[sep]] + s[sep + 1..]
  {}

  lemma SplitAt(s: string, sep: nat)
    requires sep <= |s| && '.' !in s[..sep] && (sep < |s| ==> s[sep] == '.')
    ensures Split(s)[0] == s[..sep]
    ensures Split(s)[1..] == if sep < |s| then Split(s[sep + 1..]) else []
  {
    hide Split;
    if sep < |s| {
      CutAt(s, sep);
      SplitStep(s[..sep], s[sep + 1..]);
    } else {
      assert s[..sep] == s;
      SplitStep(s, "");
    }
  }

  lemma SpaceAfter(s: string, sep: nat)
    requires sep < |s| && ' ' !in s[..sep] && s[sep] == '.'
    ensures ' ' in s <==> ' ' in s[sep + 1..]
  {
    assert s == s[..sep] + [s[sep]] + s[sep + 1..];
  }

  lemma {:induction false} TreeInCompose(ts: seq<Tree>, ms: seq<Member>, c: nat, j: nat)
    requires ShapedAll(ts, ms) && c < SizeAll(ms)
    requires Shaped(TreeIn(ts, ms, c)) && j < Size(TreeIn(ts, ms, c).field)
    ensures c + j < SizeAll(ms) && TreeIn(ts, ms, c + j) == TreeAt(TreeIn(ts, ms, c), j)
    decreases ts, 0
  {
    TreeInNode(ts, ms, c);
    SubtreeIn(ms, c, j);
    var s := Size(ms[0].field);
    if c < s {
      TreeAtNode(ts[0], c);
      Subtree(ms[0].field, c, j);
      TreeAtCompose(ts[0], c, j);
    } else {
      TreeInCompose(ts[1..], ms[1..], c - s, j);
    }
  }

  lemma {:induction false} TreeAtCompose(t: Tree, c: nat, j: nat)
    requires Shaped(t) && c < Size(t.field)
    requires Shaped(TreeAt(t, c)) && j < Size(TreeAt(t, c).field)
    ensures c + j < Size(t.field) && TreeAt(t, c + j) == TreeAt(TreeAt(t, c), j)
    decreases t, 0
  {
    if c > 0 { TreeInCompose(t.children, t.field.members, c - 1, j); }
  }
}
