/** The way up: every field of an instance but the top knows the structure it stands in and the
    name it has there. */
module Parents {
  import opened Fields
  import opened Names
  import opened PVTree

  // ----- on types -----

  /** The offset of the field around field `k`. */
  function Up(f: Field, k: nat): (u: nat)
    requires 0 < k < Size(f)
    ensures u < k
    decreases f, 0
  {
    UpIn(f.members, k - 1)
  }

  /** Counted from the structure itself, which has the offset zero. */
  function UpIn(ms: seq<Member>, k: nat): (u: nat)
    requires k < SizeAll(ms)
    ensures u <= k
    decreases ms, 0
  {
    var s := Size(ms[0].field);
    if k == 0 then 0
    else if k < s then 1 + Up(ms[0].field, k)
    else
      var u := UpIn(ms[1..], k - s);
      if u == 0 then 0 else s + u
  }

  /** Below member `i` the way up stays below it, until it is reached itself. */
  lemma {:induction false} UpInMember(ms: seq<Member>, i: nat, j: nat)
    requires i < |ms| && j < Size(ms[i].field)
    ensures SizeAll(ms[..i]) + j < SizeAll(ms)
    ensures UpIn(ms, SizeAll(ms[..i]) + j) == if j == 0 then 0 else SizeAll(ms[..i]) + 1 + Up(ms[i].field, j)
    ensures PathIn(ms, SizeAll(ms[..i]) + j) == [ms[i].name] + PathAt(ms[i].field, j)
    decreases i
  {
    hide PathAt, Up;
    if i > 0 {
      UpInMember(ms[1..], i - 1, j);
      assert ms[..i][1..] == ms[1..][..i - 1];
    } else {
      assert ms[..0] == [];
    }
  }

  // ----- on instances -----

  /** The field with offset `k` points to the field around it and has the last name of its path. */
  ghost predicate HangsAt(t: Tree, k: nat)
    requires Shaped(t) && 0 < k < Size(t.field)
    reads Nodes(t)`parent, Nodes(t)`name
  {
    NodesSize(t);
    && Nodes(t)[k].parent == Nodes(t)[Up(t.field, k)]
    && PathAt(t.field, k) == PathAt(t.field, Up(t.field, k)) + [Nodes(t)[k].name]
  }

  ghost predicate Hangs(t: Tree)
    requires Shaped(t)
    reads Nodes(t)`parent, Nodes(t)`name
  {
    forall k | 0 < k < Size(t.field) :: HangsAt(t, k)
  }

  lemma UpIsAround(t: Tree, k: nat)
    requires Shaped(t) && Hangs(t) && 0 < k < Size(t.field)
    ensures |Nodes(t)| == Size(t.field)
    ensures Nodes(t)[k].parent == Nodes(t)[Up(t.field, k)]
    ensures PathAt(t.field, k) == PathAt(t.field, Up(t.field, k)) + [Nodes(t)[k].name]
  {
    NodesSize(t);
    assert HangsAt(t, k);
  }

  /** What the constructor of a structure does with its subfields: the whole instance hangs together
      if every subfield does. */
  method SetParents(t: Tree)
    requires WellFormed(t) && t.field.Structure? && |t.children| == |t.field.members|
    requires forall i | 0 <= i < |t.children| :: Shaped(t.children[i]) && Hangs(t.children[i])
    modifies Nodes(t)`parent, Nodes(t)`name
    ensures Hangs(t)
    ensures t.node.parent == old(t.node.parent) && t.node.name == old(t.node.name)
  {
    hide Nodes, Shaped, HangsAt, Size, SizeAll;
    var ms := t.field.members;
    Top(t);
    var i := 0;
    while i < |t.children|
      invariant 0 <= i <= |t.children|
      invariant forall k | 0 < k < 1 + SizeAll(ms[..i]) && k < Size(t.field) :: HangsAt(t, k)
      invariant forall m | i <= m < |t.children| :: Shaped(t.children[m]) && Hangs(t.children[m])
      invariant t.node.parent == old(t.node.parent) && t.node.name == old(t.node.name)
    {
      SetParent(t, i);
      i := i + 1;
    }
  }

  lemma MemberUp(t: Tree, i: nat, j: nat)
    requires t.field.Structure? && i < |t.field.members| && j < Size(t.field.members[i].field)
    ensures var p := 1 + SizeAll(t.field.members[..i]);
      && p + j < Size(t.field) && PathAt(t.field, 0) == [] == PathAt(t.field.members[i].field, 0)
      && Up(t.field, p + j) == (if j == 0 then 0 else p + Up(t.field.members[i].field, j))
      && PathAt(t.field, p + j) == [t.field.members[i].name] + PathAt(t.field.members[i].field, j)
  {
    UpInMember(t.field.members, i, j);
  }

  lemma StillHangs(t: Tree, i: nat, m: nat)
    requires WellFormed(t) && t.field.Structure? && i < m < |t.children|
    ensures t.children[i].node !in Nodes(t.children[m])
  {
    hide Nodes, Shaped, Size, SizeAll;
    Section(t, i);
    Section(t, m);
    Top(t.children[i]);
    SizesBefore(t.field.members, i, m);
    var p, q := 1 + SizeAll(t.field.members[..i]), 1 + SizeAll(t.field.members[..m]);
    assert t.children[i].node == Nodes(t)[p];
  }

  lemma {:induction false} SizesBefore(ms: seq<Member>, i: nat, m: nat)
    requires i < m <= |ms|
    ensures SizeAll(ms[..i]) < SizeAll(ms[..m])
    decreases i
  {
    hide Size;
    assert ms[..m][1..] == ms[1..][..m - 1];
    if i > 0 {
      SizesBefore(ms[1..], i - 1, m - 1);
      assert ms[..i][1..] == ms[1..][..i - 1];
    }
  }

  method SetParent(t: Tree, i: nat)
    requires WellFormed(t) && t.field.Structure? && i < |t.children| == |t.field.members|
    requires forall k | 0 < k < 1 + SizeAll(t.field.members[..i]) && k < Size(t.field) :: HangsAt(t, k)
    requires forall m | i <= m < |t.children| :: Shaped(t.children[m]) && Hangs(t.children[m])
    modifies Nodes(t)`parent, Nodes(t)`name
    ensures forall k | 0 < k < 1 + SizeAll(t.field.members[..i + 1]) && k < Size(t.field) :: HangsAt(t, k)
    ensures forall m | i < m < |t.children| :: Hangs(t.children[m])
    ensures t.node.parent == old(t.node.parent) && t.node.name == old(t.node.name)
  {
    hide Nodes, Shaped, Size, SizeAll, PathAt, Distinct;
    var ms := t.field.members;
    ghost var p := 1 + SizeAll(ms[..i]);
    Section(t, i);
    Apart(t, i);
    Top(t);
    Top(t.children[i]);
    var c := t.children[i].node;
    assert c == Nodes(t)[p];
    c.parent := t.node;
    c.name := ms[i].name;
    forall k | 0 < k < 1 + SizeAll(ms[..i + 1]) && k < Size(t.field)
      ensures HangsAt(t, k)
    {
      if k < p {
        assert old(HangsAt(t, k)) && Nodes(t)[k] != c;
      } else {
        var j := k - p;
        MemberUp(t, i, j);
        assert Nodes(t)[k] == Nodes(t.children[i])[j];
        if j > 0 {
          var u := Up(ms[i].field, j);
          var v := p + u;
          assert Nodes(t)[v] == Nodes(t.children[i])[u];
          assert old(HangsAt(t.children[i], j));
          assert Nodes(t)[k] != c;
          assert Nodes(t)[k].parent == Nodes(t)[v];
          assert PathAt(ms[i].field, j) == PathAt(ms[i].field, u) + [Nodes(t)[k].name];
          MemberUp(t, i, u);
          assert Up(t.field, k) == v;
          assert PathAt(t.field, k) == PathAt(t.field, v) + [Nodes(t)[k].name];
        } else {
          assert Up(t.field, k) == 0;
          assert PathAt(t.field, k) == [] + [Nodes(t)[k].name];

        }
      }
    }
    forall m | i < m < |t.children|
      ensures Hangs(t.children[m])
    {
      StillHangs(t, i, m);
      forall k | 0 < k < Size(t.children[m].field)
        ensures HangsAt(t.children[m], k)
      {
        assert old(HangsAt(t.children[m], k));
      }
    }
  }

  /** The loop up to the top in PVField::computeOffset, from any field. */
  method FindTop(ghost top: Tree, node: PVField, ghost k: nat) returns (r: PVField)
    requires WellFormed(top) && Hangs(top) && top.node.parent == null
    requires k < |Nodes(top)| && node == Nodes(top)[k]
    ensures r == top.node
  {
    NodesSize(top);
    r := node;
    ghost var j: nat := k;
    while r.parent != null
      invariant j < |Nodes(top)| && r == Nodes(top)[j] && Hangs(top)
      decreases j
    {
      UpIsAround(top, j);
      r := r.parent;
      j := Up(top.field, j);
    }
    if j > 0 { UpIsAround(top, j); }
  }

  lemma NameGiven(t: Tree, k: nat)
    requires Shaped(t) && Hangs(t) && ValidNames(t.field) && 0 < k < Size(t.field)
    ensures |Nodes(t)| == Size(t.field) && Nodes(t)[k].name != ""
  {
    UpIsAround(t, k);
    PathNames(t.field, k);
    var p := PathAt(t.field, k);
    assert p[|p| - 1] == Nodes(t)[k].name;
    ValidNameChars(p[|p| - 1]);
  }

  /** PVField::getFullName: the names on the way up, until there is no field or no name. */
  method GetFullName(ghost top: Tree, node: PVField, ghost k: nat) returns (r: string)
    requires WellFormed(top) && Hangs(top) && top.node.parent == null && top.node.name == "" && ValidNames(top.field)
    requires k < |Nodes(top)| && node == Nodes(top)[k]
    ensures k < Size(top.field) && r == if k == 0 then "" else FullName(top.field, k)
  {
    Top(top);
    r := node.name;
    var fld := node.parent;
    if k > 0 { UpIsAround(top, k); }
    ghost var j: nat := if k == 0 then 0 else Up(top.field, k);
    ghost var rest := [node.name];
    while fld != null
      invariant Hangs(top) && top.node.name == ""
      invariant k == 0 ==> fld == null && r == ""
      invariant k > 0 ==> j < Size(top.field) && fld == Nodes(top)[j]
      invariant k > 0 ==> rest != [] && r == Join(rest) && PathAt(top.field, k) == PathAt(top.field, j) + rest
      decreases j
    {
      if j > 0 { NameGiven(top, j); }
      if fld.name == "" {
        assert PathAt(top.field, 0) + rest == rest;
        break;
      }
      UpIsAround(top, j);
      JoinMore(fld.name, rest);
      r := fld.name + "." + r;
      rest := [fld.name] + rest;
      fld := fld.parent;
      j := Up(top.field, j);
    }
  }
}
