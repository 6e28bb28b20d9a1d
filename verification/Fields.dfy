/** Introspection types and the preorder numbering of their fields.

    A structure instance has one PVField for every node that is reachable through
    structures only; arrays of structures and unions are leaves of that tree.  The nodes are
    numbered 0, 1, 2, ... in preorder, and bit masks range over these numbers. */
module Fields {

  datatype Option<+T> = None | Some(value: T)

  datatype ScalarType =
    | PvBoolean | PvByte | PvShort | PvInt | PvLong
    | PvUByte | PvUShort | PvUInt | PvULong
    | PvFloat | PvDouble | PvString

  datatype Member = Member(name: string, field: Field)

  /** A union without members is the variant union. */
  datatype Field =
    | Scalar(scalarType: ScalarType)
    | BoundedString(maxLength: nat)
    | ScalarArray(elementType: ScalarType)
    | BoundedScalarArray(elementType: ScalarType, bound: nat)
    | FixedScalarArray(elementType: ScalarType, length: nat)
    | Structure(id: string, members: seq<Member>)
    | StructureArray(element: Field)
    | Union(id: string, members: seq<Member>)
    | UnionArray(element: Field)

  type Path = seq<string>

  // ----- sizes -----

  /** Number of fields of an instance of `f`, itself included. */
  function Size(f: Field): (n: nat)
    ensures n >= 1
    decreases f, 0
  {
    1 + if f.Structure? then SizeAll(f.members) else 0
  }

  function SizeAll(ms: seq<Member>): nat
    decreases ms, 0
  {
    if ms == [] then 0 else Size(ms[0].field) + SizeAll(ms[1..])
  }

  // ----- the node with a given offset -----

  function NodeAt(f: Field, k: nat): Field
    requires k < Size(f)
    decreases f, 0
  {
    if k == 0 then f else NodeIn(f.members, k - 1)
  }

  function NodeIn(ms: seq<Member>, k: nat): Field
    requires k < SizeAll(ms)
    decreases ms, 0
  {
    var s := Size(ms[0].field);
    if k < s then NodeAt(ms[0].field, k) else NodeIn(ms[1..], k - s)
  }

  /** One past the last offset of the subtree of field `k`. */
  function Next(f: Field, k: nat): nat
    requires k < Size(f)
  {
    k + Size(NodeAt(f, k))
  }

  /** `a` is `b` or encloses it. */
  predicate Within(f: Field, a: nat, b: nat)
    requires a < Size(f)
  {
    a <= b < Next(f, a)
  }

  // ----- names -----

  /** The names that lead from the top to field `k`. */
  function PathAt(f: Field, k: nat): Path
    requires k < Size(f)
    decreases f, 0
  {
    if k == 0 then [] else PathIn(f.members, k - 1)
  }

  function PathIn(ms: seq<Member>, k: nat): Path
    requires k < SizeAll(ms)
    decreases ms, 0
  {
    var s := Size(ms[0].field);
    if k < s then [ms[0].name] + PathAt(ms[0].field, k) else PathIn(ms[1..], k - s)
  }

  /** Lookup by name: the first member with the name is taken at each level. */
  function Find(f: Field, p: Path): Option<nat>
    decreases f, 0
  {
    if p == [] then Some(0)
    else if !f.Structure? then None
    else match FindIn(f.members, p)
      case None => None
      case Some(k) => Some(1 + k)
  }

  function FindIn(ms: seq<Member>, p: Path): Option<nat>
    requires p != []
    decreases ms, 0
  {
    if ms == [] then None
    else if ms[0].name == p[0] then Find(ms[0].field, p[1..])
    else match FindIn(ms[1..], p)
      case None => None
      case Some(k) => Some(Size(ms[0].field) + k)
  }

  function MemberNames(ms: seq<Member>): set<string> {
    set m | m in ms :: m.name
  }

  /** No two members of one structure share a name; the Structure constructor enforces this. */
  predicate WellNamed(f: Field)
    decreases f, 0
  {
    f.Structure? ==> WellNamedAll(f.members)
  }

  predicate WellNamedAll(ms: seq<Member>)
    decreases ms, 0
  {
    ms == [] ||
    (WellNamed(ms[0].field) && ms[0].name !in MemberNames(ms[1..]) && WellNamedAll(ms[1..]))
  }

  // ----- laws -----

  lemma {:induction false} NodeSizeIn(ms: seq<Member>, k: nat)
    requires k < SizeAll(ms)
    ensures k + Size(NodeIn(ms, k)) <= SizeAll(ms)
    decreases ms, 0
  {
    var s := Size(ms[0].field);
    if k < s { NextBound(ms[0].field, k); } else { NodeSizeIn(ms[1..], k - s); }
  }

  lemma {:induction false} NextBound(f: Field, k: nat)
    requires k < Size(f)
    ensures k < Next(f, k) <= Size(f)
    decreases f, 0
  {
    if k != 0 { NodeSizeIn(f.members, k - 1); }
  }

  /** Numbering composes: offset `j` inside the subtree of `k` is offset `k + j` of the whole,
      and its path extends the path of `k`. */
  lemma {:induction false} SubtreeIn(ms: seq<Member>, k: nat, j: nat)
    requires k < SizeAll(ms) && j < Size(NodeIn(ms, k))
    ensures k + j < SizeAll(ms)
    ensures NodeIn(ms, k + j) == NodeAt(NodeIn(ms, k), j)
    ensures PathIn(ms, k + j) == PathIn(ms, k) + PathAt(NodeIn(ms, k), j)
    decreases ms, 0
  {
    NodeSizeIn(ms, k);
    var s := Size(ms[0].field);
    if k < s {
      NextBound(ms[0].field, k);
      Subtree(ms[0].field, k, j);
    } else {
      SubtreeIn(ms[1..], k - s, j);
    }
  }

  lemma {:induction false} Subtree(f: Field, k: nat, j: nat)
    requires k < Size(f) && j < Size(NodeAt(f, k))
    ensures k + j < Size(f)
    ensures NodeAt(f, k + j) == NodeAt(NodeAt(f, k), j)
    ensures PathAt(f, k + j) == PathAt(f, k) + PathAt(NodeAt(f, k), j)
    decreases f, 0
  {
    if k == 0 {
    } else {
      SubtreeIn(f.members, k - 1, j);
    }
  }

  /** Looking up the full name of field `k` finds field `k`. */
  lemma {:induction false} FindPathIn(ms: seq<Member>, k: nat)
    requires WellNamedAll(ms) && k < SizeAll(ms)
    ensures PathIn(ms, k) != [] && PathIn(ms, k)[0] in MemberNames(ms)
    ensures FindIn(ms, PathIn(ms, k)) == Some(k)
    decreases ms, 0
  {
    var s := Size(ms[0].field);
    if k < s {
      FindPath(ms[0].field, k);
      assert PathIn(ms, k)[1..] == PathAt(ms[0].field, k);
      assert ms[0] in ms;
    } else {
      FindPathIn(ms[1..], k - s);
    }
  }

  lemma {:induction false} FindPath(f: Field, k: nat)
    requires WellNamed(f) && k < Size(f)
    ensures Find(f, PathAt(f, k)) == Some(k)
    decreases f, 0
  {
    if k != 0 { FindPathIn(f.members, k - 1); }
  }

  /** A lookup that succeeds returns a field with the name that was asked for. */
  lemma {:induction false} PathFindIn(ms: seq<Member>, p: Path)
    requires p != [] && FindIn(ms, p).Some?
    ensures FindIn(ms, p).value < SizeAll(ms) && PathIn(ms, FindIn(ms, p).value) == p
    decreases ms, 0
  {
    if ms[0].name == p[0] {
      PathFind(ms[0].field, p[1..]);
    } else {
      PathFindIn(ms[1..], p);
    }
  }

  lemma {:induction false} PathFind(f: Field, p: Path)
    requires Find(f, p).Some?
    ensures Find(f, p).value < Size(f) && PathAt(f, Find(f, p).value) == p
    decreases f, 0
  {
    if p != [] { PathFindIn(f.members, p); }
  }

  /** Two fields with the same full name are the same field. */
  lemma PathInjective(f: Field, a: nat, b: nat)
    requires WellNamed(f) && a < Size(f) && b < Size(f)
    requires PathAt(f, a) == PathAt(f, b)
    ensures a == b
  {
    FindPath(f, a);
    FindPath(f, b);
  }

  /** Subtrees are exactly the fields whose names extend the name of the root of the subtree. */
  lemma {:induction false} WithinIffPrefix(f: Field, a: nat, b: nat)
    requires WellNamed(f) && a < Size(f) && b < Size(f)
    ensures Within(f, a, b) <==> PathAt(f, a) <= PathAt(f, b)
  {
    if Within(f, a, b) {
      Subtree(f, a, b - a);
    }
    if PathAt(f, a) <= PathAt(f, b) {
      var q := PathAt(f, b)[|PathAt(f, a)|..];
      assert PathAt(f, b) == PathAt(f, a) + q;
      FindPath(f, b);
      FindSplit(f, a, q);
      PathFindOpt(NodeAt(f, a), q);
    }
  }

  /** Looking up a name that extends the name of `a` goes on from `a`. */
  lemma {:induction false} FindSplitIn(ms: seq<Member>, a: nat, q: Path)
    requires WellNamedAll(ms) && a < SizeAll(ms)
    ensures PathIn(ms, a) != []
    ensures FindIn(ms, PathIn(ms, a) + q) ==
            match Find(NodeIn(ms, a), q) case None => None case Some(j) => Some(a + j)
    decreases ms, 0
  {
    FindPathIn(ms, a);
    var s := Size(ms[0].field);
    if a < s {
      FindSplit(ms[0].field, a, q);
      assert (PathIn(ms, a) + q)[1..] == PathAt(ms[0].field, a) + q;
    } else {
      FindPathIn(ms[1..], a - s);
      FindSplitIn(ms[1..], a - s, q);
    }
  }

  lemma {:induction false} FindSplit(f: Field, a: nat, q: Path)
    requires WellNamed(f) && a < Size(f)
    ensures Find(f, PathAt(f, a) + q) ==
            match Find(NodeAt(f, a), q) case None => None case Some(j) => Some(a + j)
    decreases f, 0
  {
    if a == 0 {
      assert [] + q == q;
    } else {
      FindSplitIn(f.members, a - 1, q);
    }
  }

  lemma PathFindOpt(f: Field, q: Path)
    ensures Find(f, q).Some? ==> Find(f, q).value < Size(f)
  {
    if Find(f, q).Some? { PathFind(f, q); }
  }

  /** Lookup goes on in the first member with the wanted name. */
  lemma {:induction false} FindInAt(ms: seq<Member>, i: nat, p: Path)
    requires p != [] && i < |ms| && ms[i].name == p[0]
    requires forall j | 0 <= j < i :: ms[j].name != p[0]
    ensures FindIn(ms, p) ==
            match Find(ms[i].field, p[1..]) case None => None case Some(k) => Some(SizeAll(ms[..i]) + k)
    decreases i
  {
    if i > 0 {
      FindInAt(ms[1..], i - 1, p);
      assert ms[..i][1..] == ms[1..][..i - 1];
    } else {
      assert ms[..0] == [];
    }
  }

  lemma {:induction false} FindInNone(ms: seq<Member>, p: Path)
    requires p != [] && forall j | 0 <= j < |ms| :: ms[j].name != p[0]
    ensures FindIn(ms, p) == None
    decreases |ms|
  {
    if ms != [] { FindInNone(ms[1..], p); }
  }

  /** Member `i` starts after the members before it. */
  lemma {:induction false} MemberStart(ms: seq<Member>, i: nat)
    requires i < |ms|
    ensures SizeAll(ms[..i]) + SizeAll(ms[i..]) == SizeAll(ms)
    ensures SizeAll(ms[..i]) < SizeAll(ms)
    ensures NodeIn(ms, SizeAll(ms[..i])) == ms[i].field
    decreases i
  {
    if i > 0 {
      MemberStart(ms[1..], i - 1);
      assert ms[..i][1..] == ms[1..][..i - 1];
      assert ms[i..] == ms[1..][i - 1..];
    } else {
      assert ms[..0] == [] && ms[0..] == ms;
    }
  }

  lemma {:induction false} PrefixSize(ms: seq<Member>, i: nat)
    requires i < |ms|
    ensures SizeAll(ms[..i + 1]) == SizeAll(ms[..i]) + Size(ms[i].field)
    decreases i
  {
    if i > 0 {
      PrefixSize(ms[1..], i - 1);
      assert ms[..i + 1][1..] == ms[1..][..i];
      assert ms[..i][1..] == ms[1..][..i - 1];
    } else {
      assert ms[..1][1..] == [];
    }
  }

  /** The nodes of member `i` follow the nodes of the members before it. */
  lemma SectionType(ms: seq<Member>, i: nat, k: nat)
    requires i < |ms| && SizeAll(ms[..i]) <= k < SizeAll(ms[..i + 1])
    ensures SizeAll(ms[..i]) + Size(ms[i].field) == SizeAll(ms[..i + 1]) <= SizeAll(ms)
    ensures NodeIn(ms, k) == NodeAt(ms[i].field, k - SizeAll(ms[..i]))
  {
    MemberStart(ms, i);
    PrefixSize(ms, i);
    NodeSizeIn(ms, SizeAll(ms[..i]));
    SubtreeIn(ms, SizeAll(ms[..i]), k - SizeAll(ms[..i]));
  }

  lemma SectionTypes(f: Field, i: nat)
    requires f.Structure? && i < |f.members|
    ensures var ms := f.members;
      var p := 1 + SizeAll(ms[..i]);
      && p + Size(ms[i].field) == 1 + SizeAll(ms[..i + 1]) <= Size(f)
      && forall k | p <= k < p + Size(ms[i].field) :: NodeAt(f, k) == NodeAt(ms[i].field, k - p)
  {
    hide SizeAll, NodeIn;
    var ms := f.members;
    var p := 1 + SizeAll(ms[..i]);
    PrefixSize(ms, i);
    SectionType(ms, i, SizeAll(ms[..i]));
    forall k | p <= k < p + Size(ms[i].field)
      ensures NodeAt(f, k) == NodeAt(ms[i].field, k - p)
    {
      SectionType(ms, i, k - 1);
    }
  }
}
