/** What a request selects, read off the request itself: as a structure it leads, by the beginnings of
    the name of a field, to that field or to something that stands for it. */
module SelectionLaws {
  import opened Fields
  import opened Names
  import opened Selection

  /** The field that the names lead to. */
  function Target(f: Field, p: Path): Option<Field> {
    PathFindOpt(f, p);
    match Find(f, p)
    case None => None
    case Some(k) => Some(NodeAt(f, k))
  }

  /** `f` has a structure where the first `j` names of `p` lead. */
  predicate Leads(f: Field, p: Path, j: nat)
    requires j <= |p|
  {
    var t := Target(f, p[..j]);
    t.Some? && t.value.Structure?
  }

  /** The request names the field `p` itself; or it names a structure around it, and nothing below that;
      or it names six of the structures around it, and is not looked at any further. */
  predicate Named(f: Field, p: Path) {
    exists j | 0 < j <= |p| :: Leads(f, p, j) && (j == |p| || j == 6 || Target(f, p[..j]).value.members == [])
  }

  // ----- along a path -----

  function TargetIn(ms: seq<Member>, p: Path): Option<Field>
    requires p != []
  {
    if FindIn(ms, p).Some? then PathFindIn(ms, p); Some(NodeIn(ms, FindIn(ms, p).value)) else None
  }

  lemma TargetFirst(ms: seq<Member>, p: Path)
    requires ms != [] && p != []
    ensures TargetIn(ms, p) == if ms[0].name == p[0] then Target(ms[0].field, p[1..]) else TargetIn(ms[1..], p)
  {
    if FindIn(ms, p).Some? { PathFindIn(ms, p); }
    if FindIn(ms[1..], p).Some? { PathFindIn(ms[1..], p); }
    PathFindOpt(ms[0].field, p[1..]);
  }

  lemma TargetBelow(f: Field, p: Path)
    ensures p == [] ==> Target(f, p) == Some(f)
    ensures p != [] && f.Structure? ==> Target(f, p) == TargetIn(f.members, p)
    ensures p != [] && !f.Structure? ==> Target(f, p) == None
  {
    if p != [] && f.Structure? && FindIn(f.members, p).Some? { PathFindIn(f.members, p); }
  }

  /** The first `j` names lead to a structure that stands for everything below it, when `d` names have been
      read before; or, if `self`, they are the whole name. */
  predicate EndsIn(rs: seq<Member>, d: nat, p: Path, j: nat, self: bool)
    requires 0 < j <= |p|
  {
    var t := TargetIn(rs, p[..j]);
    t.Some? && t.value.Structure? && ((self && j == |p|) || d + j == 6 || t.value.members == [])
  }

  predicate NamedIn(rs: seq<Member>, d: nat, p: Path, self: bool) {
    exists j | 0 < j <= |p| :: EndsIn(rs, d, p, j, self)
  }

  predicate FirstNamed(r: Member, d: nat, p: Path, self: bool)
    requires r.field.Structure?
  {
    (self && |p| == 1) || d == 5 || r.field.members == []
  }

  predicate EndsLater(r: Member, d: nat, p: Path, j: nat, self: bool)
    requires r.field.Structure? && 0 < j <= |p|
  {
    if j == 1 then FirstNamed(r, d, p, self) else EndsIn(r.field.members, d + 1, p[1..], j - 1, self)
  }

  lemma EndsFirst(rs: seq<Member>, d: nat, p: Path, j: nat, self: bool)
    requires rs != [] && 0 < j <= |p| && rs[0].name == p[0]
    ensures EndsIn(rs, d, p, j, self) <==> rs[0].field.Structure? && EndsLater(rs[0], d, p, j, self)
  {
    hide Target, TargetIn;
    var q := p[..j];
    TargetFirst(rs, q);
    TargetBelow(rs[0].field, q[1..]);
    assert q[1..] == p[1..][..j - 1];
  }

  lemma NamedFirst(rs: seq<Member>, d: nat, p: Path, self: bool)
    requires rs != [] && p != [] && rs[0].name == p[0]
    ensures NamedIn(rs, d, p, self) <==>
      rs[0].field.Structure? && (FirstNamed(rs[0], d, p, self) || NamedIn(rs[0].field.members, d + 1, p[1..], self))
  {
    hide EndsIn;
    forall j | 0 < j <= |p|
      ensures EndsIn(rs, d, p, j, self) <==> rs[0].field.Structure? && EndsLater(rs[0], d, p, j, self)
    {
      EndsFirst(rs, d, p, j, self);
    }
    if rs[0].field.Structure? && NamedIn(rs[0].field.members, d + 1, p[1..], self) {
      var i: nat :| 0 < i <= |p[1..]| && EndsIn(rs[0].field.members, d + 1, p[1..], i, self);
      var j := i + 1;
      assert EndsIn(rs, d, p, j, self);
    }
    if NamedIn(rs, d, p, self) {
      var j: nat :| 0 < j <= |p| && EndsIn(rs, d, p, j, self);
      if j > 1 {
        var i := j - 1;
        assert EndsIn(rs[0].field.members, d + 1, p[1..], i, self);
      }
    }
    if rs[0].field.Structure? && FirstNamed(rs[0], d, p, self) { assert EndsIn(rs, d, p, 1, self); }
  }

  lemma NamedLater(rs: seq<Member>, d: nat, p: Path, self: bool)
    requires rs != [] && p != [] && rs[0].name != p[0]
    ensures NamedIn(rs, d, p, self) <==> NamedIn(rs[1..], d, p, self)
  {
    forall j | 0 < j <= |p|
      ensures EndsIn(rs, d, p, j, self) <==> EndsIn(rs[1..], d, p, j, self)
    {
      TargetFirst(rs, p[..j]);
    }
  }

  lemma NamedNowhere(d: nat, p: Path, self: bool)
    ensures !NamedIn([], d, p, self)
  {
    forall j | 0 < j <= |p|
      ensures !EndsIn([], d, p, j, self)
    {
      assert FindIn([], p[..j]) == None;
    }
  }

  /** The walk over request and base asks for the fields of the base that the request names. */
  lemma {:induction false} AskedIffNamed(base: seq<Member>, rs: seq<Member>, d: nat, p: Path)
    requires p != [] && d <= 5
    ensures Asked(base, rs, d, p) <==> NamedIn(rs, d, p, true) && FindIn(base, p).Some?
    decreases rs
  {
    hide NamedIn, FindIn, Find;
    if |p| == 1 { assert p[1..] == []; }
    if rs == [] {
      NamedNowhere(d, p, true);
    } else if rs[0].name != p[0] {
      NamedLater(rs, d, p, true);
      AskedIffNamed(base, rs[1..], d, p);
    } else {
      NamedFirst(rs, d, p, true);
      FoundFirst(base, p);
      match Position(base, p[0])
      case None =>
      case Some(i) =>
        if rs[0].field.Structure? && !Whole(base[i].field, rs[0].field, d) && p[1..] != [] {
          AskedIffNamed(base[i].field.members, rs[0].field.members, d + 1, p[1..]);
          FoundBelow(base[i].field, p[1..]);
        }
        if rs[0].field.Structure? { FoundBelow(base[i].field, p[1..]); }
    }
  }

  lemma FoundFirst(base: seq<Member>, p: Path)
    requires p != []
    ensures FindIn(base, p).Some? <==> Position(base, p[0]).Some? && Find(base[Position(base, p[0]).value].field, p[1..]).Some?
  {
    match Position(base, p[0])
    case None => FindInNone(base, p);
    case Some(i) => FindInAt(base, i, p);
  }

  lemma FoundBelow(f: Field, p: Path)
    ensures p == [] ==> Find(f, p).Some?
    ensures p != [] ==> (Find(f, p).Some? <==> f.Structure? && FindIn(f.members, p).Some?)
  {}

  // ----- the selection -----

  lemma NamedTop(f: Field, p: Path)
    requires f.Structure?
    ensures Named(f, p) <==> NamedIn(f.members, 0, p, true)
  {
    forall j | 0 < j <= |p|
      ensures Target(f, p[..j]) == TargetIn(f.members, p[..j])
    {
      TargetBelow(f, p[..j]);
    }
    if NamedIn(f.members, 0, p, true) {
      var j: nat :| 0 < j <= |p| && EndsIn(f.members, 0, p, j, true);
      assert Leads(f, p, j);
    }
    if Named(f, p) {
      var j: nat :| 0 < j <= |p| && Leads(f, p, j) && (j == |p| || j == 6 || Target(f, p[..j]).value.members == []);
      assert EndsIn(f.members, 0, p, j, true);
    }
  }

  /** A field of the base is selected exactly if the request names it.  The request is a structure with the
      members `rs`. */
  lemma SelectedIffNamed(base: Field, id: string, rs: seq<Member>, b: nat)
    requires base.Structure? && WellNamed(base) && WellNamedAll(rs) && rs != [] && 0 < b < Size(base)
    ensures b in SelectedMask(base, rs) <==> Named(Structure(id, rs), PathAt(base, b))
  {
    hide Named, NamedIn, Asked, Chosen;
    var p := PathAt(base, b);
    ChosenIffAsked(base.members, 0, rs, 0, b - 1);
    AskedIffNamed(base.members, rs, 0, p);
    NamedTop(Structure(id, rs), p);
    FindPath(base, b);
    assert b - 1 + 1 == b;
  }

  /** The requested type has the fields of the base that the request names. */
  lemma RequestedIffNamed(base: Field, id: string, rs: seq<Member>, keepids: bool, p: Path)
    requires base.Structure? && WellNamedAll(rs) && rs != [] && p != []
    ensures Find(SelectedType(base, rs, keepids), p).Some? <==> Named(Structure(id, rs), p) && Find(base, p).Some?
  {
    hide Named, NamedIn, Asked, Sliced;
    SlicedIffAsked(base.members, rs, keepids, 0, p);
    AskedIffNamed(base.members, rs, 0, p);
    NamedTop(Structure(id, rs), p);
  }

  /** If all nodes of the request are structures and no name has more than six parts: the fields that are
      named, and everything below those that are named without subfields. */
  lemma SelectedIffWithin(base: Field, id: string, rs: seq<Member>, b: nat)
    requires base.Structure? && WellNamed(base) && WellNamedAll(rs) && rs != [] && 0 < b < Size(base)
    requires var f := Structure(id, rs); forall k | 0 <= k < Size(f) :: NodeAt(f, k).Structure? && |PathAt(f, k)| <= 6
    ensures var f, p := Structure(id, rs), PathAt(base, b);
      b in SelectedMask(base, rs) <==>
        Find(f, p).Some? || exists k | 0 <= k < Size(f) :: NodeAt(f, k).members == [] && PathAt(f, k) <= p
  {
    hide SelectedMask, Find, NodeAt, PathAt, Size, WellNamed, WellNamedAll;
    var f, p := Structure(id, rs), PathAt(base, b);
    SelectedIffNamed(base, id, rs, b);
    PathNotEmpty(base, b);
    TopHasMembers(id, rs);
    if Find(f, p).Some? {
      PathFind(f, p);
      assert p[..|p|] == p && Leads(f, p, |p|);
    }
    if k: nat :| k < Size(f) && NodeAt(f, k).members == [] && PathAt(f, k) <= p {
      var q := PathAt(f, k);
      assert p[..|q|] == q;
      TopIsFirst(f, k);
      FindPath(f, k);
      assert Leads(f, p, |q|);
    }
    if Named(f, p) {
      var j: nat :| 0 < j <= |p| && Leads(f, p, j) && (j == |p| || j == 6 || Target(f, p[..j]).value.members == []);
      var q := p[..j];
      var k := Find(f, q).value;
      PathFind(f, q);
      if j == |p| {
        assert q == p;
      } else if NodeAt(f, k).members != [] {
        TooLong(f, k);
      }
    }
  }

  lemma TopHasMembers(id: string, rs: seq<Member>)
    requires rs != []
    ensures NodeAt(Structure(id, rs), 0).members != [] && WellNamed(Structure(id, rs)) == WellNamedAll(rs)
  {}

  lemma TopIsFirst(f: Field, k: nat)
    requires f.Structure? && k < Size(f) && NodeAt(f, 0).members != [] && NodeAt(f, k).Structure? && NodeAt(f, k).members == []
    ensures PathAt(f, k) != []
  {
    PathNotEmpty(f, k);
  }

  /** Below a structure with members there are longer names. */
  lemma TooLong(f: Field, k: nat)
    requires k < Size(f) && NodeAt(f, k).Structure? && NodeAt(f, k).members != []
    ensures k + 1 < Size(f) && |PathAt(f, k + 1)| == |PathAt(f, k)| + 1
  {
    var g := NodeAt(f, k);
    Subtree(f, k, 1);
    assert PathAt(g, 1) == [g.members[0].name] + PathAt(g.members[0].field, 0);
  }

  /** Of the name of a field that is selected because everything below its sixth name is, the rest does not
      matter. */
  lemma SelectedBelowSix(base: Field, id: string, rs: seq<Member>, b: nat)
    requires base.Structure? && WellNamed(base) && WellNamedAll(rs) && rs != [] && 0 < b < Size(base)
    requires |PathAt(base, b)| >= 6 && Leads(Structure(id, rs), PathAt(base, b), 6)
    ensures b in SelectedMask(base, rs)
  {
    SelectedIffNamed(base, id, rs, b);
  }

  // ----- the types of the requested fields -----

  lemma TargetAt(ms: seq<Member>, i: nat, p: Path)
    requires p != [] && Position(ms, p[0]) == Some(i)
    ensures TargetIn(ms, p) == Target(ms[i].field, p[1..])
    decreases i
  {
    hide TargetIn, Target;
    TargetFirst(ms, p);
    if i > 0 { TargetAt(ms[1..], i - 1, p); }
  }

  /** What a field of the requested type is: the field of the base if that has no subfields or is taken as a
      whole, and otherwise a structure of its own, with the id of that in the base or the default one. */
  predicate Rendered(t: Field, b: Field, whole: bool, keepids: bool) {
    if whole || !b.Structure? then t == b else t.Structure? && t.id == if keepids then b.id else "structure"
  }

  lemma {:induction false} SlicedTarget(base: seq<Member>, rs: seq<Member>, keepids: bool, d: nat, p: Path)
    requires WellNamedAll(rs) && p != [] && d <= 5 && TargetIn(Sliced(base, rs, keepids, d), p).Some?
    ensures TargetIn(base, p).Some?
    ensures Rendered(TargetIn(Sliced(base, rs, keepids, d), p).value, TargetIn(base, p).value, NamedIn(rs, d, p, false), keepids)
    decreases rs
  {
    hide NamedIn, Target, TargetIn;
    if rs == [] {
      NoTarget(p);
      return;
    }
    var all, rest := Sliced(base, rs, keepids, d), Sliced(base, rs[1..], keepids, d);
    var head := SliceOf(base, rs[0], keepids, d);
    SliceNames(base, rs[1..], keepids, d);
    if head == [] {
      assert all == rest;
      if rs[0].name == p[0] { NoOther(rest, p); } else { SlicedTarget(base, rs[1..], keepids, d, p); NamedLater(rs, d, p, false); }
    } else {
      assert all[0] == head[0] && all[1..] == rest;
      TargetFirst(all, p);
      if rs[0].name != p[0] {
        SlicedTarget(base, rs[1..], keepids, d, p);
        NamedLater(rs, d, p, false);
      } else {
        NamedFirst(rs, d, p, false);
        var i := Position(base, p[0]).value;
        TargetAt(base, i, p);
        SlicedBelow(base[i].field, rs[0], keepids, d, p, head[0].field);
      }
    }
  }

  lemma {:induction false} SlicedBelow(sub: Field, r: Member, keepids: bool, d: nat, p: Path, g: Field)
    requires p != [] && d <= 5 && r.field.Structure? && WellNamed(r.field) && Target(g, p[1..]).Some?
    requires g == if Whole(sub, r.field, d) then sub
      else Structure(if keepids then sub.id else "structure", Sliced(sub.members, r.field.members, keepids, d + 1))
    ensures Target(sub, p[1..]).Some?
    ensures Rendered(Target(g, p[1..]).value, Target(sub, p[1..]).value,
                     FirstNamed(r, d, p, false) || NamedIn(r.field.members, d + 1, p[1..], false), keepids)
    decreases r, 0
  {
    hide NamedIn, Target, TargetIn, Sliced;
    var q := p[1..];
    TargetBelow(sub, q);
    TargetBelow(g, q);
    if q == [] {
      NamedEmpty(r.field.members, d + 1);
    } else if !Whole(sub, r.field, d) {
      SlicedTarget(sub.members, r.field.members, keepids, d + 1, q);
    }
  }

  lemma NamedEmpty(rs: seq<Member>, d: nat)
    ensures !NamedIn(rs, d, [], false)
  {}

  lemma NoTarget(p: Path)
    requires p != []
    ensures TargetIn([], p) == None
  {}

  lemma NoOther(ms: seq<Member>, p: Path)
    requires p != [] && p[0] !in MemberNames(ms)
    ensures TargetIn(ms, p) == None
  {
    FindInOther(ms, p);
  }

  /** The request names a structure around `p`, or `p` itself, that is taken as a whole. */
  predicate Taken(f: Field, p: Path) {
    exists j | 0 < j <= |p| :: Leads(f, p, j) && (j == 6 || Target(f, p[..j]).value.members == [])
  }

  lemma TakenTop(f: Field, p: Path)
    requires f.Structure?
    ensures Taken(f, p) <==> NamedIn(f.members, 0, p, false)
  {
    forall j | 0 < j <= |p|
      ensures Target(f, p[..j]) == TargetIn(f.members, p[..j])
    {
      TargetBelow(f, p[..j]);
    }
    if NamedIn(f.members, 0, p, false) {
      var j: nat :| 0 < j <= |p| && EndsIn(f.members, 0, p, j, false);
      assert Leads(f, p, j);
    }
    if Taken(f, p) {
      var j: nat :| 0 < j <= |p| && Leads(f, p, j) && (j == 6 || Target(f, p[..j]).value.members == []);
      assert EndsIn(f.members, 0, p, j, false);
    }
  }

  lemma RequestedKind(base: Field, id: string, rs: seq<Member>, keepids: bool, p: Path)
    requires base.Structure? && WellNamedAll(rs) && rs != [] && p != []
    requires Target(SelectedType(base, rs, keepids), p).Some?
    ensures Target(base, p).Some?
    ensures Rendered(Target(SelectedType(base, rs, keepids), p).value, Target(base, p).value, Taken(Structure(id, rs), p), keepids)
  {
    hide Taken, NamedIn, Target, TargetIn, Sliced;
    TargetBelow(SelectedType(base, rs, keepids), p);
    TargetBelow(base, p);
    SlicedTarget(base.members, rs, keepids, 0, p);
    TakenTop(Structure(id, rs), p);
  }

  lemma SlicedFirst(base: seq<Member>, rs: seq<Member>, keepids: bool, d: nat)
    requires rs != []
    ensures var head := SliceOf(base, rs[0], keepids, d);
      && Sliced(base, rs, keepids, d) == head + Sliced(base, rs[1..], keepids, d)
      && |head| <= 1 && (head != [] ==> head[0].name == rs[0].name)
  {}

  /** A field of a requested structure has the name of some node of the request. */
  lemma {:induction false} SlicedFrom(base: seq<Member>, rs: seq<Member>, keepids: bool, d: nat, i: nat) returns (a: nat)
    requires i < |Sliced(base, rs, keepids, d)|
    ensures a < |rs| && rs[a].name == Sliced(base, rs, keepids, d)[i].name
    decreases rs
  {
    hide SliceOf, Sliced;
    SelectionEnds(base, 0, keepids, d);
    SlicedFirst(base, rs, keepids, d);
    var k := |SliceOf(base, rs[0], keepids, d)|;
    if i < k {
      a := 0;
    } else {
      a := SlicedFrom(base, rs[1..], keepids, d, i - k);
      a := a + 1;
    }
  }

  /** The fields come in the order in which the request names them. */
  lemma {:induction false} SlicedOrder(base: seq<Member>, rs: seq<Member>, keepids: bool, d: nat, i: nat, j: nat) returns (a: nat, b: nat)
    requires i < j < |Sliced(base, rs, keepids, d)|
    ensures a < b < |rs|
    ensures rs[a].name == Sliced(base, rs, keepids, d)[i].name && rs[b].name == Sliced(base, rs, keepids, d)[j].name
    decreases rs
  {
    hide SliceOf, Sliced;
    SelectionEnds(base, 0, keepids, d);
    SlicedFirst(base, rs, keepids, d);
    var k := |SliceOf(base, rs[0], keepids, d)|;
    if i < k {
      a := 0;
      b := SlicedFrom(base, rs[1..], keepids, d, j - k);
      b := b + 1;
    } else {
      a, b := SlicedOrder(base, rs[1..], keepids, d, i - k, j - k);
      a, b := a + 1, b + 1;
    }
  }
}
