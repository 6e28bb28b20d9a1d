/** The type that is built for a parsed request, and where the values of the options go. */
module RequestTypes {
  import opened Fields
  import opened Names
  import opened Requests
  import opened RequestLaws

  // ----- types -----

  /** createSubStructure and createOptions: a field becomes a structure, an option a string. */
  function FieldFor(n: Node): Field
    decreases n, 1
  {
    Structure("structure", if n.name == OPTIONS then OptionMembers(n.nodes) else MembersFor(n.nodes))
  }

  function MembersFor(ns: seq<Node>): seq<Member>
    decreases ns, 0
  {
    if ns == [] then [] else [Member(ns[0].name, FieldFor(ns[0]))] + MembersFor(ns[1..])
  }

  function OptionMembers(ns: seq<Node>): seq<Member> {
    if ns == [] then [] else [Member(ns[0].name, Scalar(PvString))] + OptionMembers(ns[1..])
  }

  // ----- lookups -----

  /** The name leads to a string. */
  ghost predicate IsString(f: Field, p: Path) {
    var found := Fields.Find(f, p);
    found.Some? && found.value < Size(f) && NodeAt(f, found.value) == Scalar(PvString)
  }

  lemma StringBelow(id: string, ms: seq<Member>, i: nat, p: Path)
    requires p != [] && i < |ms| && ms[i].name == p[0] && forall j | 0 <= j < i :: ms[j].name != p[0]
    requires IsString(ms[i].field, p[1..])
    ensures IsString(Structure(id, ms), p)
  {
    FindInAt(ms, i, p);
    MemberStart(ms, i);
    var k := Fields.Find(ms[i].field, p[1..]).value;
    SubtreeIn(ms, SizeAll(ms[..i]), k);
  }

  lemma {:induction false} MembersAt(ns: seq<Node>, i: nat)
    requires i < |ns|
    ensures |MembersFor(ns)| == |ns| && MembersFor(ns)[i] == Member(ns[i].name, FieldFor(ns[i]))
    decreases i
  {
    MembersCount(ns);
    if i > 0 { MembersAt(ns[1..], i - 1); }
  }

  lemma {:induction false} MembersCount(ns: seq<Node>)
    ensures |MembersFor(ns)| == |ns|
  {
    if ns != [] { MembersCount(ns[1..]); }
  }

  lemma {:induction false} OptionMembersAt(ns: seq<Node>, i: nat)
    requires i < |ns|
    ensures |OptionMembers(ns)| == |ns| && OptionMembers(ns)[i] == Member(ns[i].name, Scalar(PvString))
    decreases i
  {
    OptionMembersCount(ns);
    if i > 0 { OptionMembersAt(ns[1..], i - 1); }
  }

  lemma {:induction false} OptionMembersCount(ns: seq<Node>)
    ensures |OptionMembers(ns)| == |ns|
  {
    if ns != [] { OptionMembersCount(ns[1..]); }
  }

  // ----- the nodes for which a type can be built -----

  function NodeNames(ns: seq<Node>): set<string> {
    set n | n in ns :: n.name
  }

  /** The names are valid, and no two nodes at one level have the same. */
  predicate Buildable(ns: seq<Node>)
    decreases ns
  {
    ns == [] ||
    (ValidName(ns[0].name) && ns[0].name !in NodeNames(ns[1..]) && Buildable(ns[0].nodes) && Buildable(ns[1..]))
  }

  lemma {:induction false} BuildableAt(ns: seq<Node>, i: nat)
    requires Buildable(ns) && i < |ns|
    ensures ValidName(ns[i].name) && Buildable(ns[i].nodes)
    ensures forall j | 0 <= j < i :: ns[j].name != ns[i].name
    decreases i
  {
    if i > 0 {
      BuildableAt(ns[1..], i - 1);
      assert ns[i] in ns[1..];
    }
  }

  // ----- the leaves for options -----

  /** The full names of the strings that are made for options. */
  function PathsOf(prefix: string, n: Node): seq<string>
    decreases n, 1
  {
    if n.name == OPTIONS then seq(|n.nodes|, i requires 0 <= i < |n.nodes| => prefix + "." + OPTIONS + "." + n.nodes[i].name)
    else PathsOfAll(prefix + "." + n.name, n.nodes)
  }

  function PathsOfAll(prefix: string, ns: seq<Node>): seq<string>
    decreases ns, 0
  {
    if ns == [] then [] else PathsOf(prefix, ns[0]) + PathsOfAll(prefix, ns[1..])
  }

  /** A full name: the names on the way to a string, below the field `base`. */
  ghost predicate Leads(f: Field, base: Path, name: string, p: Path) {
    && base != [] && p != [] && name == Join(base + p) && IsString(f, p)
    && forall i | 0 <= i < |p| :: ValidName(p[i])
  }

  /** Every name leads to a string, by way of a node named in `within`. */
  ghost predicate AllLead(f: Field, base: Path, names: seq<string>, within: set<string>) {
    forall i | 0 <= i < |names| :: LeadsWithin(f, base, names[i], within)
  }

  ghost predicate LeadsWithin(f: Field, base: Path, name: string, within: set<string>) {
    exists p | Leads(f, base, name, p) :: p[0] in within
  }

  function StructureFor(ns: seq<Node>): Field {
    Structure("structure", MembersFor(ns))
  }

  lemma {:induction false} JoinSnoc(base: Path, n: string)
    requires base != []
    ensures Join(base + [n]) == Join(base) + "." + n
    decreases |base|
  {
    var p := base + [n];
    assert p[0] == base[0] && p[1..] == base[1..] + [n];
    if |base| > 1 { JoinSnoc(base[1..], n); }
  }

  lemma PathOf(f: Field, base: Path, name: string, within: set<string>) returns (p: Path)
    requires LeadsWithin(f, base, name, within)
    ensures Leads(f, base, name, p) && p != [] && p[0] in within
  {
    hide Join, IsString;
    p :| Leads(f, base, name, p) && p[0] in within;
  }

  lemma DownOne(base: Path, n: string, p: Path)
    ensures base + [n] + p == base + ([n] + p) && ([n] + p)[1..] == p
  {}

  /** Going down into node `i`. */
  lemma NodeInList(ns: seq<Node>, i: nat, p: Path)
    requires Buildable(ns) && i < |ns| && p != [] && p[0] == ns[i].name && IsString(FieldFor(ns[i]), p[1..])
    ensures IsString(StructureFor(ns), p)
  {
    hide FieldFor;
    BuildableAt(ns, i);
    MembersAt(ns, i);
    forall j | 0 <= j < i
      ensures MembersFor(ns)[j].name != p[0]
    {
      MembersAt(ns, j);
    }
    StringBelow("structure", MembersFor(ns), i, p);
  }

  /** The options at node `i`. */
  lemma OptionLeads(base: Path, ns: seq<Node>, i: nat, k: nat)
    requires base != [] && Buildable(ns) && i < |ns| && ns[i].name == OPTIONS && k < |ns[i].nodes|
    ensures LeadsWithin(StructureFor(ns), base, Join(base) + "." + OPTIONS + "." + ns[i].nodes[k].name, {OPTIONS})
  {
    hide StructureFor, Join;
    var opts := ns[i].nodes;
    var o := opts[k].name;
    var p := [OPTIONS, o];
    BuildableAt(ns, i);
    BuildableAt(opts, k);
    OptionMembersAt(opts, k);
    forall j | 0 <= j < k
      ensures OptionMembers(opts)[j].name != o
    {
      OptionMembersAt(opts, j);
    }
    assert Fields.Find(Scalar(PvString), []) == Some(0);
    assert p[1..][1..] == [];
    StringBelow("structure", OptionMembers(opts), k, p[1..]);
    NodeInList(ns, i, p);
    JoinSnoc(base, OPTIONS);
    JoinSnoc(base + [OPTIONS], o);
    assert base + [OPTIONS] + [o] == base + p;
    assert Leads(StructureFor(ns), base, Join(base) + "." + OPTIONS + "." + o, p);
  }

  /** What holds below the nodes of node `i` holds below the nodes. */
  lemma BelowLeads(base: Path, ns: seq<Node>, i: nat, name: string)
    requires base != [] && Buildable(ns) && i < |ns| && ns[i].name != OPTIONS
    requires LeadsWithin(StructureFor(ns[i].nodes), base + [ns[i].name], name, NodeNames(ns[i].nodes))
    ensures LeadsWithin(StructureFor(ns), base, name, {ns[i].name})
  {
    hide Join, IsString, Buildable, MembersFor, LeadsWithin, ValidName, StructureFor;
    var n := ns[i].name;
    var p := PathOf(StructureFor(ns[i].nodes), base + [n], name, NodeNames(ns[i].nodes));
    BuildableAt(ns, i);
    var q := [n] + p;
    DownOne(base, n, p);
    assert FieldFor(ns[i]) == StructureFor(ns[i].nodes) by { NodeType(ns[i]); }
    NodeInList(ns, i, q);
    OwnWithin(StructureFor(ns), base, name, q);
  }

  lemma NodeType(n: Node)
    requires n.name != OPTIONS
    ensures FieldFor(n) == StructureFor(n.nodes)
  {}

  lemma OwnWithin(f: Field, base: Path, name: string, p: Path)
    requires Leads(f, base, name, p)
    ensures LeadsWithin(f, base, name, {p[0]})
  {}

  lemma {:induction false} NodeLeads(base: Path, ns: seq<Node>, i: nat)
    requires base != [] && Buildable(ns) && i < |ns|
    ensures AllLead(StructureFor(ns), base, PathsOf(Join(base), ns[i]), {ns[i].name})
    decreases ns[i], 1
  {
    hide Leads, LeadsWithin, StructureFor, Buildable, Join;
    var n := ns[i];
    var paths := PathsOf(Join(base), n);
    BuildableAt(ns, i);
    if n.name != OPTIONS {
      JoinSnoc(base, n.name);
      NodesLead(base + [n.name], n.nodes, 0);
      assert n.nodes[0..] == n.nodes;
    }
    forall k | 0 <= k < |paths|
      ensures LeadsWithin(StructureFor(ns), base, paths[k], {n.name})
    {
      if n.name == OPTIONS { OptionLeads(base, ns, i, k); } else { BelowLeads(base, ns, i, paths[k]); }
    }
  }

  lemma {:induction false} NodesLead(base: Path, ns: seq<Node>, j: nat)
    requires base != [] && Buildable(ns) && j <= |ns|
    ensures AllLead(StructureFor(ns), base, PathsOfAll(Join(base), ns[j..]), NodeNames(ns))
    decreases ns, |ns| - j
  {
    hide Leads, StructureFor, Buildable, Join, PathsOf;
    if j < |ns| {
      var first, others := PathsOf(Join(base), ns[j]), PathsOfAll(Join(base), ns[j + 1..]);
      assert ns[j..][0] == ns[j] && ns[j..][1..] == ns[j + 1..];
      NodeLeads(base, ns, j);
      NodesLead(base, ns, j + 1);
      assert ns[j] in ns;
      var both := first + others;
      forall k | 0 <= k < |both|
        ensures LeadsWithin(StructureFor(ns), base, both[k], NodeNames(ns))
      {
        if k < |first| {
          assert LeadsWithin(StructureFor(ns), base, first[k], {ns[j].name});
        } else {
          assert LeadsWithin(StructureFor(ns), base, others[k - |first|], NodeNames(ns));
        }
      }
    }
  }

  /** The type of the whole request, for one section such as "field". */
  function RequestType(root: string, ns: seq<Node>): Field {
    Structure("structure", [Member(root, StructureFor(ns))])
  }

  lemma TopLeads(root: string, ns: seq<Node>, name: string, p: Path)
    requires ValidName(root) && Leads(StructureFor(ns), [root], name, p)
    ensures LookupName(RequestType(root, ns), name).Some? && IsString(RequestType(root, ns), Split(name))
  {
    hide StructureFor, ValidName;
    var q := [root] + p;
    assert q[1..] == p;
    StringBelow("structure", [Member(root, StructureFor(ns))], 0, q);
    forall k | 0 <= k < |q|
      ensures '.' !in q[k] && ' ' !in q[k]
    {
      ValidNameChars(q[k]);
    }
    SplitJoin(q);
    NoSpaceInJoin(q);
  }

  /** The full name of every leaf for an option leads to a string of the type that is built. */
  lemma LeavesResolve(root: string, ns: seq<Node>, i: nat)
    requires ValidName(root) && Buildable(ns) && i < |PathsOfAll(root, ns)|
    ensures var name := PathsOfAll(root, ns)[i];
      && LookupName(RequestType(root, ns), name).Some?
      && IsString(RequestType(root, ns), Split(name))
  {
    hide Leads, StructureFor, LeadsWithin, LookupName, IsString, Split, PathsOfAll, Buildable, RequestType;
    var base := [root];
    assert Join(base) == root;
    NodesLead(base, ns, 0);
    assert ns[0..] == ns;
    var p := PathOf(StructureFor(ns), base, PathsOfAll(root, ns)[i], NodeNames(ns));
    TopLeads(root, ns, PathsOfAll(root, ns)[i], p);
  }

  // ----- where the parser says that options belong -----

  /** One call of createSubNode: the full name of the enclosing field, the text before the brackets if
      there are any, the name of the field once the brackets have been cut out, and the names of its
      options. */
  datatype Visit = Visit(prefix: string, before: Option<string>, name: string, keys: seq<string>)

  function Visits(prefix: string, request: string): seq<Visit>
    decreases |request|, 1
  {
    var end := Stop(request, true);
    if end < |request| && request[end] == '[' then
      match BracketEnd(request[end..])
      case None => []
      case Some(b) =>
        NamedVisits(prefix, Some(request[..end]), Keys(request[end + 1..end + b]), request[..end] + request[end + b + 1..])
    else NamedVisits(prefix, None, [], request)
  }

  function NamedVisits(prefix: string, before: Option<string>, keys: seq<string>, request: string): seq<Visit>
    decreases |request|, 0
  {
    var stop := Stop(request, false);
    var end := if stop == 0 then |request| else stop;
    var name := request[..end];
    var v := [Visit(prefix, before, name, keys)];
    if end == |request| then v
    else if request[end] == ',' then v + Visits(prefix, request[end + 1..])
    else if request[end] == '.' then
      var below := request[end + 1..];
      match EndField(below)
      case None => v
      case Some(e) =>
        v + (Visits(prefix + "." + name, below[..e]) + if e + 1 >= |below| then [] else Visits(prefix, below[e + 1..]))
    else
      match EndField(request)
      case None => v
      case Some(e) =>
        if end + 1 >= e - 1 then v
        else
          v + (Visits(prefix + "." + name, request[end + 1..e - 1]) +
               if e + 1 >= |request| then [] else Visits(prefix, request[e + 1..]))
  }

  /** The names of options. */
  function Keys(text: string): seq<string> {
    KeysOf(SplitCommas(text))
  }

  function KeysOf(items: seq<string>): seq<string> {
    if items == [] then []
    else (match Requests.Find(items[0], '=') case None => [items[0]] case Some(k) => FindAt(items[0], '='); [items[0][..k]]) + KeysOf(items[1..])
  }

  function Named(prefix: string, keys: seq<string>): seq<string> {
    seq(|keys|, i requires 0 <= i < |keys| => prefix + "." + OPTIONS + "." + keys[i])
  }

  /** The names under which the options of the visited fields are recorded. */
  function Recorded(vs: seq<Visit>): seq<string> {
    if vs == [] then []
    else (match vs[0].before case None => [] case Some(b) => Named(vs[0].prefix + "." + b, vs[0].keys)) + Recorded(vs[1..])
  }

  /** The names that the options of the visited fields should have. */
  function Wanted(vs: seq<Visit>): seq<string> {
    if vs == [] then []
    else (if vs[0].before.Some? then Named(vs[0].prefix + "." + vs[0].name, vs[0].keys) else []) + Wanted(vs[1..])
  }

  /** Nothing but the end of the name follows the brackets. */
  predicate Tidy(vs: seq<Visit>) {
    forall i | 0 <= i < |vs| && vs[i].before.Some? :: vs[i].before.value == vs[i].name
  }

  /** No field has the name that stands for options. */
  predicate Unreserved(vs: seq<Visit>) {
    forall i | 0 <= i < |vs| :: vs[i].name != OPTIONS
  }

  /** Brackets are never empty. */
  predicate Filled(vs: seq<Visit>) {
    forall i | 0 <= i < |vs| && vs[i].before.Some? :: vs[i].keys != []
  }

  function NamesOf(os: seq<(string, string)>): seq<string> {
    seq(|os|, i requires 0 <= i < |os| => os[i].0)
  }

  lemma NamesJoin(a: seq<(string, string)>, b: seq<(string, string)>)
    ensures NamesOf(a + b) == NamesOf(a) + NamesOf(b)
  {}

  lemma SamePieces(a: seq<string>, b: seq<string>, c: seq<string>, d: seq<string>)
    requires |a| == |c|
    ensures a + b == c + d <==> a == c && b == d
  {
    if a + b == c + d {
      assert (a + b)[..|a|] == a && (c + d)[..|c|] == c;
      assert (a + b)[|a|..] == b && (c + d)[|c|..] == d;
    }
  }

  lemma {:induction false} PathsJoin(prefix: string, a: seq<Node>, b: seq<Node>)
    ensures PathsOfAll(prefix, a + b) == PathsOfAll(prefix, a) + PathsOfAll(prefix, b)
    decreases |a|
  {
    hide PathsOf;
    if a == [] {
      assert a + b == b && [] + PathsOfAll(prefix, b) == PathsOfAll(prefix, b);
    } else {
      PathsJoin(prefix, a[1..], b);
      assert (a + b)[0] == a[0] && (a + b)[1..] == a[1..] + b;
      Three(PathsOf(prefix, a[0]), PathsOfAll(prefix, a[1..]), PathsOfAll(prefix, b));
    }
  }

  lemma Three(a: seq<string>, b: seq<string>, c: seq<string>)
    ensures (a + b) + c == a + (b + c)
  {}

  lemma VisitsJoin(a: seq<Visit>, b: seq<Visit>)
    ensures Recorded(a + b) == Recorded(a) + Recorded(b) && Wanted(a + b) == Wanted(a) + Wanted(b)
    ensures Unreserved(a + b) <==> Unreserved(a) && Unreserved(b)
    ensures Filled(a + b) <==> Filled(a) && Filled(b)
  {
    hide Named, Recorded, Wanted;
    NamesOfBoth(a, b);
    assert forall i | 0 <= i < |a| :: (a + b)[i] == a[i];
    assert forall i | 0 <= i < |b| :: (a + b)[|a| + i] == b[i];
  }

  lemma {:induction false} NamesOfBoth(a: seq<Visit>, b: seq<Visit>)
    ensures Recorded(a + b) == Recorded(a) + Recorded(b) && Wanted(a + b) == Wanted(a) + Wanted(b)
    decreases |a|
  {
    hide Named;
    if a == [] {
      assert a + b == b && [] + Recorded(b) == Recorded(b) && [] + Wanted(b) == Wanted(b);
    } else {
      NamesOfBoth(a[1..], b);
      assert (a + b)[0] == a[0] && (a + b)[1..] == a[1..] + b;
      Three(Recorded([a[0]]), Recorded(a[1..]), Recorded(b));
      Three(Wanted([a[0]]), Wanted(a[1..]), Wanted(b));
      OneVisit(a[0]);
      OneVisitMore(a);
    }
  }

  lemma OneVisit(v: Visit)
    ensures Recorded([v]) == (match v.before case None => [] case Some(b) => Named(v.prefix + "." + b, v.keys))
    ensures Wanted([v]) == (if v.before.Some? then Named(v.prefix + "." + v.name, v.keys) else [])
  {
    assert [v][1..] == [];
  }

  lemma OneVisitMore(a: seq<Visit>)
    requires a != []
    ensures Recorded(a) == Recorded([a[0]]) + Recorded(a[1..]) && Wanted(a) == Wanted([a[0]]) + Wanted(a[1..])
  {
    OneVisit(a[0]);
  }

  /** What parsing options gives: one node with a child for every option, recorded below `prefix`. */
  lemma {:induction false} PairNodes(prefix: string, items: seq<string>)
    requires ParsePairs(prefix, items).Nodes?
    ensures var r := ParsePairs(prefix, items);
      && |r.nodes| == |KeysOf(items)| == |items|
      && NamesOf(r.options) == Named(prefix, KeysOf(items))
      && forall i | 0 <= i < |r.nodes| :: r.nodes[i].name == KeysOf(items)[i]
    decreases |items|
  {
    if items != [] {
      PairNodes(prefix, items[1..]);
      var rest := ParsePairs(prefix, items[1..]);
      var r, k := ParsePairs(prefix, items), Requests.Find(items[0], '=').value;
      FindAt(items[0], '=');
      NamesJoin([r.options[0]], rest.options);
      NamedJoin(prefix, items[0][..k], KeysOf(items[1..]));
    }
  }

  lemma NamedJoin(prefix: string, key: string, keys: seq<string>)
    ensures Named(prefix, [key] + keys) == [prefix + "." + OPTIONS + "." + key] + Named(prefix, keys)
  {}

  /** The options that were parsed for a field, if it has brackets. */
  ghost predicate Own(prefix: string, before: Option<string>, keys: seq<string>, inner: seq<Node>, opts: seq<(string, string)>) {
    match before
    case None => inner == [] && opts == []
    case Some(b) =>
      && keys != [] && NamesOf(opts) == Named(prefix + "." + b, keys)
      && |inner| == 1 && inner[0].name == OPTIONS && |inner[0].nodes| == |keys|
      && forall i | 0 <= i < |keys| :: inner[0].nodes[i].name == keys[i]
  }

  lemma OwnOptionsOf(prefix: string, b: string, text: string)
    requires ParseOptions(prefix + "." + b, text).Nodes?
    ensures var r := ParseOptions(prefix + "." + b, text);
      Own(prefix, Some(b), Keys(text), r.nodes, r.options)
  {
    hide ParsePairs, SplitCommas, Named, KeysOf;
    PairNodes(prefix + "." + b, SplitCommas(text));
  }

  lemma OwnPaths(prefix: string, before: Option<string>, keys: seq<string>, name: string, inner: seq<Node>, opts: seq<(string, string)>)
    requires Own(prefix, before, keys, inner, opts)
    ensures var v := [Visit(prefix, before, name, keys)];
      && Recorded(v) == NamesOf(opts) && Wanted(v) == PathsOfAll(prefix + "." + name, inner) && Filled(v)
  {
    var v := Visit(prefix, before, name, keys);
    OneVisit(v);
    match before
    case None =>
    case Some(b) =>
      assert PathsOfAll(prefix + "." + name, inner[1..]) == [];
      assert PathsOfAll(prefix + "." + name, inner) == Named(prefix + "." + name, keys) + [];
  }

  /** The parts of a field: its own options, those below it, and those of the fields that follow. */
  ghost predicate Placed(prefix: string, r: Result, vs: seq<Visit>) {
    r.Nodes? && Unreserved(vs) ==>
      Filled(vs) && NamesOf(r.options) == Recorded(vs) && PathsOfAll(prefix, r.nodes) == Wanted(vs)
  }

  lemma PartPaths(prefix: string, name: string, inner: seq<Node>, opts: seq<(string, string)>, v: Visit,
                  sub: Result, below: seq<Visit>, rest: Result, others: seq<Visit>)
    requires v.name == name && Filled([v])
    requires Recorded([v]) == NamesOf(opts) && Wanted([v]) == PathsOfAll(prefix + "." + name, inner)
    requires Placed(prefix + "." + name, sub, below) && Placed(prefix, rest, others)
    ensures Placed(prefix, Joined(name, inner, opts, sub, rest), [v] + (below + others))
  {
    hide Recorded, Wanted, NamesOf, PathsOf, Filled, Unreserved;
    var r := Joined(name, inner, opts, sub, rest);
    VisitsJoin([v], below + others);
    VisitsJoin(below, others);
    if r.Nodes? && Unreserved([v] + (below + others)) {
      NotReserved(v);
      var p := prefix + "." + name;
      var n := Node(name, inner + sub.nodes);
      assert r.nodes == [n] + rest.nodes && r.nodes[0] == n && r.nodes[1..] == rest.nodes;
      PathsJoin(p, inner, sub.nodes);
      NodePaths(prefix, n);
      NamesJoin(opts + sub.options, rest.options);
      NamesJoin(opts, sub.options);
      Three(NamesOf(opts), NamesOf(sub.options), NamesOf(rest.options));
      Three(PathsOfAll(p, inner), PathsOfAll(p, sub.nodes), PathsOfAll(prefix, rest.nodes));
    }
  }

  lemma NotReserved(v: Visit)
    requires Unreserved([v])
    ensures v.name != OPTIONS
  {
    assert [v][0] == v;
  }

  lemma NodePaths(prefix: string, n: Node)
    requires n.name != OPTIONS
    ensures PathsOf(prefix, n) == PathsOfAll(prefix + "." + n.name, n.nodes)
  {}

  /** What the parser records and what it builds, read off the visits. */
  lemma {:induction false} FieldsPlaced(prefix: string, request: string)
    ensures Placed(prefix, ParseFields(prefix, request), Visits(prefix, request))
    decreases |request|, 1
  {
    hide ParseNamed, NamedVisits, ParseOptions, Stop, Placed, Keys, Own;
    var end := Stop(request, true);
    if end < |request| && request[end] == '[' {
      match BracketEnd(request[end..])
      case None => NotPlaced(prefix, []);
      case Some(b) =>
        var text := request[end + 1..end + b];
        match ParseOptions(prefix + "." + request[..end], text)
        case Failed => NotPlaced(prefix, Visits(prefix, request));
        case Nodes(inner, opts) =>
          OwnOptionsOf(prefix, request[..end], text);
          NamedPlaced(prefix, Some(request[..end]), Keys(text), request[..end] + request[end + b + 1..], inner, opts);
    } else {
      NoBrackets(prefix);
      NamedPlaced(prefix, None, [], request, [], []);
    }
  }

  lemma NotPlaced(prefix: string, vs: seq<Visit>)
    ensures Placed(prefix, Failed, vs)
  {}

  lemma NoBrackets(prefix: string)
    ensures Own(prefix, None, [], [], [])
  {}

  lemma NothingPlaced(prefix: string)
    ensures Placed(prefix, NOTHING, [])
  {}

  lemma {:induction false} NamedPlaced(prefix: string, before: Option<string>, keys: seq<string>, request: string,
                                       inner: seq<Node>, opts: seq<(string, string)>)
    requires Own(prefix, before, keys, inner, opts)
    ensures Placed(prefix, ParseNamed(prefix, request, inner, opts), NamedVisits(prefix, before, keys, request))
    decreases |request|, 0
  {
    hide ParseFields, Visits, Stop, PathsOfAll, Recorded, Wanted, NamesOf, EndField, Own, ValidName, Joined, Placed, Filled;
    var stop := Stop(request, false);
    var end := if stop == 0 then |request| else stop;
    var name := request[..end];
    var v := Visit(prefix, before, name, keys);
    OwnPaths(prefix, before, keys, name, inner, opts);
    if name == "" {
      NotPlaced(prefix, NamedVisits(prefix, before, keys, request));
    } else if end == |request| {
      AlonePlaced(prefix, name, inner, opts, v);
    } else if request[end] == ',' {
      var rest := request[end + 1..];
      FieldsPlaced(prefix, rest);
      NothingPlaced(prefix + "." + name);
      PartPaths(prefix, name, inner, opts, v, NOTHING, [], ParseFields(prefix, rest), Visits(prefix, rest));
      assert [] + Visits(prefix, rest) == Visits(prefix, rest);
    } else if request[end] == '.' {
      var below := request[end + 1..];
      if below == "" {
        NotPlaced(prefix, NamedVisits(prefix, before, keys, request));
      } else {
        match EndField(below)
        case None => NotPlaced(prefix, NamedVisits(prefix, before, keys, request));
        case Some(e) =>
          FieldsPlaced(prefix + "." + name, below[..e]);
          if e + 1 >= |below| { NothingPlaced(prefix); } else { FieldsPlaced(prefix, below[e + 1..]); }
          PartPaths(prefix, name, inner, opts, v, ParseFields(prefix + "." + name, below[..e]), Visits(prefix + "." + name, below[..e]),
                    if e + 1 >= |below| then NOTHING else ParseFields(prefix, below[e + 1..]),
                    if e + 1 >= |below| then [] else Visits(prefix, below[e + 1..]));
      }
    } else {
      match EndField(request)
      case None => NotPlaced(prefix, NamedVisits(prefix, before, keys, request));
      case Some(e) =>
        if end + 1 >= e - 1 {
          NotPlaced(prefix, NamedVisits(prefix, before, keys, request));
        } else {
          var sub := request[end + 1..e - 1];
          FieldsPlaced(prefix + "." + name, sub);
          if e + 1 >= |request| { NothingPlaced(prefix); } else { FieldsPlaced(prefix, request[e + 1..]); }
          PartPaths(prefix, name, inner, opts, v, ParseFields(prefix + "." + name, sub), Visits(prefix + "." + name, sub),
                    if e + 1 >= |request| then NOTHING else ParseFields(prefix, request[e + 1..]),
                    if e + 1 >= |request| then [] else Visits(prefix, request[e + 1..]));
        }
    }
  }

  lemma AlonePlaced(prefix: string, name: string, inner: seq<Node>, opts: seq<(string, string)>, v: Visit)
    requires v.name == name && Filled([v])
    requires Recorded([v]) == NamesOf(opts) && Wanted([v]) == PathsOfAll(prefix + "." + name, inner)
    ensures Placed(prefix, Nodes([Node(name, inner)], opts), [v])
  {
    hide Recorded, Wanted, NamesOf, Filled, PathsOf;
    if Unreserved([v]) {
      NotReserved(v);
      var ns := [Node(name, inner)];
      NodePaths(prefix, ns[0]);
      assert ns[1..] == [] && PathsOfAll(prefix, []) == [];
      assert PathsOfAll(prefix + "." + name, inner) + [] == PathsOfAll(prefix + "." + name, inner);
    }
  }

  // ----- when options are recorded under their own names -----

  lemma SameTail(a: string, b: string, c: string)
    ensures a + c == b + c <==> a == b
  {
    if a + c == b + c { assert (a + c)[..|a|] == a && (b + c)[..|b|] == b; }
  }

  lemma SameHead(a: string, b: string, c: string)
    ensures c + a == c + b <==> a == b
  {
    if c + a == c + b { assert (c + a)[|c|..] == a && (c + b)[|c|..] == b; }
  }

  lemma OptionName(a: string, n: string)
    ensures a + "." + OPTIONS + "." + n == a + ("." + OPTIONS + "." + n)
  {}

  lemma SameNamed(a: string, b: string, keys: seq<string>)
    requires keys != []
    ensures Named(a, keys) == Named(b, keys) <==> a == b
  {
    var n := keys[0];
    OptionName(a, n);
    OptionName(b, n);
    SameTail(a, b, "." + OPTIONS + "." + n);
    assert Named(a, keys)[0] == Named(b, keys)[0] <==> a == b;
  }

  lemma {:induction false} RecordedIsWanted(vs: seq<Visit>)
    requires Filled(vs)
    ensures |Recorded(vs)| == |Wanted(vs)|
    ensures Recorded(vs) == Wanted(vs) <==> Tidy(vs)
    decreases |vs|
  {
    hide Named;
    if vs != [] {
      var v, rest := vs[0], vs[1..];
      assert forall i | 0 <= i < |rest| :: rest[i] == vs[i + 1];
      RecordedIsWanted(rest);
      FirstTidy(vs);
      match v.before
      case None => SamePieces([], Recorded(rest), [], Wanted(rest));
      case Some(b) =>
        NamedLength(v.prefix + "." + b, v.keys);
        NamedLength(v.prefix + "." + v.name, v.keys);
        SameNamed(v.prefix + "." + b, v.prefix + "." + v.name, v.keys);
        SameHead(b, v.name, v.prefix + ".");
        SamePieces(Named(v.prefix + "." + b, v.keys), Recorded(rest), Named(v.prefix + "." + v.name, v.keys), Wanted(rest));
    }
  }

  lemma FirstTidy(vs: seq<Visit>)
    requires vs != []
    ensures Tidy(vs) <==> (vs[0].before.Some? ==> vs[0].before.value == vs[0].name) && Tidy(vs[1..])
  {
    assert forall i | 0 < i < |vs| :: vs[i] == vs[1..][i - 1];
  }

  lemma NamedLength(prefix: string, keys: seq<string>)
    ensures |Named(prefix, keys)| == |keys|
  {}

  /** For every request that is accepted and has no field named like the node for options: each
      option is recorded under the full name of the leaf that is made for it if and only if
      nothing but the end of the name follows any closing bracket. */
  lemma OptionsPlacedIffTidy(prefix: string, request: string)
    requires ParseFields(prefix, request).Nodes? && Unreserved(Visits(prefix, request))
    ensures var r := ParseFields(prefix, request);
      && |PathsOfAll(prefix, r.nodes)| == |r.options|
      && (NamesOf(r.options) == PathsOfAll(prefix, r.nodes) <==> Tidy(Visits(prefix, request)))
  {
    hide ParseFields, Visits, Recorded, Wanted, PathsOfAll, Tidy, Filled, Unreserved;
    FieldsPlaced(prefix, request);
    RecordedIsWanted(Visits(prefix, request));
  }

  // ----- when options are found -----

  lemma {:induction false} JoinSplit(s: string)
    ensures Join(Split(s)) == s
    decreases |s|
  {
    hide Head;
    var h := Head(s);
    if |h| < |s| {
      var rest := s[|h| + 1..];
      JoinSplit(rest);
      JoinMore(h, Split(rest));
      SplitAtDot(s, h, rest);
    }
  }

  lemma SplitAtDot(s: string, h: string, rest: string)
    requires |h| < |s| && h == s[..|h|] && s[|h|] == '.' && rest == s[|h| + 1..]
    ensures h + "." + rest == s
  {}

  /** The only strings in the type are those that are made for options. */
  lemma {:induction false} StringIsLeaf(base: Path, ns: seq<Node>, p: Path, k: nat)
    requires base != [] && p != [] && Fields.FindIn(MembersFor(ns), p) == Some(k) && k < SizeAll(MembersFor(ns))
    requires NodeIn(MembersFor(ns), k) == Scalar(PvString)
    ensures Join(base + p) in PathsOfAll(Join(base), ns)
    decreases ns
  {
    hide Join, PathsOf;
    var n, ms := ns[0], MembersFor(ns);
    assert ms[1..] == MembersFor(ns[1..]);
    if n.name == p[0] {
      PathFindOpt(FieldFor(n), p[1..]);
      if n.name == OPTIONS {
        OptionIsLeaf(base, n, p, k);
      } else {
        assert p == [n.name] + p[1..] && base + p == base + [n.name] + p[1..];
        JoinSnoc(base, n.name);
        NodeType(n);
        BelowIsLeaf(p[1..], n.nodes, k);
        StringIsLeaf(base + [n.name], n.nodes, p[1..], k - 1);
        NodePaths(Join(base), n);
      }
    } else {
      StringIsLeaf(base, ns[1..], p, k - Size(FieldFor(n)));
    }
  }

  lemma BelowIsLeaf(p: Path, ns: seq<Node>, k: nat)
    requires Fields.Find(StructureFor(ns), p) == Some(k) && k < Size(StructureFor(ns))
    requires NodeAt(StructureFor(ns), k) == Scalar(PvString)
    ensures p != [] && k > 0 && Fields.FindIn(MembersFor(ns), p) == Some(k - 1) && k - 1 < SizeAll(MembersFor(ns))
    ensures NodeIn(MembersFor(ns), k - 1) == Scalar(PvString)
  {}

  lemma OptionIsLeaf(base: Path, n: Node, p: Path, k: nat)
    requires base != [] && p != [] && n.name == OPTIONS == p[0]
    requires Fields.Find(FieldFor(n), p[1..]) == Some(k) && k < Size(FieldFor(n)) && NodeAt(FieldFor(n), k) == Scalar(PvString)
    ensures Join(base + p) in PathsOf(Join(base), n)
  {
    hide Join;
    assert p[1..] != [];
    var i := OptionFound(n.nodes, p[1..], k - 1);
    assert p == [OPTIONS] + p[1..] == [OPTIONS, n.nodes[i].name];
    JoinSnoc(base, OPTIONS);
    JoinSnoc(base + [OPTIONS], n.nodes[i].name);
    assert base + [OPTIONS] + [n.nodes[i].name] == base + p;
    assert PathsOf(Join(base), n)[i] == Join(base + p);
  }

  lemma {:induction false} OptionFound(ns: seq<Node>, p: Path, k: nat) returns (i: nat)
    requires p != [] && Fields.FindIn(OptionMembers(ns), p) == Some(k)
    ensures i < |ns| && p == [ns[i].name]
    decreases |ns|
  {
    assert OptionMembers(ns)[1..] == OptionMembers(ns[1..]);
    if ns[0].name == p[0] {
      i := 0;
      assert p == [p[0]] + p[1..];
    } else {
      i := OptionFound(ns[1..], p, k - 1);
      i := i + 1;
    }
  }

  /** A name leads to a string of the type that is built exactly if it is that of a leaf. */
  lemma LeadsIffLeaf(root: string, ns: seq<Node>, name: string)
    requires ValidName(root) && Buildable(ns)
    ensures Resolves(root, ns, name) <==> name in PathsOfAll(root, ns)
  {
    hide PathsOfAll, Buildable, ValidName, Join, Split;
    if name in PathsOfAll(root, ns) {
      var i :| 0 <= i < |PathsOfAll(root, ns)| && PathsOfAll(root, ns)[i] == name;
      LeavesResolve(root, ns, i);
    }
    if Resolves(root, ns, name) {
      JoinSplit(name);
      RootIsLeaf(root, ns, Split(name));
    }
  }

  lemma RootIsLeaf(root: string, ns: seq<Node>, q: Path)
    requires IsString(RequestType(root, ns), q)
    ensures q != [] && Join(q) in PathsOfAll(root, ns)
  {
    hide PathsOfAll, MembersFor, NodeAt;
    var k := TopFound(root, StructureFor(ns), q);
    PathFindOpt(StructureFor(ns), q[1..]);
    BelowIsLeaf(q[1..], ns, k);
    StringIsLeaf([root], ns, q[1..], k - 1);
    assert [root] + q[1..] == q && Join([root]) == root;
  }

  lemma TopFound(root: string, f: Field, q: Path) returns (k: nat)
    requires IsString(Structure("structure", [Member(root, f)]), q)
    ensures q != [] && q[0] == root && Fields.Find(f, q[1..]) == Some(k) && k < Size(f) && NodeAt(f, k) == Scalar(PvString)
  {
    var ms := [Member(root, f)];
    var top := Structure("structure", ms);
    PathFindOpt(top, q);
    var j := Fields.Find(top, q).value;
    assert q != [] && ms[1..] == [] && Fields.FindIn(ms, q) == Some(j - 1) && NodeIn(ms, j - 1) == Scalar(PvString);
    assert Fields.FindIn([], q) == None;
    k := j - 1;
    PathFindOpt(f, q[1..]);
  }

  /** The value of the option can be stored under the name. */
  ghost predicate Resolves(root: string, ns: seq<Node>, name: string) {
    LookupName(RequestType(root, ns), name).Some? && IsString(RequestType(root, ns), Split(name))
  }

  /** Every option of a field stands in the brackets of some field whose full name ends where those
      brackets begin. */
  ghost predicate Matched(vs: seq<Visit>) {
    forall n | n in Recorded(vs) :: n in Wanted(vs)
  }

  /** For every request that is accepted, for which a type can be built, and that has no field named like
      the node for options: the request is not refused when the values of the options are stored if and
      only if every option is recorded under a name that some option should have. */
  lemma OptionsResolveIffMatched(root: string, request: string)
    requires ValidName(root) && ParseFields(root, request).Nodes? && Buildable(ParseFields(root, request).nodes)
    requires Unreserved(Visits(root, request))
    ensures var r := ParseFields(root, request);
      (forall i | 0 <= i < |r.options| :: Resolves(root, r.nodes, r.options[i].0)) <==> Matched(Visits(root, request))
  {
    hide ParseFields, Visits, Buildable, Unreserved, PathsOfAll, Resolves, ValidName, Recorded, Wanted, Filled;
    var r, vs := ParseFields(root, request), Visits(root, request);
    FieldsPlaced(root, request);
    forall i | 0 <= i < |r.options|
      ensures Resolves(root, r.nodes, r.options[i].0) <==> r.options[i].0 in Wanted(vs)
      ensures NamesOf(r.options)[i] == r.options[i].0
    {
      LeadsIffLeaf(root, r.nodes, r.options[i].0);
    }
    forall n | n in Recorded(vs)
      ensures exists i | 0 <= i < |r.options| :: r.options[i].0 == n
    {
      var i :| 0 <= i < |NamesOf(r.options)| && NamesOf(r.options)[i] == n;
      assert r.options[i].0 == n;
    }
  }

  lemma TidyMatched(vs: seq<Visit>)
    requires Filled(vs) && Tidy(vs)
    ensures Matched(vs)
  {
    RecordedIsWanted(vs);
  }

  /** It is enough that every name that has brackets ends at them ... */
  lemma OptionsResolve(root: string, request: string, i: nat)
    requires ValidName(root) && ParseFields(root, request).Nodes? && Buildable(ParseFields(root, request).nodes)
    requires Unreserved(Visits(root, request)) && Tidy(Visits(root, request)) && i < |ParseFields(root, request).options|
    ensures var r := ParseFields(root, request);
      && LookupName(RequestType(root, r.nodes), r.options[i].0).Some?
      && IsString(RequestType(root, r.nodes), Split(r.options[i].0))
  {
    hide ParseFields, Visits, Buildable, Unreserved, Tidy, PathsOfAll, LookupName, IsString, ValidName, Recorded, Wanted, Filled;
    FieldsPlaced(root, request);
    TidyMatched(Visits(root, request));
    OptionsResolveIffMatched(root, request);
    assert Resolves(root, ParseFields(root, request).nodes, ParseFields(root, request).options[i].0);
  }

  /** ... and more than is needed: an option that strays may find a place made for another. */
  lemma StrayVisits(prefix: string, a: string, b: string, key: string)
    requires a != b
    ensures var vs := [Visit(prefix, Some(a), b, [key]), Visit(prefix, Some(a), a, [key])];
      !Tidy(vs) && Matched(vs)
  {
    var v, w := Visit(prefix, Some(a), b, [key]), Visit(prefix, Some(a), a, [key]);
    var vs := [v, w];
    assert vs == [v] + [w] && vs[0].before.value != vs[0].name;
    NamesOfBoth([v], [w]);
    OneVisit(v);
    OneVisit(w);
  }

  /** Brackets in the middle of the name `a` + `b`, and the same brackets at the end of the name `a`. */
  function StrayText(a: string, b: string, key: string, v: string, w: string): string {
    a + ("[" + (key + "=" + v) + "]" + (b + ("," + (a + ("[" + (key + "=" + w) + "]" + "")))))
  }

  /** Such a text is accepted and not tidy, and its request is not refused: both options are stored in the
      place of the second. */
  lemma StrayIsMatched(root: string, a: string, b: string, key: string, v: string, w: string)
    requires ValidName(root) && ValidName(a) && ValidName(a + b) && b != "" && a != OPTIONS && a + b != OPTIONS
    requires ProperPair((key, v)) && ProperPair((key, w))
    ensures var text, name := StrayText(a, b, key, v, w), root + "." + a + "." + OPTIONS + "." + key;
      var inner := [Node(OPTIONS, [Node(key, [])])];
      && ParseFields(root, text) == Nodes([Node(a + b, inner), Node(a, inner)], [(name, v), (name, w)])
      && !Tidy(Visits(root, text))
      && Resolves(root, [Node(a + b, inner), Node(a, inner)], name)
  {
    hide ParseFields, Visits, Buildable, Unreserved, PathsOfAll, Resolves, ValidName, ProperPair, Matched, Tidy;
    var inner, text := [Node(OPTIONS, [Node(key, [])])], StrayText(a, b, key, v, w);
    var ns, name := [Node(a + b, inner), Node(a, inner)], root + "." + a + "." + OPTIONS + "." + key;
    OnePair(root, a, key, v);
    StrayParsed(root, a, b, key, v, w);
    StrayVisits(root, a, a + b, key);
    StrayBuildable(a, b, key);
    assert Unreserved(Visits(root, text)) by { TwoUnreserved(root, a, b, key); }
    OptionsResolveIffMatched(root, text);
    var r := ParseFields(root, text);
    assert Resolves(root, r.nodes, r.options[0].0);
  }

  lemma TwoUnreserved(root: string, a: string, b: string, key: string)
    requires a != OPTIONS && a + b != OPTIONS
    ensures Unreserved([Visit(root, Some(a), a + b, [key]), Visit(root, Some(a), a, [key])])
  {}

  lemma StrayBuildable(a: string, b: string, key: string)
    requires ValidName(a) && ValidName(a + b) && b != "" && ValidName(key)
    ensures var inner := [Node(OPTIONS, [Node(key, [])])]; Buildable([Node(a + b, inner), Node(a, inner)])
  {
    hide ValidName;
    var inner := [Node(OPTIONS, [Node(key, [])])];
    var ns := [Node(a + b, inner), Node(a, inner)];
    OptionsValid();
    OneBuildable(Node(key, []));
    OneBuildable(inner[0]);
    OneBuildable(Node(a, inner));
    assert ns[1..] == [Node(a, inner)] && |a + b| > |a|;
    assert NodeNames(ns[1..]) == {a};
  }

  lemma OptionsValid()
    ensures ValidName(OPTIONS)
  {}

  lemma OneBuildable(n: Node)
    requires ValidName(n.name) && Buildable(n.nodes)
    ensures Buildable([n])
  {
    assert [n][1..] == [] && n.name !in NodeNames([]);
  }

  /** A single option. */
  lemma OnePair(prefix: string, a: string, key: string, v: string)
    requires ProperPair((key, v))
    ensures var text := key + "=" + v;
      && ParseOptions(prefix + "." + a, text)
         == Nodes([Node(OPTIONS, [Node(key, [])])], [(prefix + "." + a + "." + OPTIONS + "." + key, v)])
      && Keys(text) == [key] && ValidName(key)
      && text != "" && ']' !in text
  {
    hide ParseOptions;
    var ps, text := [(key, v)], key + "=" + v;
    assert PairsText(ps) == text;
    assert ps[1..] == [];
    assert OptionNodes(ps) == [Node(key, [])] by { assert OptionNodes([]) == []; }
    assert OwnOptions(prefix + "." + a, ps) == [(prefix + "." + a + "." + OPTIONS + "." + key, v)] by {
      assert OwnOptions(prefix + "." + a, []) == [];
    }
    OptionsRoundTrip(prefix + "." + a, ps);
    OwnOptionsOf(prefix, a, text);
    assert |Keys(text)| == 1 && Keys(text)[0] == key;
  }

  lemma VisitBrackets(prefix: string, name: string, inside: string, tail: string)
    requires ValidName(name) && inside != "" && ']' !in inside
    ensures Visits(prefix, name + ("[" + inside + "]" + tail)) == NamedVisits(prefix, Some(name), Keys(inside), name + tail)
  {
    hide NamedVisits, BracketEnd, Stop, ValidName, Keys;
    NameStops(name, "[" + inside + "]" + tail);
    BracketsEnd(inside, tail);
    Slices(name, inside, tail);
  }

  /** A name and a comma. */
  lemma CommaAfter(prefix: string, name: string, rest: string, before: Option<string>, keys: seq<string>,
                   inner: seq<Node>, opts: seq<(string, string)>)
    requires ValidName(name)
    ensures ParseNamed(prefix, name + ("," + rest), inner, opts) == Joined(name, inner, opts, NOTHING, ParseFields(prefix, rest))
    ensures NamedVisits(prefix, before, keys, name + ("," + rest)) == [Visit(prefix, before, name, keys)] + Visits(prefix, rest)
  {
    hide ParseFields, Visits, ValidName, Stop, Joined;
    NameFirst(name, "," + rest);
    assert ("," + rest)[1..] == rest;
  }

  /** A name at the end. */
  lemma NameAtEnd(prefix: string, name: string, before: Option<string>, keys: seq<string>)
    requires ValidName(name)
    ensures NamedVisits(prefix, before, keys, name) == [Visit(prefix, before, name, keys)]
  {
    hide Visits, ValidName, Stop;
    NameFirst(name, "");
    assert name + "" == name;
  }

  lemma StrayParsed(root: string, a: string, b: string, key: string, v: string, w: string)
    requires ValidName(a) && ValidName(a + b) && ProperPair((key, v)) && ProperPair((key, w))
    ensures var text, name := StrayText(a, b, key, v, w), root + "." + a + "." + OPTIONS + "." + key;
      var inner := [Node(OPTIONS, [Node(key, [])])];
      && ParseFields(root, text) == Nodes([Node(a + b, inner), Node(a, inner)], [(name, v), (name, w)])
      && Visits(root, text) == [Visit(root, Some(a), a + b, [key]), Visit(root, Some(a), a, [key])]
  {
    hide ParseFields, ParseNamed, Visits, NamedVisits, ValidName, ProperPair, ParseOptions, Keys;
    var inner, name := [Node(OPTIONS, [Node(key, [])])], root + "." + a + "." + OPTIONS + "." + key;
    var second := a + ("[" + (key + "=" + w) + "]" + "");
    OnePair(root, a, key, v);
    OnePair(root, a, key, w);
    CutBrackets(root, a, key + "=" + v, b + ("," + second), inner, [(name, v)]);
    VisitBrackets(root, a, key + "=" + v, b + ("," + second));
    CutBrackets(root, a, key + "=" + w, "", inner, [(name, w)]);
    VisitBrackets(root, a, key + "=" + w, "");
    OneName(root, a, inner, [(name, w)]);
    NameAtEnd(root, a, Some(a), [key]);
    CommaAfter(root, a + b, second, Some(a), [key], inner, [(name, v)]);
    assert a + "" == a && a + (b + ("," + second)) == a + b + ("," + second);
    assert inner + [] == inner && [(name, v)] + [] + [(name, w)] == [(name, v), (name, w)];
    assert [Node(a + b, inner)] + [Node(a, inner)] == [Node(a + b, inner), Node(a, inner)];
  }

  // ----- well-formed requests -----

  /** No field has the name that stands for options. */
  predicate Unlike(xs: seq<Item>)
    decreases xs
  {
    xs == [] || (xs[0].name != OPTIONS && Unlike(xs[0].sub) && Unlike(xs[1..]))
  }

  lemma {:induction false} OwnPathsAt(prefix: string, ps: seq<(string, string)>)
    ensures |OptionNodes(ps)| == |ps| == |OwnOptions(prefix, ps)|
    ensures forall i | 0 <= i < |ps| :: OptionNodes(ps)[i].name == ps[i].0
    ensures forall i | 0 <= i < |ps| :: OwnOptions(prefix, ps)[i].0 == prefix + "." + OPTIONS + "." + ps[i].0
    decreases |ps|
  {
    if ps != [] { OwnPathsAt(prefix, ps[1..]); }
  }

  lemma InnerPaths(prefix: string, ps: seq<(string, string)>)
    ensures PathsOfAll(prefix, Inner(ps)) == NamesOf(OwnOptions(prefix, ps))
  {
    OwnPathsAt(prefix, ps);
    if ps != [] {
      var ns := Inner(ps);
      assert ns[0] == Node(OPTIONS, OptionNodes(ps)) && ns[1..] == [] && PathsOfAll(prefix, []) == [];
      assert PathsOf(prefix, ns[0]) + [] == PathsOf(prefix, ns[0]);
    }
  }

  /** The options of a well-formed request are recorded under the full names of their leaves. */
  lemma {:induction false} ItemsPlaced(prefix: string, xs: seq<Item>)
    requires Unlike(xs)
    ensures PathsOfAll(prefix, TreesOf(xs)) == NamesOf(OptionsOfAll(prefix, xs))
    decreases xs
  {
    hide Inner, OwnOptions;
    if xs != [] {
      var x := xs[0];
      var p := prefix + "." + x.name;
      var ns := TreesOf(xs);
      InnerPaths(p, x.options);
      ItemsPlaced(p, x.sub);
      ItemsPlaced(prefix, xs[1..]);
      PathsJoin(p, Inner(x.options), TreesOf(x.sub));
      assert ns[0] == TreeOf(x) && ns[1..] == TreesOf(xs[1..]);
      NamesJoin(OwnOptions(p, x.options), OptionsOfAll(p, x.sub));
      NamesJoin(OptionsOf(prefix, x), OptionsOfAll(prefix, xs[1..]));
    }
  }

  /** So each of them leads to a string, if the names at every level differ. */
  lemma WellFormedResolve(root: string, xs: seq<Item>, i: nat)
    requires ValidName(root) && xs != [] && ProperAll(xs) && Unlike(xs) && Buildable(TreesOf(xs))
    requires i < |OptionsOfAll(root, xs)|
    ensures ParseFields(root, TextAll(xs)) == Nodes(TreesOf(xs), OptionsOfAll(root, xs))
    ensures var name := OptionsOfAll(root, xs)[i].0;
      && LookupName(RequestType(root, TreesOf(xs)), name).Some?
      && IsString(RequestType(root, TreesOf(xs)), Split(name))
  {
    hide ParseFields, TextAll, Buildable, PathsOfAll, LookupName, IsString, RequestType, Split, ValidName, ProperAll, Unlike, OptionsOfAll, TreesOf;
    FieldsRoundTrip(root, xs);
    ItemsPlaced(root, xs);
    assert NamesOf(OptionsOfAll(root, xs))[i] == PathsOfAll(root, TreesOf(xs))[i];
    LeavesResolve(root, TreesOf(xs), i);
  }

  const MISPLACED := [Node("ab", [Node(OPTIONS, [Node("x", [])])])]

  /** A request that is accepted but not tidy: the text after the brackets becomes part of the name
      of the field, and the option is recorded under a name that does not exist. */
  lemma MisplacedBrackets()
    ensures ParseFields("field", "a[x=1]b") == Nodes(MISPLACED, [("field.a._options.x", "1")])
    ensures Fields.Find(Structure("structure", MembersFor(MISPLACED)), ["a", OPTIONS, "x"]) == None
  {
    hide ParseFields, ParseNamed, ParseOptions;
    var ps := [("x", "1")];
    assert "field.a" + "." + OPTIONS + "." + "x" == "field.a._options.x";
    assert PairsText(ps) == "x=1";
    assert OptionNodes(ps) == [Node("x", [])] by { assert OptionNodes([]) == []; }
    assert OwnOptions("field.a", ps) == [("field.a" + "." + OPTIONS + "." + "x", "1")] by { assert OwnOptions("field.a", []) == []; }
    OptionsRoundTrip("field.a", ps);
    assert "field" + "." + "a" == "field.a";
    CutBrackets("field", "a", "x=1", "b", Inner(ps), OwnOptions("field.a", ps));
    assert "a" + ("[" + "x=1" + "]" + "b") == "a[x=1]b" && "a" + "b" == "ab";
    assert Inner(ps) == [Node(OPTIONS, [Node("x", [])])];
    OneName("field", "ab", Inner(ps), OwnOptions("field.a", ps));
    NotFound();
  }

  lemma OneName(prefix: string, name: string, inner: seq<Node>, opts: seq<(string, string)>)
    requires ValidName(name)
    ensures ParseNamed(prefix, name, inner, opts) == Nodes([Node(name, inner)], opts)
  {
    hide Stop, ValidName;
    NameFirst(name, "");
    assert name + "" == name;
  }

  lemma NotFound()
    ensures Fields.Find(Structure("structure", MembersFor(MISPLACED)), ["a", OPTIONS, "x"]) == None
  {
    var ms := MembersFor(MISPLACED);
    assert MISPLACED[1..] == [] && MembersFor([]) == [];
    assert |ms| == 1 && ms[0].name == "ab" && "ab" != "a";
    FindInNone(ms, ["a", OPTIONS, "x"]);
  }
}
