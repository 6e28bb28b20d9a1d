/** The request parser rebuilds every well-formed tree of fields from its text. */
module RequestLaws {
  import opened Fields
  import opened Names
  import opened Requests

  /** A requested field: options, and subfields written after a dot or in braces. */
  datatype Item = Item(name: string, options: seq<(string, string)>, sub: seq<Item>, dotted: bool)

  // ----- text -----

  function PairText(p: (string, string)): string {
    p.0 + "=" + p.1
  }

  function PairsText(ps: seq<(string, string)>): string
    requires ps != []
  {
    if |ps| == 1 then PairText(ps[0]) else PairText(ps[0]) + "," + PairsText(ps[1..])
  }

  function OptionsText(ps: seq<(string, string)>): string {
    if ps == [] then "" else "[" + PairsText(ps) + "]"
  }

  function Text(x: Item): string
    decreases x, 1
  {
    x.name + OptionsText(x.options) + SubText(x)
  }

  function SubText(x: Item): string
    decreases x, 0
  {
    if x.sub == [] then ""
    else if x.dotted then "." + Text(x.sub[0])
    else "{" + TextAll(x.sub) + "}"
  }

  function TextAll(xs: seq<Item>): string
    requires xs != []
    decreases xs, 0
  {
    if |xs| == 1 then Text(xs[0]) else Text(xs[0]) + "," + TextAll(xs[1..])
  }

  // ----- well-formed trees -----

  /** Values may not contain what ends an option or nests. */
  predicate PlainText(s: string) {
    forall i | 0 <= i < |s| :: s[i] !in {',', ']', '[', '{', '}', '(', ')', ' '}
  }

  predicate ProperPair(p: (string, string)) {
    ValidName(p.0) && PlainText(p.1)
  }

  predicate Proper(x: Item)
    decreases x, 1
  {
    ValidName(x.name) && (forall i | 0 <= i < |x.options| :: ProperPair(x.options[i])) &&
    (x.dotted ==> |x.sub| == 1) && ProperAll(x.sub)
  }

  predicate ProperAll(xs: seq<Item>)
    decreases xs, 0
  {
    xs == [] || (Proper(xs[0]) && ProperAll(xs[1..]))
  }

  // ----- what the text stands for -----

  function OptionNodes(ps: seq<(string, string)>): seq<Node> {
    if ps == [] then [] else [Node(ps[0].0, [])] + OptionNodes(ps[1..])
  }

  function Inner(ps: seq<(string, string)>): seq<Node> {
    if ps == [] then [] else [Node(OPTIONS, OptionNodes(ps))]
  }

  function TreeOf(x: Item): Node
    decreases x, 1
  {
    Node(x.name, Inner(x.options) + TreesOf(x.sub))
  }

  function TreesOf(xs: seq<Item>): seq<Node>
    decreases xs, 0
  {
    if xs == [] then [] else [TreeOf(xs[0])] + TreesOf(xs[1..])
  }

  /** The options with the full names of the fields that they belong to, in the order of the text. */
  function OwnOptions(prefix: string, ps: seq<(string, string)>): seq<(string, string)> {
    if ps == [] then [] else [(prefix + "." + OPTIONS + "." + ps[0].0, ps[0].1)] + OwnOptions(prefix, ps[1..])
  }

  function OptionsOf(prefix: string, x: Item): seq<(string, string)>
    decreases x, 1
  {
    OwnOptions(prefix + "." + x.name, x.options) + OptionsOfAll(prefix + "." + x.name, x.sub)
  }

  function OptionsOfAll(prefix: string, xs: seq<Item>): seq<(string, string)>
    decreases xs, 0
  {
    if xs == [] then [] else OptionsOf(prefix, xs[0]) + OptionsOfAll(prefix, xs[1..])
  }

  // ----- options -----

  lemma {:induction false} FindIn(u: string, c: char, t: string)
    requires c !in u
    ensures Requests.Find(u + t, c) == Add(|u|, Requests.Find(t, c))
    decreases |u|
  {
    if u == "" {
      assert u + t == t;
    } else {
      assert (u + t)[0] == u[0] && u[0] in u && (u + t)[1..] == u[1..] + t;
      FindIn(u[1..], c, t);
    }
  }

  lemma ValidNameFree(n: string)
    requires ValidName(n)
    ensures n != "" && forall c | c in n :: IsAlnum(c) || c == '_'
    ensures ',' !in n && '=' !in n && ']' !in n && '[' !in n && '.' !in n && '{' !in n && '}' !in n && ' ' !in n
  {}

  lemma PairFree(p: (string, string))
    requires ProperPair(p)
    ensures ',' !in PairText(p) && ']' !in PairText(p) && '{' !in PairText(p) && '}' !in PairText(p) && '[' !in PairText(p)
    ensures |PairText(p)| >= 2
  {
    ValidNameFree(p.0);
  }

  lemma {:induction false} PairsFree(ps: seq<(string, string)>)
    requires ps != [] && forall i | 0 <= i < |ps| :: ProperPair(ps[i])
    ensures ']' !in PairsText(ps) && '{' !in PairsText(ps) && '}' !in PairsText(ps) && '[' !in PairsText(ps)
    ensures |PairsText(ps)| >= 2
    decreases |ps|
  {
    PairFree(ps[0]);
    if |ps| > 1 { PairsFree(ps[1..]); }
  }

  function PairTexts(ps: seq<(string, string)>): seq<string> {
    if ps == [] then [] else [PairText(ps[0])] + PairTexts(ps[1..])
  }

  lemma {:induction false} SplitPairs(ps: seq<(string, string)>)
    requires ps != [] && forall i | 0 <= i < |ps| :: ProperPair(ps[i])
    ensures SplitCommas(PairsText(ps)) == PairTexts(ps)
    decreases |ps|
  {
    hide PairText;
    PairFree(ps[0]);
    var u := PairText(ps[0]);
    if |ps| == 1 {
      FindIn(u, ',', "");
      assert u + "" == u;
      assert PairTexts(ps[1..]) == [];
    } else {
      var t := PairsText(ps[1..]);
      var s := u + ("," + t);
      assert PairsText(ps) == s;
      FindIn(u, ',', "," + t);
      assert s[..|u|] == u && s[|u| + 1..] == t;
      SplitPairs(ps[1..]);
    }
  }

  lemma {:induction false} ParsePairTexts(prefix: string, ps: seq<(string, string)>)
    requires forall i | 0 <= i < |ps| :: ProperPair(ps[i])
    ensures ParsePairs(prefix, PairTexts(ps)) == Nodes(OptionNodes(ps), OwnOptions(prefix, ps))
    decreases |ps|
  {
    if ps != [] {
      var items := PairTexts(ps);
      assert items[0] == PairText(ps[0]) && items[1..] == PairTexts(ps[1..]);
      OnePair(ps[0]);
      ParsePairTexts(prefix, ps[1..]);
    }
  }

  lemma OnePair(p: (string, string))
    requires ProperPair(p)
    ensures Requests.Find(PairText(p), '=') == Some(|p.0|) && |p.0| > 0 && |p.0| < |PairText(p)|
    ensures PairText(p)[..|p.0|] == p.0 && PairText(p)[|p.0| + 1..] == p.1
  {
    ValidNameFree(p.0);
    FindIn(p.0, '=', "=" + p.1);
    assert PairText(p) == p.0 + ("=" + p.1);
  }

  lemma OptionsRoundTrip(prefix: string, ps: seq<(string, string)>)
    requires ps != [] && forall i | 0 <= i < |ps| :: ProperPair(ps[i])
    ensures ParseOptions(prefix, PairsText(ps)) == Nodes(Inner(ps), OwnOptions(prefix, ps))
  {
    hide PairsText, ParsePairs;
    PairsFree(ps);
    SplitPairs(ps);
    ParsePairTexts(prefix, ps);
  }

  // ----- scanning over a printed field -----

  lemma {:induction false} StopAt(n: string, t: string, brackets: bool)
    requires (forall i | 0 <= i < |n| :: !Special(n[i]) && n[i] != '[')
    requires t == "" || Special(t[0]) || (brackets && t[0] == '[')
    ensures Stop(n + t, brackets) == |n|
    decreases |n|
  {
    if n == "" {
      assert n + t == t;
    } else {
      assert (n + t)[0] == n[0] && (n + t)[1..] == n[1..] + t;
      StopAt(n[1..], t, brackets);
    }
  }

  /** Text without braces is passed over. */
  lemma {:induction false} ScanPlain(u: string, t: string, n: nat)
    requires '{' !in u && '}' !in u
    ensures Scan(u + t, n) == Add(|u|, Scan(t, n))
    decreases |u|
  {
    if u == "" {
      assert u + t == t;
    } else {
      assert (u + t)[0] == u[0] && u[0] in u && (u + t)[1..] == u[1..] + t;
      ScanPlain(u[1..], t, n);
    }
  }

  lemma OptionsTextPlain(ps: seq<(string, string)>)
    requires forall i | 0 <= i < |ps| :: ProperPair(ps[i])
    ensures '{' !in OptionsText(ps) && '}' !in OptionsText(ps)
  {
    if ps != [] { PairsFree(ps); }
  }

  lemma {:induction false} ScanItem(x: Item, t: string, n: nat)
    requires Proper(x) && n >= 1
    ensures Scan(Text(x) + t, n) == Add(|Text(x)|, Scan(t, n))
    decreases x, 1
  {
    hide Scan, Text, TextAll, OptionsText, Proper;
    ItemParts(x);
    OptionsTextPlain(x.options);
    ValidNameFree(x.name);
    var u := x.name + OptionsText(x.options);
    assert Text(x) + t == u + (SubText(x) + t);
    ScanPlain(u, SubText(x) + t, n);
    ScanSub(x, t, n);
  }

  lemma ItemParts(x: Item)
    requires Proper(x)
    ensures Text(x) == x.name + OptionsText(x.options) + SubText(x)
    ensures ValidName(x.name) && (forall i | 0 <= i < |x.options| :: ProperPair(x.options[i])) && ProperAll(x.sub)
    ensures x.dotted ==> |x.sub| == 1 && Proper(x.sub[0])
  {}

  lemma ScanFirst(c: char, w: string, n: nat)
    requires n >= 1
    ensures Scan([c] + w, n) ==
      if c == '{' then Add(1, Scan(w, n + 1))
      else if c == '}' then (if n == 1 then Some(0) else Add(1, Scan(w, n - 1)))
      else Add(1, Scan(w, n))
  {
    assert ([c] + w)[1..] == w;
  }

  lemma AddTwice(a: nat, b: nat, r: Option<nat>)
    ensures Add(a, Add(b, r)) == Add(a + b, r) && Add(0, r) == r
  {}

  lemma NoSub(x: Item, t: string)
    requires x.sub == []
    ensures SubText(x) + t == t && |SubText(x)| == 0
  {}

  lemma DottedSub(x: Item, t: string)
    requires x.sub != [] && x.dotted
    ensures SubText(x) + t == ['.'] + (Text(x.sub[0]) + t) && |SubText(x)| == 1 + |Text(x.sub[0])|
  {
    hide Text;
  }

  lemma BracedSub(x: Item, t: string)
    requires x.sub != [] && !x.dotted
    ensures SubText(x) + t == ['{'] + (TextAll(x.sub) + (['}'] + t)) && |SubText(x)| == 2 + |TextAll(x.sub)|
  {
    hide Text, TextAll;
  }

  lemma {:induction false} ScanSub(x: Item, t: string, n: nat)
    requires Proper(x) && n >= 1
    ensures Scan(SubText(x) + t, n) == Add(|SubText(x)|, Scan(t, n))
    decreases x, 0
  {
    hide Text, TextAll, Proper, Scan, SubText, Add;
    ItemParts(x);
    if x.sub == [] {
      NoSub(x, t);
      AddTwice(0, 0, Scan(t, n));
    } else if x.dotted {
      var w := Text(x.sub[0]) + t;
      DottedSub(x, t);
      ScanFirst('.', w, n);
      ScanItem(x.sub[0], t, n);
      AddTwice(1, |Text(x.sub[0])|, Scan(t, n));
    } else {
      var w := ['}'] + t;
      BracedSub(x, t);
      ScanFirst('{', TextAll(x.sub) + w, n);
      ScanAll(x.sub, w, n + 1);
      ScanFirst('}', t, n + 1);
      AddTwice(1, |TextAll(x.sub)|, Add(1, Scan(t, n)));
      AddTwice(1 + |TextAll(x.sub)|, 1, Scan(t, n));
    }
  }

  lemma {:induction false} ScanAll(xs: seq<Item>, t: string, n: nat)
    requires xs != [] && ProperAll(xs) && n >= 1
    ensures Scan(TextAll(xs) + t, n) == Add(|TextAll(xs)|, Scan(t, n))
    decreases xs, 0
  {
    hide Text, Proper;
    if |xs| == 1 {
      ScanItem(xs[0], t, n);
    } else {
      var more := TextAll(xs[1..]) + t;
      assert TextAll(xs) + t == Text(xs[0]) + ("," + more);
      ScanItem(xs[0], "," + more, n);
      assert ("," + more)[1..] == more;
      ScanAll(xs[1..], t, n);
    }
  }

  // ----- finding the end of a printed field -----

  lemma EndFirst(c: char, w: string)
    requires c != ',' && c != '[' && c != '{'
    ensures EndField([c] + w) == Add(1, EndField(w))
  {
    assert ([c] + w)[1..] == w;
  }

  lemma {:induction false} EndPlain(u: string, t: string)
    requires ',' !in u && '[' !in u && '{' !in u
    ensures EndField(u + t) == Add(|u|, EndField(t))
    decreases |u|
  {
    hide EndField;
    if u == "" {
      assert u + t == t;
    } else {
      assert u + t == [u[0]] + (u[1..] + t) && u[0] in u;
      EndFirst(u[0], u[1..] + t);
      EndPlain(u[1..], t);
    }
  }

  lemma BracketsEnd(x: string, t: string)
    requires x != "" && ']' !in x
    ensures BracketEnd("[" + x + "]" + t) == Some(|x| + 1)
  {
    var s := "[" + x + "]" + t;
    assert s[1..] == x + ("]" + t);
    FindIn(x, ']', "]" + t);
  }

  lemma EndBrackets(x: string, t: string)
    requires x != "" && ']' !in x
    ensures EndField("[" + x + "]" + t) == Add(|x| + 2, EndField(t))
  {
    hide BracketEnd;
    var s := "[" + x + "]" + t;
    BracketsEnd(x, t);
    assert s[|x| + 2..] == t;
  }

  lemma BracesAround(y: string, t: string)
    ensures ("{" + y + "}" + t)[1..] == y + (['}'] + t) && ("{" + y + "}" + t)[|y| + 2..] == t
  {}

  lemma EndBraces(y: string, t: string)
    requires Scan(y + (['}'] + t), 1) == Some(|y|)
    ensures EndField("{" + y + "}" + t) == Add(|y| + 2, EndField(t))
  {
    hide Scan, Add;
    var s := "{" + y + "}" + t;
    BracesAround(y, t);
    assert s[0] == '{' && |s| >= |y| + 2;
  }

  lemma {:induction false} EndItem(x: Item, t: string)
    requires Proper(x)
    ensures EndField(Text(x) + t) == Add(|Text(x)|, EndField(t))
    decreases x, 1
  {
    hide EndField, Text, TextAll, OptionsText, Proper;
    ItemParts(x);
    ValidNameFree(x.name);
    assert Text(x) + t == x.name + (OptionsText(x.options) + (SubText(x) + t));
    EndPlain(x.name, OptionsText(x.options) + (SubText(x) + t));
    EndOptions(x.options, SubText(x) + t);
    EndSub(x, t);
  }

  lemma EndOptions(ps: seq<(string, string)>, t: string)
    requires forall i | 0 <= i < |ps| :: ProperPair(ps[i])
    ensures EndField(OptionsText(ps) + t) == Add(|OptionsText(ps)|, EndField(t))
  {
    hide EndField, PairsText;
    if ps == [] {
      assert OptionsText(ps) + t == t;
    } else {
      PairsFree(ps);
      EndBrackets(PairsText(ps), t);
    }
  }

  lemma {:induction false} EndSub(x: Item, t: string)
    requires Proper(x)
    ensures EndField(SubText(x) + t) == Add(|SubText(x)|, EndField(t))
    decreases x, 0
  {
    hide Text, TextAll, Proper, EndField, Scan;
    ItemParts(x);
    if x.sub == [] {
      assert SubText(x) + t == t;
    } else if x.dotted {
      var w := Text(x.sub[0]) + t;
      assert SubText(x) + t == ['.'] + w;
      EndFirst('.', w);
      EndItem(x.sub[0], t);
    } else {
      BracesClose(x.sub, t);
      EndBraces(TextAll(x.sub), t);
    }
  }

  /** The brace after the printed subfields is the matching one. */
  lemma BracesClose(xs: seq<Item>, t: string)
    requires xs != [] && ProperAll(xs)
    ensures Scan(TextAll(xs) + (['}'] + t), 1) == Some(|TextAll(xs)|)
  {
    hide Scan, TextAll;
    ScanAll(xs, ['}'] + t, 1);
    ScanFirst('}', t, 1);
  }

  // ----- one step of the parser -----

  lemma StepOptions(prefix: string, request: string, end: nat, b: nat, inner: seq<Node>, opts: seq<(string, string)>)
    requires end < |request| && Stop(request, true) == end && request[end] == '['
    requires BracketEnd(request[end..]) == Some(b)
    requires ParseOptions(prefix + "." + request[..end], request[end + 1..end + b]) == Nodes(inner, opts)
    ensures ParseFields(prefix, request) == ParseNamed(prefix, request[..end] + request[end + b + 1..], inner, opts)
  {
    hide ParseNamed, ParseOptions, BracketEnd, Stop;
  }

  lemma StepNoOptions(prefix: string, request: string)
    requires var end := Stop(request, true); end == |request| || request[end] != '['
    ensures ParseFields(prefix, request) == ParseNamed(prefix, request, [], [])
  {
    hide ParseNamed, ParseOptions, BracketEnd, Stop;
  }

  lemma StepDot(prefix: string, request: string, end: nat, below: string, e: nat, inner: seq<Node>, opts: seq<(string, string)>)
    requires 0 < end < |request| && Stop(request, false) == end && request[end] == '.'
    requires below == request[end + 1..] && below != "" && EndField(below) == Some(e)
    ensures ParseNamed(prefix, request, inner, opts) ==
      Joined(request[..end], inner, opts, ParseFields(prefix + "." + request[..end], below[..e]),
             if e + 1 >= |below| then NOTHING else ParseFields(prefix, below[e + 1..]))
  {
    hide ParseFields, Joined, EndField, Stop;
  }

  lemma StepBrace(prefix: string, request: string, end: nat, e: nat, inner: seq<Node>, opts: seq<(string, string)>)
    requires 0 < end < |request| && Stop(request, false) == end && request[end] == '{'
    requires EndField(request) == Some(e) && end + 1 < e - 1
    ensures ParseNamed(prefix, request, inner, opts) ==
      Joined(request[..end], inner, opts, ParseFields(prefix + "." + request[..end], request[end + 1..e - 1]),
             if e + 1 >= |request| then NOTHING else ParseFields(prefix, request[e + 1..]))
  {
    hide ParseFields, Joined, EndField, Stop;
  }

  // ----- round trip -----

  /** What follows the text of the first field. */
  function More(xs: seq<Item>): string
    requires xs != []
  {
    if |xs| == 1 then "" else "," + TextAll(xs[1..])
  }

  lemma Slices(a: string, inside: string, tail: string)
    ensures var s := a + ("[" + inside + "]" + tail); var b := |inside| + 1;
      && s[..|a|] == a && s[|a|..] == "[" + inside + "]" + tail
      && s[|a| + 1..|a| + b] == inside && s[|a| + b + 1..] == tail
  {}

  lemma NameStops(name: string, t: string)
    requires ValidName(name) && (t == "" || Special(t[0]) || t[0] == '[')
    ensures Stop(name + t, true) == |name|
  {
    hide Stop;
    ValidNameFree(name);
    assert forall i | 0 <= i < |name| :: name[i] in name;
    StopAt(name, t, true);
  }

  lemma CutBrackets(prefix: string, name: string, inside: string, tail: string, inner: seq<Node>, opts: seq<(string, string)>)
    requires ValidName(name) && inside != "" && ']' !in inside
    requires ParseOptions(prefix + "." + name, inside) == Nodes(inner, opts)
    ensures ParseFields(prefix, name + ("[" + inside + "]" + tail)) == ParseNamed(prefix, name + tail, inner, opts)
  {
    hide ParseNamed, ParseFields, ParseOptions, BracketEnd, Stop, ValidName;
    var request := name + ("[" + inside + "]" + tail);
    NameStops(name, "[" + inside + "]" + tail);
    BracketsEnd(inside, tail);
    Slices(name, inside, tail);
    StepOptions(prefix, request, |name|, |inside| + 1, inner, opts);
  }

  /** Cutting the options out of the text. */
  lemma CutOptions(prefix: string, name: string, ps: seq<(string, string)>, tail: string)
    requires ValidName(name) && forall i | 0 <= i < |ps| :: ProperPair(ps[i])
    requires tail == "" || Special(tail[0])
    ensures ParseFields(prefix, name + OptionsText(ps) + tail)
            == ParseNamed(prefix, name + tail, Inner(ps), OwnOptions(prefix + "." + name, ps))
  {
    hide ParseNamed, ParseFields, PairsText, ParseOptions, Stop, ValidName, ProperPair, Inner, OwnOptions;
    if ps == [] {
      assert name + OptionsText(ps) + tail == name + tail;
      NameStops(name, tail);
      StepNoOptions(prefix, name + tail);
      NoOptions(prefix + "." + name);
    } else {
      PairsFree(ps);
      OptionsRoundTrip(prefix + "." + name, ps);
      CutBrackets(prefix, name, PairsText(ps), tail, Inner(ps), OwnOptions(prefix + "." + name, ps));
      assert name + OptionsText(ps) + tail == name + ("[" + PairsText(ps) + "]" + tail);
    }
  }

  lemma NoOptions(prefix: string)
    ensures Inner([]) == [] && OwnOptions(prefix, []) == []
  {}

  lemma TailStarts(xs: seq<Item>)
    requires xs != []
    ensures SubText(xs[0]) + More(xs) == "" || Special((SubText(xs[0]) + More(xs))[0])
  {}

  /** The text of a list of fields is parsed into the trees that it was printed from, in order,
      and the options are met in order with their full names. */
  lemma {:induction false} FieldsRoundTrip(prefix: string, xs: seq<Item>)
    requires xs != [] && ProperAll(xs)
    ensures ParseFields(prefix, TextAll(xs)) == Nodes(TreesOf(xs), OptionsOfAll(prefix, xs))
    decreases xs, 1
  {
    hide ParseFields, ParseNamed, OptionsText, Inner, OwnOptions, Proper;
    var x := xs[0];
    ItemParts(x);
    var tail := SubText(x) + More(xs);
    assert TextAll(xs) == x.name + OptionsText(x.options) + tail;
    TailStarts(xs);
    CutOptions(prefix, x.name, x.options, tail);
    NamedRoundTrip(prefix, xs, Inner(x.options), OwnOptions(prefix + "." + x.name, x.options));
  }

  lemma {:induction false} NamedRoundTrip(prefix: string, xs: seq<Item>, inner: seq<Node>, opts: seq<(string, string)>)
    requires xs != [] && ProperAll(xs)
    ensures var x := xs[0];
      ParseNamed(prefix, x.name + (SubText(x) + More(xs)), inner, opts)
      == Nodes([Node(x.name, inner + TreesOf(x.sub))] + TreesOf(xs[1..]),
               opts + OptionsOfAll(prefix + "." + x.name, x.sub) + OptionsOfAll(prefix, xs[1..]))
    decreases xs, 0
  {
    hide ParseFields, ParseNamed, Proper, TextAll, Text, TreesOf, OptionsOfAll;
    var x, rest := xs[0], xs[1..];
    ItemParts(x);
    NoTrees(prefix);
    if rest != [] {
      FieldsRoundTrip(prefix, rest);
    } else {
      assert rest == [];
    }
    MoreRest(prefix, xs);
    if x.sub == [] {
      NoTrees(prefix + "." + x.name);
      NamedLeaf(prefix, x, More(xs), inner, opts);
    } else {
      FieldsRoundTrip(prefix + "." + x.name, x.sub);
      if x.dotted { NamedDotted(prefix, x, More(xs), inner, opts); } else { NamedBraces(prefix, x, More(xs), inner, opts); }
    }
    Sums(inner, TreesOf(x.sub), opts, OptionsOfAll(prefix + "." + x.name, x.sub), OptionsOfAll(prefix, rest));
  }

  lemma NoTrees(prefix: string)
    ensures TreesOf([]) == [] && OptionsOfAll(prefix, []) == []
  {}

  lemma Sums(inner: seq<Node>, cs: seq<Node>, opts: seq<(string, string)>, os: seq<(string, string)>, more: seq<(string, string)>)
    ensures inner + [] == inner && opts + [] == opts && opts + os + [] == opts + os && opts + [] + more == opts + more
  {}

  /** What parsing the other fields gives. */
  function RestOf(prefix: string, xs: seq<Item>): Result
    requires xs != []
  {
    if |xs| == 1 then NOTHING else ParseFields(prefix, TextAll(xs[1..]))
  }

  lemma NameFirst(name: string, tail: string)
    requires ValidName(name) && (tail == "" || Special(tail[0]))
    ensures var s := name + tail; var stop := Stop(s, false);
      stop == |name| > 0 && s[..|name|] == name && s[|name|..] == tail && (tail != "" ==> s[|name|] == tail[0] && s[|name| + 1..] == tail[1..])
  {
    hide Stop;
    ValidNameFree(name);
    assert forall i | 0 <= i < |name| :: name[i] in name;
    StopAt(name, tail, false);
  }

  /** The text after a field: nothing, or a comma and the other fields. */
  predicate Follows(m: string) {
    m == "" || m[0] == ','
  }

  /** What parsing the text after a field gives.  After a field with subfields a comma may be the last
      character. */
  function After(prefix: string, m: string): Result {
    if |m| <= 1 then NOTHING else ParseFields(prefix, m[1..])
  }

  lemma NamedLeaf(prefix: string, x: Item, m: string, inner: seq<Node>, opts: seq<(string, string)>)
    requires Proper(x) && x.sub == [] && Follows(m)
    ensures ParseNamed(prefix, x.name + (SubText(x) + m), inner, opts)
            == if m == "" then Nodes([Node(x.name, inner)], opts)
               else Joined(x.name, inner, opts, NOTHING, ParseFields(prefix, m[1..]))
  {
    hide ParseFields, Stop, TextAll, Proper, Joined;
    ItemParts(x);
    assert SubText(x) + m == m;
    NameFirst(x.name, m);
  }

  lemma NamedDotted(prefix: string, x: Item, m: string, inner: seq<Node>, opts: seq<(string, string)>)
    requires Proper(x) && x.sub != [] && x.dotted && Follows(m)
    ensures ParseNamed(prefix, x.name + (SubText(x) + m), inner, opts)
            == Joined(x.name, inner, opts, ParseFields(prefix + "." + x.name, TextAll(x.sub)), After(prefix, m))
  {
    hide ParseFields, ParseNamed, Stop, TextAll, Text, Proper, EndField, Joined, ValidName;
    ItemParts(x);
    var c := Text(x.sub[0]);
    OneText(x.sub);
    var tail := SubText(x) + m;
    assert tail == "." + (c + m);
    NameFirst(x.name, tail);
    assert tail[1..] == c + m;
    EndItem(x.sub[0], m);
    EndsAtComma(m);
    TextNotEmpty(x.sub[0]);
    StepDot(prefix, x.name + tail, |x.name|, c + m, |c|, inner, opts);
    Halves(c, m);
  }

  lemma Halves(c: string, m: string)
    ensures (c + m)[..|c|] == c && (c + m)[|c|..] == m && (m != "" ==> (c + m)[|c| + 1..] == m[1..])
  {}

  /** What follows the comma, if there is one. */
  lemma MoreRest(prefix: string, xs: seq<Item>)
    requires xs != [] && ProperAll(xs)
    ensures Follows(More(xs)) && After(prefix, More(xs)) == RestOf(prefix, xs)
    ensures if |xs| == 1 then More(xs) == "" else |More(xs)| > 1 && More(xs)[1..] == TextAll(xs[1..])
  {
    hide TextAll, Proper, ParseFields;
    if |xs| > 1 {
      MoreLong(xs);
      assert ("," + TextAll(xs[1..]))[1..] == TextAll(xs[1..]);
    }
  }

  lemma OneText(xs: seq<Item>)
    requires |xs| == 1
    ensures TextAll(xs) == Text(xs[0])
  {}

  lemma TextNotEmpty(x: Item)
    requires Proper(x)
    ensures Text(x) != ""
  {
    ItemParts(x);
    ValidNameFree(x.name);
  }

  lemma MoreLong(xs: seq<Item>)
    requires |xs| > 1 && ProperAll(xs)
    ensures |More(xs)| > 1
  {
    assert ProperAll(xs[1..]) && Proper(xs[1..][0]);
    TextNotEmpty(xs[1..][0]);
  }

  lemma EndsAtComma(m: string)
    requires Follows(m)
    ensures EndField(m) == Some(0)
  {}

  lemma NamedBraces(prefix: string, x: Item, m: string, inner: seq<Node>, opts: seq<(string, string)>)
    requires Proper(x) && x.sub != [] && !x.dotted && Follows(m)
    ensures ParseNamed(prefix, x.name + (SubText(x) + m), inner, opts)
            == Joined(x.name, inner, opts, ParseFields(prefix + "." + x.name, TextAll(x.sub)), After(prefix, m))
  {
    hide ParseFields, ParseNamed, Stop, TextAll, Text, Proper, EndField, Scan, Joined, ValidName;
    ItemParts(x);
    var y := TextAll(x.sub);
    var tail := SubText(x) + m;
    assert tail == "{" + y + "}" + m;
    NameFirst(x.name, tail);
    var request, end := x.name + tail, |x.name|;
    var e := end + |y| + 2;
    ValidNameFree(x.name);
    EndPlain(x.name, tail);
    BracesClose(x.sub, m);
    EndBraces(y, m);
    EndsAtComma(m);
    SubNotEmpty(x.sub);
    StepBrace(prefix, request, end, e, inner, opts);
    BraceSlices(x.name, y, m);
  }

  lemma BraceSlices(name: string, y: string, m: string)
    ensures var s := name + ("{" + y + "}" + m); var e := |name| + |y| + 2;
      && |s| == e + |m| && s[|name| + 1..e - 1] == y && (m != "" ==> s[e + 1..] == m[1..])
  {}

  lemma SubNotEmpty(xs: seq<Item>)
    requires xs != [] && ProperAll(xs)
    ensures TextAll(xs) != ""
  {
    TextNotEmpty(xs[0]);
  }

  // ----- a comma at the end -----

  lemma NothingNamed(prefix: string)
    ensures ParseFields(prefix, "") == Failed
  {}

  /** Options are accepted exactly if each of them has a name and an equals sign. */
  lemma {:induction false} PairsAcceptedIff(prefix: string, items: seq<string>)
    ensures ParsePairs(prefix, items).Nodes? <==> forall i | 0 <= i < |items| :: '=' in items[i] && items[i][0] != '='
    decreases |items|
  {
    if items != [] {
      PairsAcceptedIff(prefix, items[1..]);
      FindAt(items[0], '=');
      assert forall i | 0 < i < |items| :: items[i] == items[1..][i - 1];
    }
  }

  /** A text that begins with a special character is a name as a whole. */
  lemma LeadingSpecial(prefix: string, request: string)
    requires request != "" && (request[0] == '.' || request[0] == '{' || request[0] == ',')
    ensures ParseFields(prefix, request) == Nodes([Node(request, [])], [])
  {
    hide ParseOptions;
    assert request[..|request|] == request;
  }

  /** A comma behind the last field is refused if that field has no subfields, and makes no difference if
      it has some. */
  lemma {:induction false} TrailingComma(prefix: string, xs: seq<Item>)
    requires xs != [] && ProperAll(xs)
    ensures ParseFields(prefix, TextAll(xs) + ",")
            == if xs[|xs| - 1].sub == [] then Failed else ParseFields(prefix, TextAll(xs))
    decreases |xs|
  {
    hide ParseFields, ParseNamed, OptionsText, Inner, OwnOptions, Proper, SubText, TextAll, Text, After;
    var x := xs[0];
    ItemParts(x);
    ProperTail(xs);
    MoreText(xs);
    var inner, opts := Inner(x.options), OwnOptions(prefix + "." + x.name, x.options);
    if |xs| > 1 { TrailingComma(prefix, xs[1..]); }
    ParsedFirst(prefix, x, More(xs));
    ParsedFirst(prefix, x, More(xs) + ",");
    CommaAfter(prefix, xs);
  }

  /** The first field and what follows it. */
  function FirstOf(prefix: string, x: Item, m: string): Result {
    var inner, opts := Inner(x.options), OwnOptions(prefix + "." + x.name, x.options);
    if x.sub == [] then
      if m == "" then Nodes([Node(x.name, inner)], opts) else Joined(x.name, inner, opts, NOTHING, ParseFields(prefix, m[1..]))
    else Joined(x.name, inner, opts, ParseFields(prefix + "." + x.name, TextAll(x.sub)), After(prefix, m))
  }

  lemma ParsedFirst(prefix: string, x: Item, m: string)
    requires Proper(x) && Follows(m)
    ensures ParseFields(prefix, Text(x) + m) == FirstOf(prefix, x, m)
  {
    hide ParseFields, ParseNamed, OptionsText, Inner, OwnOptions, TextAll, Joined, After;
    ItemParts(x);
    var tail := SubText(x) + m;
    assert Text(x) + m == x.name + OptionsText(x.options) + tail;
    assert tail == "" || Special(tail[0]);
    CutOptions(prefix, x.name, x.options, tail);
    var inner, opts := Inner(x.options), OwnOptions(prefix + "." + x.name, x.options);
    if x.sub == [] { NamedLeaf(prefix, x, m, inner, opts); }
    else if x.dotted { NamedDotted(prefix, x, m, inner, opts); }
    else { NamedBraces(prefix, x, m, inner, opts); }
  }

  lemma ProperTail(xs: seq<Item>)
    requires xs != [] && ProperAll(xs)
    ensures Proper(xs[0]) && ProperAll(xs[1..]) && (|xs| > 1 ==> xs[1..][|xs[1..]| - 1] == xs[|xs| - 1])
  {}

  lemma MoreText(xs: seq<Item>)
    requires xs != []
    ensures TextAll(xs) == Text(xs[0]) + More(xs) && TextAll(xs) + "," == Text(xs[0]) + (More(xs) + ",")
    ensures Follows(More(xs)) && Follows(More(xs) + ",")
    ensures |xs| == 1 ==> More(xs) == ""
    ensures |xs| > 1 ==> More(xs) == "," + TextAll(xs[1..])
  {
    hide Text;
    if |xs| == 1 {
      Commas(Text(xs[0]), "");
    } else {
      Commas(Text(xs[0]), TextAll(xs[1..]));
    }
  }

  lemma Commas(a: string, b: string)
    ensures a + "" == a && "" + "," == "," && a + "," + b == a + ("," + b) && a + "," + b + "," == a + ("," + b + ",")
    ensures ("," + b)[0] == ',' && ("," + b + ",")[0] == ','
  {}

  lemma CommaAfter(prefix: string, xs: seq<Item>)
    requires xs != [] && ProperAll(xs)
    requires |xs| > 1 ==>
      ParseFields(prefix, TextAll(xs[1..]) + ",") == if xs[|xs| - 1].sub == [] then Failed else ParseFields(prefix, TextAll(xs[1..]))
    ensures FirstOf(prefix, xs[0], More(xs) + ",")
      == if xs[|xs| - 1].sub == [] then Failed else FirstOf(prefix, xs[0], More(xs))
  {
    hide ParseFields, OptionsText, Inner, OwnOptions, TextAll;
    MoreText(xs);
    if |xs| == 1 {
      NothingNamed(prefix);
      assert More(xs) + "," == "," && ","[1..] == "";
    } else {
      MoreLong(xs);
      assert (More(xs) + ",")[1..] == TextAll(xs[1..]) + "," && More(xs)[1..] == TextAll(xs[1..]);
    }
  }
}
