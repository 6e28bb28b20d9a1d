/** The request language of createRequest: names with options in brackets, subfields after a dot or
    in braces, separated by commas. */
module Requests {
  import opened Fields
  import opened Names

  /** A parsed field with its subfields; options are a subfield named "_options". */
  datatype Node = Node(name: string, nodes: seq<Node>)

  const OPTIONS := "_options"

  /** Parsing gives nodes and the options that were met, each with its full name, or fails. */
  datatype Result =
    | Failed
    | Nodes(nodes: seq<Node>, options: seq<(string, string)>)

  // ----- finding the end of things -----

  function Add(n: nat, r: Option<nat>): Option<nat> {
    match r
    case None => None
    case Some(k) => Some(n + k)
  }

  function Find(s: string, c: char): Option<nat> {
    if s == "" then None else if s[0] == c then Some(0) else Add(1, Find(s[1..], c))
  }

  /** The brace that closes `numOpen` open braces, character by character. */
  function Scan(s: string, numOpen: nat): (r: Option<nat>)
    ensures r.Some? ==> r.value < |s| && s[r.value] == '}'
  {
    if s == "" then None
    else if s[0] == '{' then Add(1, Scan(s[1..], numOpen + 1))
    else if s[0] == '}' then (if numOpen <= 1 then Some(0) else Add(1, Scan(s[1..], numOpen - 1)))
    else Add(1, Scan(s[1..], numOpen))
  }

  /** The bracket that closes the one at the beginning of `s`; the brackets must not be empty. */
  function BracketEnd(s: string): (r: Option<nat>)
    ensures r.Some? ==> 1 < r.value < |s| && s[r.value] == ']'
  {
    if s == "" then None
    else match Find(s[1..], ']')
      case None => None
      case Some(0) => None
      case Some(k) => FindAt(s[1..], ']'); Some(k + 1)
  }

  lemma {:induction false} FindAt(s: string, c: char)
    ensures match Find(s, c)
      case None => c !in s
      case Some(k) => k < |s| && s[k] == c && c !in s[..k]
  {
    if s != "" && s[0] != c {
      FindAt(s[1..], c);
      assert s == [s[0]] + s[1..];
      var r := Find(s[1..], c);
      if r.Some? { assert s[..r.value + 1] == [s[0]] + s[1..][..r.value]; }
    }
  }

  /** The first comma that is not inside brackets or braces, or the end. */
  function EndField(s: string): (r: Option<nat>)
    ensures r.Some? ==> r.value <= |s|
    decreases |s|
  {
    if s == "" || s[0] == ',' then Some(0)
    else if s[0] == '[' then
      match BracketEnd(s)
      case None => None
      case Some(b) => Add(b + 1, EndField(s[b + 1..]))
    else if s[0] == '{' then
      match Scan(s[1..], 1)
      case None => None
      case Some(j) => Add(j + 2, EndField(s[j + 2..]))
    else Add(1, EndField(s[1..]))
  }

  predicate Special(c: char) {
    c == '.' || c == '{' || c == ','
  }

  /** The position of the first special character. */
  function Stop(s: string, brackets: bool): (k: nat)
    ensures k <= |s|
    ensures k < |s| ==> Special(s[k]) || (brackets && s[k] == '[')
  {
    if s == "" || Special(s[0]) || (brackets && s[0] == '[') then 0 else 1 + Stop(s[1..], brackets)
  }

  // ----- options -----

  function SplitCommas(s: string): (parts: seq<string>)
    ensures parts != []
    decreases |s|
  {
    match Find(s, ',')
    case None => [s]
    case Some(k) => FindAt(s, ','); [s[..k]] + SplitCommas(s[k + 1..])
  }

  /** Each option is a name, an equals sign and a value. */
  function ParsePairs(prefix: string, items: seq<string>): Result {
    if items == [] then Nodes([], [])
    else match Find(items[0], '=')
      case None => Failed
      case Some(0) => Failed
      case Some(k) =>
        FindAt(items[0], '=');
        match ParsePairs(prefix, items[1..])
        case Failed => Failed
        case Nodes(ns, os) =>
          var name := items[0][..k];
          Nodes([Node(name, [])] + ns, [(prefix + "." + OPTIONS + "." + name, items[0][k + 1..])] + os)
  }

  /** createRequestOptions. */
  function ParseOptions(prefix: string, text: string): Result {
    if |text| <= 1 then Failed
    else match ParsePairs(prefix, SplitCommas(text))
      case Failed => Failed
      case Nodes(ns, os) => Nodes([Node(OPTIONS, ns)], os)
  }

  // ----- fields -----

  function Joined(name: string, inner: seq<Node>, opts: seq<(string, string)>, sub: Result, rest: Result): Result {
    match (sub, rest)
    case (Nodes(cs, os), Nodes(ns, more)) => Nodes([Node(name, inner + cs)] + ns, opts + os + more)
    case _ => Failed
  }

  const NOTHING := Nodes([], [])

  /** createSubNode: the fields named by `request`, below the field named `prefix`. */
  function ParseFields(prefix: string, request: string): Result
    decreases |request|, 1
  {
    var end := Stop(request, true);
    if end < |request| && request[end] == '[' then
      match BracketEnd(request[end..])
      case None => Failed
      case Some(b) =>
        match ParseOptions(prefix + "." + request[..end], request[end + 1..end + b])
        case Failed => Failed
        case Nodes(inner, opts) => ParseNamed(prefix, request[..end] + request[end + b + 1..], inner, opts)
    else ParseNamed(prefix, request, [], [])
  }

  /** createSubNode after the options have been cut out. */
  function ParseNamed(prefix: string, request: string, inner: seq<Node>, opts: seq<(string, string)>): Result
    decreases |request|, 0
  {
    var stop := Stop(request, false);
    var end := if stop == 0 then |request| else stop;
    var name := request[..end];
    if name == "" then Failed
    else if end == |request| then Nodes([Node(name, inner)], opts)
    else if request[end] == ',' then
      Joined(name, inner, opts, NOTHING, ParseFields(prefix, request[end + 1..]))
    else if request[end] == '.' then
      var below := request[end + 1..];
      if below == "" then Failed
      else match EndField(below)
        case None => Failed
        case Some(e) =>
          Joined(name, inner, opts, ParseFields(prefix + "." + name, below[..e]),
                 if e + 1 >= |below| then NOTHING else ParseFields(prefix, below[e + 1..]))
    else
      match EndField(request)
      case None => Failed
      case Some(e) =>
        if end + 1 >= e - 1 then Failed
        else
          Joined(name, inner, opts, ParseFields(prefix + "." + name, request[end + 1..e - 1]),
                 if e + 1 >= |request| then NOTHING else ParseFields(prefix, request[e + 1..]))
  }
}
