/** CreateRequestImpl: the parser as it is, with indices into the request, the full name of the
    current field and the list of options that it collects. */
module RequestParser {
  import opened Fields
  import opened Requests
  import opened RequestLaws

  // ----- what the matching brace is -----

  /** Open braces less closing braces. */
  function Depth(s: string): int {
    if s == "" then 0
    else (if s[0] == '{' then 1 else if s[0] == '}' then -1 else 0) + Depth(s[1..])
  }

  /** After the first `k` characters at least one brace is still open. */
  predicate StillOpen(s: string, numOpen: int, k: nat)
    requires k <= |s|
  {
    numOpen + Depth(s[..k]) >= 1
  }

  /** The scan finds the brace that balances the open ones: they are all closed there and not
      before.  It fails exactly when they are never closed. */
  lemma {:induction false} ScanBalances(s: string, numOpen: nat)
    requires numOpen >= 1
    ensures match Scan(s, numOpen)
      case None => forall k | 0 <= k <= |s| :: StillOpen(s, numOpen, k)
      case Some(j) =>
        && j < |s| && s[j] == '}' && numOpen + Depth(s[..j + 1]) == 0
        && forall k | 0 <= k <= j :: StillOpen(s, numOpen, k)
    decreases |s|
  {
    if s == "" {
    } else if s[0] == '}' && numOpen == 1 {
      assert s[..1] == [s[0]] && s[..0] == "" && Depth(s[..1][1..]) == 0;
    } else {
      var n := if s[0] == '{' then numOpen + 1 else if s[0] == '}' then numOpen - 1 else numOpen;
      ScanBalances(s[1..], n);
      forall k | 1 <= k <= |s|
        ensures numOpen + Depth(s[..k]) == n + Depth(s[1..][..k - 1])
      {
        assert s[..k][0] == s[0] && s[..k][1..] == s[1..][..k - 1];
      }
      forall k | 1 <= k <= |s|
        ensures StillOpen(s, numOpen, k) <==> StillOpen(s[1..], n, k - 1)
      {
      }
      var r := Scan(s[1..], n);
      if r.Some? {
        forall k | 0 <= k <= r.value + 1
          ensures StillOpen(s, numOpen, k)
        {
          if k > 0 { assert StillOpen(s[1..], n, k - 1); }
        }
      } else {
        forall k | 0 <= k <= |s|
          ensures StillOpen(s, numOpen, k)
        {
          if k > 0 { assert StillOpen(s[1..], n, k - 1); }
        }
      }
    }
  }

  /** std::string::find of a character from a position on. */
  function FindFrom(s: string, c: char, from: nat): Option<nat>
    requires from <= |s|
  {
    Add(from, Requests.Find(s[from..], c))
  }

  lemma FoundFrom(s: string, c: char, from: nat)
    requires from <= |s|
    ensures var found, r := Requests.Find(s[from..], c), FindFrom(s, c, from);
      && (r == None <==> found == None)
      && (r.Some? ==> r.value == from + found.value)
  {}

  lemma Added(n: nat, r: Option<nat>)
    ensures Add(n, r) == match r case None => None case Some(k) => Some(n + k)
  {}

  /** Nothing happens before the first brace. */
  lemma JumpTo(s: string, k: nat, n: nat)
    requires n >= 1 && k < |s| && '{' !in s[..k] && '}' !in s[..k] && (s[k] == '{' || s[k] == '}')
    ensures Scan(s, n) ==
      if s[k] == '{' then Add(k + 1, Scan(s[k + 1..], n + 1))
      else if n == 1 then Some(k)
      else Add(k + 1, Scan(s[k + 1..], n - 1))
  {
    hide Scan;
    var u, rest := s[..k], s[k + 1..];
    assert s == u + ([s[k]] + rest);
    ScanPlain(u, [s[k]] + rest, n);
    ScanFirst(s[k], rest, n);
  }

  /** The scan jumps from brace to brace. */
  lemma ScanJumps(s: string, n: nat)
    requires n >= 1
    ensures var open, close := Requests.Find(s, '{'), Requests.Find(s, '}');
      && (open.Some? ==> open.value < |s|) && (close.Some? ==> close.value < |s|)
      && Scan(s, n) ==
        if open == None && close == None then None
        else if open.Some? && (close == None || open.value < close.value)
        then Add(open.value + 1, Scan(s[open.value + 1..], n + 1))
        else if n == 1 then close
        else Add(close.value + 1, Scan(s[close.value + 1..], n - 1))
  {
    hide Scan, Requests.Find;
    FindAt(s, '{');
    FindAt(s, '}');
    var open, close := Requests.Find(s, '{'), Requests.Find(s, '}');
    if open == None && close == None {
      assert s + "" == s;
      ScanPlain(s, "", n);
      ScanNothing(n);
    } else {
      var k := if open.Some? && (close == None || open.value < close.value) then open.value else close.value;
      Part(s, k, '{');
      Part(s, k, '}');
      JumpTo(s, k, n);
    }
  }

  lemma Part(s: string, k: nat, c: char)
    requires k <= |s|
    ensures match Requests.Find(s, c) case None => c !in s[..k] case Some(j) => k <= j ==> c !in s[..k]
  {
    FindAt(s, c);
    var r := Requests.Find(s, c);
    if r.Some? && k <= r.value { assert s[..k] == s[..r.value][..k]; }
  }

  lemma ScanNothing(n: nat)
    ensures Scan("", n) == None
  {}

  lemma DropTwice(s: string, i: nat, j: nat)
    requires i + j <= |s|
    ensures s[i..][j..] == s[i + j..]
  {}

  method FindMatchingBrace(request: string, index: nat, numOpen: nat) returns (r: Option<nat>)
    requires index < |request| && numOpen >= 1
    ensures r == Add(index + 1, Scan(request[index + 1..], numOpen))
    decreases |request| - index
  {
    hide Scan, Requests.Find, Add, FindFrom;
    ghost var rest := request[index + 1..];
    ScanJumps(rest, numOpen);
    FoundFrom(request, '{', index + 1);
    FoundFrom(request, '}', index + 1);
    Added(index + 1, Requests.Find(rest, '}'));
    var openBrace := FindFrom(request, '{', index + 1);
    var closeBrace := FindFrom(request, '}', index + 1);
    if openBrace == None && closeBrace == None {
      return None;
    }
    if openBrace.Some? {
      if closeBrace == None || openBrace.value < closeBrace.value {
        DropTwice(request, index + 1, openBrace.value - index);
        AddTwice(index + 1, openBrace.value - index, Scan(request[openBrace.value + 1..], numOpen + 1));
        r := FindMatchingBrace(request, openBrace.value, numOpen + 1);
        return;
      }
    }
    if numOpen == 1 {
      return closeBrace;
    }
    DropTwice(request, index + 1, closeBrace.value - index);
    AddTwice(index + 1, closeBrace.value - index, Scan(request[closeBrace.value + 1..], numOpen - 1));
    r := FindMatchingBrace(request, closeBrace.value, numOpen - 1);
  }

  method FindMatchingBracket(request: string, index: nat) returns (r: Option<nat>)
    requires index < |request|
    ensures r == Add(index, BracketEnd(request[index..]))
  {
    hide Requests.Find;
    var rest := request[index..][1..];
    assert rest == request[index + 1..];
    FindAt(rest, ']');
    var i := index + 1;
    while i < |request|
      invariant index < i <= |request| && ']' !in rest[..i - index - 1]
    {
      assert rest[i - index - 1] == request[i];
      if request[i] == ']' {
        if i == index + 1 {
          return None;
        }
        return Some(i);
      }
      i := i + 1;
    }
    assert rest[..|rest|] == rest;
    return None;
  }

  /** The end of the first field of the request.  It jumps over brackets and braces. */
  method FindEndField(request: string) returns (r: Option<nat>)
    requires request != ""
    ensures r == EndField(request)
  {
    hide EndField, Scan, BracketEnd;
    var ind := 0;
    var maxind := |request| - 1;
    assert request[0..] == request;
    while true
      invariant 0 <= ind <= |request|
      invariant EndField(request) == Add(ind, EndField(request[ind..]))
      decreases |request| - ind
    {
      if ind == |request| {
        EndNothing();
        return Some(|request|);
      }
      EndCases(request, ind);
      if request[ind] == ',' {
        return Some(ind);
      }
      if request[ind] == '[' {
        var closeBracket := FindMatchingBracket(request, ind);
        if closeBracket == None {
          return None;
        }
        ind := closeBracket.value + 1;
        continue;
      }
      if request[ind] == '{' {
        var closeBrace := FindMatchingBrace(request, ind, 1);
        if closeBrace == None {
          return None;
        }
        ind := closeBrace.value + 1;
        continue;
      }
      if ind >= maxind {
        EndNothing();
        assert request[ind + 1..] == "";
        break;
      }
      ind := ind + 1;
    }
    return Some(|request|);
  }

  lemma EndNothing()
    ensures EndField("") == Some(0)
  {}

  lemma EndCases(request: string, ind: nat)
    requires ind < |request|
    ensures var s := request[ind..];
      && s[0] == request[ind] && s[1..] == request[ind + 1..]
      && (s[0] == ',' ==> EndField(s) == Some(0))
      && (s[0] == '[' ==> EndField(s) == match BracketEnd(s) case None => None case Some(b) => Add(b + 1, EndField(request[ind + b + 1..])))
      && (s[0] == '{' ==> EndField(s) == match Scan(s[1..], 1) case None => None case Some(j) => Add(j + 2, EndField(request[ind + j + 2..])))
      && (s[0] !in {',', '[', '{'} ==> EndField(s) == Add(1, EndField(request[ind + 1..])))
  {
    hide Scan, BracketEnd;
    var s := request[ind..];
    assert s[1..] == request[ind + 1..];
    if s[0] == '[' {
      var b := BracketEnd(s);
      if b.Some? { assert s[b.value + 1..] == request[ind + b.value + 1..]; }
    } else if s[0] == '{' {
      var j := Scan(s[1..], 1);
      if j.Some? { assert s[j.value + 2..] == request[ind + j.value + 2..]; }
    }
  }

  // ----- the parser -----

  /** More nodes and options in front of a result. */
  function Prefixed(ns: seq<Node>, os: seq<(string, string)>, r: Result): Result {
    match r
    case Failed => Failed
    case Nodes(a, b) => Nodes(ns + a, os + b)
  }

  lemma Unprefixed(r: Result)
    ensures Prefixed([], [], r) == r
  {}

  /** One more option. */
  lemma PairsStep(prefix: string, items: seq<string>, j: nat, ns: seq<Node>, os: seq<(string, string)>)
    requires j < |items|
    ensures var item := items[j];
      match Requests.Find(item, '=')
      case None => ParsePairs(prefix, items[j..]) == Failed
      case Some(0) => ParsePairs(prefix, items[j..]) == Failed
      case Some(k) =>
        && k < |item|
        && Prefixed(ns, os, ParsePairs(prefix, items[j..])) ==
           Prefixed(ns + [Node(item[..k], [])], os + [(prefix + "." + OPTIONS + "." + item[..k], item[k + 1..])],
                    ParsePairs(prefix, items[j + 1..]))
  {
    hide Requests.Find;
    FindAt(items[j], '=');
    assert items[j..][0] == items[j] && items[j..][1..] == items[j + 1..];
    var equals, r := Requests.Find(items[j], '='), ParsePairs(prefix, items[j + 1..]);
    if equals.Some? && equals.value > 0 && r.Nodes? {
      Shift(ns, Node(items[j][..equals.value], []), r.nodes);
      Shift(os, (prefix + "." + OPTIONS + "." + items[j][..equals.value], items[j][equals.value + 1..]), r.options);
    }
  }

  lemma Shift<T>(a: seq<T>, x: T, b: seq<T>)
    ensures a + ([x] + b) == a + [x] + b
  {}

  lemma PairsEnd(prefix: string, items: seq<string>, ns: seq<Node>, os: seq<(string, string)>)
    ensures Prefixed(ns, os, ParsePairs(prefix, items[|items|..])) == Nodes(ns, os)
  {
    assert items[|items|..] == [];
    assert ns + [] == ns && os + [] == os;
  }

  /** A field without subfields. */
  lemma JoinedLeaf(name: string, inner: seq<Node>, opts: seq<(string, string)>, rest: Result)
    ensures Joined(name, inner, opts, NOTHING, rest) == Prefixed([Node(name, inner)], opts, rest)
  {
    assert inner + [] == inner && opts + [] == opts;
  }

  class CreateRequestImpl {
    var fullFieldName: string
    var optionList: seq<(string, string)>

    constructor (root: string)
      ensures fullFieldName == root && optionList == []
    {
      fullFieldName, optionList := root, [];
    }

    /** All options of one field, or failure. */
    method CreateRequestOptions(request: string) returns (r: Option<Node>)
      modifies this`optionList
      ensures match ParseOptions(fullFieldName, request)
        case Failed => r == None
        case Nodes(ns, os) => r.Some? && ns == [r.value] && optionList == old(optionList) + os
    {
      if |request| <= 1 {
        return None;
      }
      hide ParsePairs, SplitCommas, Requests.Find;
      var items := SplitCommas(request);
      var top: seq<Node> := [];
      ghost var prefix, before, found := fullFieldName, optionList, [];
      Unprefixed(ParsePairs(prefix, items));
      assert items[0..] == items;
      for j := 0 to |items|
        invariant fullFieldName == prefix && optionList == before + found
        invariant ParsePairs(prefix, items) == Prefixed(top, found, ParsePairs(prefix, items[j..]))
      {
        var item := items[j];
        PairsStep(prefix, items, j, top, found);
        var equals := Requests.Find(item, '=');
        FindAt(item, '=');
        if equals == None || equals == Some(0) {
          return None;
        }
        var name := item[..equals.value];
        var option := (fullFieldName + "." + OPTIONS + "." + name, item[equals.value + 1..]);
        top := top + [Node(name, [])];
        optionList := optionList + [option];
        found := found + [option];
      }
      PairsEnd(prefix, items, top, found);
      return Some(Node(OPTIONS, top));
    }

    /** Adds the fields named by `crequest`.  The full name is put back before returning. */
    method CreateSubNode(crequest: string) returns (ok: bool, nodes: seq<Node>)
      modifies this
      ensures match ParseFields(old(fullFieldName), crequest)
        case Failed => !ok
        case Nodes(ns, os) => ok && nodes == ns && optionList == old(optionList) + os && fullFieldName == old(fullFieldName)
      decreases |crequest|, 1
    {
      hide ParseNamed, ParseOptions, BracketEnd, Stop;
      var saveFullName := fullFieldName;
      var end := Stop(crequest, true);
      if end < |crequest| && crequest[end] == '[' {
        fullFieldName := fullFieldName + "." + crequest[..end];
        var endBracket := FindMatchingBracket(crequest, end);
        if endBracket == None {
          return false, [];
        }
        var optionNode := CreateRequestOptions(crequest[end + 1..endBracket.value]);
        if optionNode == None {
          return false, [];
        }
        fullFieldName := saveFullName;
        ghost var opts := optionList[|old(optionList)|..];
        assert optionList == old(optionList) + opts;
        ok, nodes := CreateNamed(crequest[..end] + crequest[endBracket.value + 1..], [optionNode.value], opts, old(optionList));
      } else {
        assert old(optionList) + [] == optionList;
        ok, nodes := CreateNamed(crequest, [], [], old(optionList));
      }
    }

    method CreateNamed(request: string, inner: seq<Node>, ghost opts: seq<(string, string)>, ghost before: seq<(string, string)>)
      returns (ok: bool, nodes: seq<Node>)
      requires optionList == before + opts
      modifies this
      ensures match ParseNamed(old(fullFieldName), request, inner, opts)
        case Failed => !ok
        case Nodes(ns, os) => ok && nodes == ns && optionList == before + os && fullFieldName == old(fullFieldName)
      decreases |request|, 0
    {
      hide ParseFields, EndField, Stop;
      var saveFullName := fullFieldName;
      var end := Stop(request, false);
      if end == 0 {
        end := |request|;
      }
      var name := request[..end];
      if name == "" {
        return false, [];
      }
      if end == |request| {
        return true, [Node(name, inner)];
      }
      if request[end] == ',' {
        JoinedLeaf(name, inner, opts, ParseFields(fullFieldName, request[end + 1..]));
        ok, nodes := CreateSubNode(request[end + 1..]);
        nodes := [Node(name, inner)] + nodes;
        return;
      }
      var sub, rest := "", "";
      if request[end] == '.' {
        var below := request[end + 1..];
        if below == "" {
          return false, [];
        }
        var endField := FindEndField(below);
        if endField == None {
          return false, [];
        }
        sub := below[..endField.value];
        rest := if endField.value + 1 >= |below| then "" else below[endField.value + 1..];
      } else {
        var endBrace := FindEndField(request);
        if endBrace == None {
          return false, [];
        }
        if end + 1 >= endBrace.value - 1 {
          return false, [];
        }
        sub := request[end + 1..endBrace.value - 1];
        rest := if endBrace.value + 1 >= |request| then "" else request[endBrace.value + 1..];
      }
      fullFieldName := fullFieldName + "." + name;
      var children;
      ok, children := CreateSubNode(sub);
      if !ok {
        return false, [];
      }
      nodes := [Node(name, inner + children)];
      fullFieldName := saveFullName;
      if rest == "" {
        return true, nodes;
      }
      var others;
      ok, others := CreateSubNode(rest);
      nodes := nodes + others;
    }
  }
}
