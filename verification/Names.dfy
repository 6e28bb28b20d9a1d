/** Field names and dotted full names. */
module Names {
  import opened Fields

  predicate IsAlnum(c: char) {
    'a' <= c <= 'z' || 'A' <= c <= 'Z' || '0' <= c <= '9'
  }

  /** validateFieldName: a letter or underscore, then letters, digits and underscores. */
  predicate ValidName(n: string) {
    && n != "" && !('0' <= n[0] <= '9')
    && forall i | 0 <= i < |n| :: IsAlnum(n[i]) || n[i] == '_'
  }

  /** All names in the tree of fields have passed validateFieldName. */
  predicate ValidNames(f: Field)
    decreases f, 0
  {
    f.Structure? ==> ValidNamesAll(f.members)
  }

  predicate ValidNamesAll(ms: seq<Member>)
    decreases ms, 0
  {
    ms == [] || (ValidName(ms[0].name) && ValidNames(ms[0].field) && ValidNamesAll(ms[1..]))
  }

  // ----- dotted names -----

  /** The text before the first dot. */
  function Head(s: string): (h: string)
    ensures |h| <= |s| && h == s[..|h|] && '.' !in h
    ensures |h| < |s| ==> s[|h|] == '.'
  {
    if s == "" || s[0] == '.' then "" else [s[0]] + Head(s[1..])
  }

  function Split(s: string): (p: Path)
    ensures p != [] && p[0] == Head(s)
    decreases |s|
  {
    var h := Head(s);
    if |h| == |s| then [s] else [h] + Split(s[|h| + 1..])
  }

  function Join(p: Path): string
    requires p != []
  {
    if |p| == 1 then p[0] else p[0] + "." + Join(p[1..])
  }

  lemma JoinMore(h: string, p: Path)
    requires p != []
    ensures Join([h] + p) == h + "." + Join(p)
  {
    assert ([h] + p)[1..] == p;
  }

  /** The full name of a field that is not the top: the names on the way to it, with dots. */
  function FullName(f: Field, k: nat): string
    requires 0 < k < Size(f)
  {
    PathNotEmpty(f, k);
    Join(PathAt(f, k))
  }

  lemma {:induction false} PathNotEmptyIn(ms: seq<Member>, k: nat)
    requires k < SizeAll(ms)
    ensures PathIn(ms, k) != []
    decreases ms, 0
  {
    if k >= Size(ms[0].field) { PathNotEmptyIn(ms[1..], k - Size(ms[0].field)); }
  }

  lemma PathNotEmpty(f: Field, k: nat)
    requires 0 < k < Size(f)
    ensures PathAt(f, k) != []
  {
    PathNotEmptyIn(f.members, k - 1);
  }

  lemma {:induction false} HeadOf(h: string, s: string)
    requires '.' !in h && (s == "" || s[0] == '.')
    ensures Head(h + s) == h
    decreases |h|
  {
    if h == "" {
      assert h + s == s;
    } else {
      assert (h + s)[1..] == h[1..] + s;
      HeadOf(h[1..], s);
    }
  }

  lemma SplitStep(h: string, rest: string)
    requires '.' !in h
    ensures Split(h + "." + rest) == [h] + Split(rest)
    ensures Split(h) == [h]
  {
    var s := h + "." + rest;
    HeadOf(h, "." + rest);
    HeadOf(h, "");
    assert h + "" == h;
    assert s == h + ("." + rest);
    assert s[|h| + 1..] == rest;
  }

  lemma {:induction false} SplitJoin(p: Path)
    requires p != [] && forall i | 0 <= i < |p| :: '.' !in p[i]
    ensures Split(Join(p)) == p
    decreases |p|
  {
    hide Split;
    if |p| == 1 {
      SplitStep(p[0], "");
    } else {
      SplitStep(p[0], Join(p[1..]));
      SplitJoin(p[1..]);
      assert p == [p[0]] + p[1..];
    }
  }

  /** What a lookup by dotted name finds; a name with a space finds nothing. */
  function LookupName(f: Field, name: string): Option<nat> {
    if ' ' in name then None else Find(f, Split(name))
  }

  lemma ValidNameChars(n: string)
    requires ValidName(n)
    ensures n != "" && '.' !in n && ' ' !in n
  {}

  lemma {:induction false} PathNamesIn(ms: seq<Member>, k: nat)
    requires ValidNamesAll(ms) && k < SizeAll(ms)
    ensures forall i | 0 <= i < |PathIn(ms, k)| :: ValidName(PathIn(ms, k)[i])
    decreases ms, 0
  {
    if k < Size(ms[0].field) {
      PathNames(ms[0].field, k);
    } else {
      PathNamesIn(ms[1..], k - Size(ms[0].field));
    }
  }

  lemma {:induction false} PathNames(f: Field, k: nat)
    requires ValidNames(f) && k < Size(f)
    ensures forall i | 0 <= i < |PathAt(f, k)| :: ValidName(PathAt(f, k)[i])
    decreases f, 0
  {
    if k != 0 { PathNamesIn(f.members, k - 1); }
  }

  lemma {:induction false} NoSpaceInJoin(p: Path)
    requires p != [] && forall i | 0 <= i < |p| :: ' ' !in p[i]
    ensures ' ' !in Join(p)
    decreases |p|
  {
    if |p| > 1 { NoSpaceInJoin(p[1..]); }
  }

  /** Looking up the full name of a field finds that field and no other. */
  lemma FullNameFindsField(f: Field, k: nat)
    requires WellNamed(f) && ValidNames(f) && 0 < k < Size(f)
    ensures LookupName(f, FullName(f, k)) == Some(k)
  {
    PathNotEmpty(f, k);
    PathNames(f, k);
    forall i | 0 <= i < |PathAt(f, k)|
      ensures '.' !in PathAt(f, k)[i] && ' ' !in PathAt(f, k)[i]
    {
      ValidNameChars(PathAt(f, k)[i]);
    }
    SplitJoin(PathAt(f, k));
    NoSpaceInJoin(PathAt(f, k));
    FindPath(f, k);
  }

  /** Different fields have different full names. */
  lemma FullNameInjective(f: Field, a: nat, b: nat)
    requires WellNamed(f) && ValidNames(f) && 0 < a < Size(f) && 0 < b < Size(f)
    requires FullName(f, a) == FullName(f, b)
    ensures a == b
  {
    FullNameFindsField(f, a);
    FullNameFindsField(f, b);
  }
}
