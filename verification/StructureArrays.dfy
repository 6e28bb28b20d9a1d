/** The operations of a structure array that move elements about in the vector. */
module StructureArrays {
  import opened Fields
  import opened Values
  import opened ValueCodec

  type Item = Option<Value>

  /** The elements that are not null, in order. */
  function Present(s: seq<Item>): (r: seq<Item>)
    ensures |r| <= |s|
  {
    if s == [] then [] else Kept(s[0]) + Present(s[1..])
  }

  function Kept(x: Item): (r: seq<Item>)
    ensures |r| <= 1
  {
    if x.Some? then [x] else []
  }

  lemma Assoc(a: seq<Item>, b: seq<Item>, c: seq<Item>)
    ensures (a + b) + c == a + (b + c)
  {}

  lemma {:induction false} PresentJoin(a: seq<Item>, b: seq<Item>)
    ensures Present(a + b) == Present(a) + Present(b)
    decreases |a|
  {
    hide Kept;
    if a == [] {
      assert a + b == b && [] + Present(b) == Present(b);
    } else {
      PresentJoin(a[1..], b);
      assert (a + b)[0] == a[0] && (a + b)[1..] == a[1..] + b;
      Assoc(Kept(a[0]), Present(a[1..]), Present(b));
    }
  }

  lemma {:induction false} PresentOfNulls(s: seq<Item>)
    requires forall k | 0 <= k < |s| :: s[k].None?
    ensures Present(s) == []
  {
    if s != [] { PresentOfNulls(s[1..]); }
  }

  lemma {:induction false} PresentOfAll(s: seq<Item>)
    requires forall k | 0 <= k < |s| :: s[k].Some?
    ensures Present(s) == s
  {
    if s != [] {
      PresentOfAll(s[1..]);
      assert s == [s[0]] + s[1..];
    }
  }

  /** The nulls are what is lost, and nothing else. */
  lemma {:induction false} OnlyNullsAreLost(s: seq<Item>, x: Item)
    ensures multiset(Present(s))[x] == if x.None? then 0 else multiset(s)[x]
  {
    hide Kept;
    if s != [] {
      OnlyNullsAreLost(s[1..], x);
      assert s == [s[0]] + s[1..];
      Counted([s[0]], s[1..], x);
      Counted(Kept(s[0]), Present(s[1..]), x);
      KeptCount(s[0], x);
    }
  }

  lemma Counted(a: seq<Item>, b: seq<Item>, x: Item)
    ensures multiset(a + b)[x] == multiset(a)[x] + multiset(b)[x]
  {}

  lemma KeptCount(y: Item, x: Item)
    ensures multiset(Kept(y))[x] == if x.None? then 0 else multiset([y])[x]
  {}

  /** An element moves down over nulls. */
  function Moved(s: seq<Item>, i: nat, j: nat): seq<Item>
    requires i < j < |s|
  {
    s[i := s[j]][j := None]
  }

  /** Nulls may stand before an element as well as behind it. */
  lemma PresentAround(nulls: seq<Item>, x: Item, rest: seq<Item>)
    requires x.Some? && forall k | 0 <= k < |nulls| :: nulls[k].None?
    ensures Present(nulls + ([x] + rest)) == [x] + Present(rest) == Present([x] + (nulls + rest))
  {
    PresentOfNulls(nulls);
    PresentJoin(nulls, [x] + rest);
    PresentJoin([x], rest);
    PresentJoin([x], nulls + rest);
    PresentJoin(nulls, rest);
    PresentOfAll([x]);
    assert [] + Present(rest) == Present(rest);
    assert [] + Present([x] + rest) == Present([x] + rest);
  }

  lemma MovedPieces(s: seq<Item>, i: nat, j: nat)
    requires i < j < |s| && forall k | i <= k < j :: s[k].None?
    ensures s == s[..i] + (s[i..j] + ([s[j]] + s[j + 1..]))
    ensures Moved(s, i, j) == s[..i] + ([s[j]] + (s[i..j] + s[j + 1..]))
  {
    var t, u := Moved(s, i, j), s[..i] + ([s[j]] + (s[i..j] + s[j + 1..]));
    assert |t| == |u|;
    forall k | 0 <= k < |s|
      ensures t[k] == u[k]
    {
      if i < k <= j { assert u[k] == s[i..j][k - i - 1]; }
    }
  }

  lemma MovingKeepsPresent(s: seq<Item>, i: nat, j: nat)
    requires i < j < |s| && s[j].Some? && forall k | i <= k < j :: s[k].None?
    ensures Present(Moved(s, i, j)) == Present(s)
  {
    hide Present;
    MovedPieces(s, i, j);
    PresentJoin(s[..i], s[i..j] + ([s[j]] + s[j + 1..]));
    PresentJoin(s[..i], [s[j]] + (s[i..j] + s[j + 1..]));
    PresentAround(s[i..j], s[j], s[j + 1..]);
  }

  class PVStructureArray {
    const isFixed: bool
    var value: seq<Item>

    constructor (isFixed: bool)
      ensures this.isFixed == isFixed && value == []
    {
      this.isFixed := isFixed;
      value := [];
    }

    /** Null elements are squeezed out; a fixed array stays as it is. */
    method Compress()
      modifies this
      ensures value == if isFixed then old(value) else Present(old(value))
    {
      hide Present;
      if isFixed {
        return;
      }
      var vec := value;
      var length, newLength := |vec|, 0;
      for i := 0 to length
        invariant |vec| == length && newLength == i && Present(vec) == Present(old(value))
        invariant forall k | 0 <= k < i :: vec[k].Some?
      {
        if vec[i].Some? {
          newLength := newLength + 1;
          continue;
        }
        var notNull := 0;
        for j := i + 1 to length
          invariant notNull == 0 && forall k | i <= k < j :: vec[k].None?
        {
          if vec[j].Some? {
            notNull := j;
            break;
          }
        }
        if notNull != 0 {
          MovingKeepsPresent(vec, i, notNull);
          vec := vec[i := vec[notNull]];
          vec := vec[notNull := None];
          newLength := newLength + 1;
          continue;
        }
        break;
      }
      assert vec == vec[..newLength] + vec[newLength..];
      PresentJoin(vec[..newLength], vec[newLength..]);
      PresentOfAll(vec[..newLength]);
      PresentOfNulls(vec[newLength..]);
      assert Present(vec) == vec[..newLength] + [];
      value := vec[..newLength];
    }

    /** `number` elements are cut out at `offset`: those behind them are swapped forward, and the
        vector is shortened. */
    method Remove(offset: nat, number: nat) returns (ok: bool)
      modifies this
      ensures ok <==> number == 0 || (offset + number <= |old(value)| && !isFixed)
      ensures value == if ok && number > 0 then old(value)[..offset] + old(value)[offset + number..] else old(value)
    {
      if number == 0 {
        return true;
      } else if offset + number > |value| {
        return false;
      } else if isFixed {
        return false;
      }
      var vec := value;
      var length := |vec|;
      var i := offset;
      while i + number < length
        invariant offset <= i <= length - number && |vec| == length
        invariant forall k | 0 <= k < offset :: vec[k] == old(value)[k]
        invariant forall k | offset <= k < i :: vec[k] == old(value)[k + number]
        invariant forall k | i + number <= k < length :: vec[k] == old(value)[k]
      {
        vec := vec[i := vec[i + number]][i + number := vec[i]];
        i := i + 1;
      }
      value := vec[..length - number];
      return true;
    }
  }
}
