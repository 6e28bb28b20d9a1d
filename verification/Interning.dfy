/** Interning of introspection objects.  Objects are created by any thread, die when their last
    reference is dropped, and remove their own entry from the cache some time later; in between
    the cache still holds them.  The library relies on one live object per type, so that equal
    pointers mean equal types. */
module Interning {
  import opened Fields

  /** An introspection object: its subfields are references to other objects. */
  datatype Slot = Slot(name: string, kid: nat)

  datatype Shape =
    | Plain(field: Field)
    | StructureOf(id: string, slots: seq<Slot>)
    | UnionOf(id: string, slots: seq<Slot>)
    | StructureArrayOf(kid: nat)
    | UnionArrayOf(kid: nat)

  /** Live: somebody holds a reference.  Dying: the last reference is gone, the destructor has not
      taken the mutex yet.  Cleaned: the entry is out of the cache, the subfields are still held. */
  datatype Status = Live | Dying | Cleaned | Gone

  /** Objects are numbered in the order of their creation; `ext` counts references from outside. */
  datatype State = State(shapes: seq<Shape>, status: seq<Status>, ext: seq<nat>, cache: set<nat>)

  /** Types without subfields that can be made; a bounded string has room for one byte at least. */
  predicate IsPlain(f: Field) {
    f.Scalar? || (f.BoundedString? && f.maxLength > 0) || f.ScalarArray? || f.BoundedScalarArray? || f.FixedScalarArray?
  }

  function Kids(s: Shape): set<nat> {
    match s
    case Plain(_) => {}
    case StructureOf(_, slots) => set e | e in slots :: e.kid
    case UnionOf(_, slots) => set e | e in slots :: e.kid
    case StructureArrayOf(k) => {k}
    case UnionArrayOf(k) => {k}
  }

  /** All subfields are older than `n`. */
  predicate Below(s: Shape, n: nat) {
    match s
    case Plain(f) => IsPlain(f)
    case StructureOf(_, slots) => forall e | e in slots :: e.kid < n
    case UnionOf(_, slots) => forall e | e in slots :: e.kid < n
    case StructureArrayOf(k) => k < n
    case UnionArrayOf(k) => k < n
  }

  predicate Grounded(shapes: seq<Shape>) {
    forall r | 0 <= r < |shapes| :: Below(shapes[r], r)
  }

  lemma KidsBelow(s: Shape, n: nat)
    requires Below(s, n)
    ensures forall k | k in Kids(s) :: k < n
    ensures s.StructureOf? || s.UnionOf? ==> forall e | e in s.slots :: e.kid in Kids(s)
  {}

  // ----- the type that an object stands for -----

  function Deep(shapes: seq<Shape>, r: nat): Field
    requires r < |shapes| && Grounded(shapes)
    decreases r, 1
  {
    match shapes[r]
    case Plain(f) => f
    case StructureOf(id, slots) => Structure(id, DeepMembers(shapes, r, slots))
    case UnionOf(id, slots) => Union(id, DeepMembers(shapes, r, slots))
    case StructureArrayOf(k) => StructureArray(Deep(shapes, k))
    case UnionArrayOf(k) => UnionArray(Deep(shapes, k))
  }

  function DeepMembers(shapes: seq<Shape>, r: nat, slots: seq<Slot>): (ms: seq<Member>)
    requires r <= |shapes| && Grounded(shapes) && forall e | e in slots :: e.kid < r
    ensures |ms| == |slots|
    ensures forall i | 0 <= i < |slots| :: ms[i] == Member(slots[i].name, Deep(shapes, slots[i].kid))
    decreases r, 0, |slots|
  {
    if slots == [] then []
    else [Member(slots[0].name, Deep(shapes, slots[0].kid))] + DeepMembers(shapes, r, slots[1..])
  }

  function DeepShape(shapes: seq<Shape>, s: Shape): Field
    requires Grounded(shapes) && Below(s, |shapes|)
  {
    match s
    case Plain(f) => f
    case StructureOf(id, slots) => Structure(id, DeepMembers(shapes, |shapes|, slots))
    case UnionOf(id, slots) => Union(id, DeepMembers(shapes, |shapes|, slots))
    case StructureArrayOf(k) => StructureArray(Deep(shapes, k))
    case UnionArrayOf(k) => UnionArray(Deep(shapes, k))
  }

  // ----- compare -----

  /** How an object is asked for.  The functions that create types search the cache under their own
      class; decoding searches it under the class Field, for everything but structures and unions. */
  datatype Way = Typed | Decoded

  /** What the cache takes for the same: subfields are compared by pointer. */
  predicate Compare(way: Way, a: Shape, b: Shape) {
    match (a, b)
    case (Plain(f), Plain(g)) => if way.Typed? then CompareTyped(f, g) else CompareField(f, g)
    case _ => a == b
  }

  predicate IsArray(f: Field) {
    f.ScalarArray? || f.BoundedScalarArray? || f.FixedScalarArray?
  }

  predicate IsText(f: Field) {
    f.BoundedString? || f == Scalar(PvString)
  }

  /** Under the class of the new object `g`: bounded strings are compared with each other, by their
      bounds; arrays of scalars with all arrays of scalars, by element type alone. */
  predicate CompareTyped(f: Field, g: Field) {
    if IsArray(g) then IsArray(f) && f.elementType == g.elementType else f == g
  }

  /** Under the class Field: scalars by scalar type, so that bounds of strings are ignored too. */
  predicate CompareField(f: Field, g: Field) {
    if IsArray(g) then IsArray(f) && f.elementType == g.elementType
    else if IsText(g) then IsText(f)
    else f == g
  }

  /** The hash keeps apart the arrays of one element type and all strings, bounded or not. */
  ghost predicate Separates(hash: Field -> nat) {
    forall f, g :: IsPlain(f) && IsPlain(g) && Akin(f, g) && hash(f) == hash(g) ==> f == g
  }

  /** Both are arrays of the same elements, or both are strings. */
  predicate Akin(f: Field, g: Field) {
    match (f, g)
    case (ScalarArray(t), ScalarArray(u)) => t == u
    case (ScalarArray(t), BoundedScalarArray(u, _)) => t == u
    case (ScalarArray(t), FixedScalarArray(u, _)) => t == u
    case (BoundedScalarArray(t, _), ScalarArray(u)) => t == u
    case (BoundedScalarArray(t, _), BoundedScalarArray(u, _)) => t == u
    case (BoundedScalarArray(t, _), FixedScalarArray(u, _)) => t == u
    case (FixedScalarArray(t, _), ScalarArray(u)) => t == u
    case (FixedScalarArray(t, _), BoundedScalarArray(u, _)) => t == u
    case (FixedScalarArray(t, _), FixedScalarArray(u, _)) => t == u
    case (Scalar(t), BoundedString(_)) => t == PvString
    case (BoundedString(_), Scalar(t)) => t == PvString
    case (BoundedString(_), BoundedString(_)) => true
    case _ => false
  }

  // ----- invariant -----

  predicate Holds(s: State, p: nat)
    requires p < |s.status|
  {
    s.status[p] != Gone
  }

  /** Some reference to `r` exists. */
  ghost predicate Held(s: State, r: nat)
    requires |s.shapes| == |s.status| == |s.ext| && r < |s.shapes|
  {
    s.ext[r] > 0 || exists p | 0 <= p < |s.shapes| :: Holds(s, p) && r in Kids(s.shapes[p])
  }

  ghost predicate Inv(s: State) {
    && |s.shapes| == |s.status| == |s.ext| && Grounded(s.shapes)
    && (forall r | r in s.cache :: r < |s.shapes|)
    && (forall r | 0 <= r < |s.shapes| :: r in s.cache <==> s.status[r] == Live || s.status[r] == Dying)
    && (forall r | 0 <= r < |s.shapes| :: s.status[r] == Live <==> Held(s, r))
    && (forall a, b | 0 <= a < b < |s.shapes| && s.status[a] == Live && s.status[b] == Live :: s.shapes[a] != s.shapes[b])
  }

  // ----- pointer equality is type equality -----

  lemma {:induction false} DeepInjective(s: State, a: nat, b: nat)
    requires Inv(s) && a < |s.shapes| && b < |s.shapes| && s.status[a] == Live && s.status[b] == Live
    requires Deep(s.shapes, a) == Deep(s.shapes, b)
    ensures a == b
    decreases a
  {
    KidsLive(s, a);
    KidsLive(s, b);
    match s.shapes[a]
    case Plain(f) =>
    case StructureOf(id, slots) => SlotsInjective(s, a, b, slots, s.shapes[b].slots);
    case UnionOf(id, slots) => SlotsInjective(s, a, b, slots, s.shapes[b].slots);
    case StructureArrayOf(k) => DeepInjective(s, k, s.shapes[b].kid);
    case UnionArrayOf(k) => DeepInjective(s, k, s.shapes[b].kid);
  }

  lemma {:induction false} SlotsInjective(s: State, a: nat, b: nat, x: seq<Slot>, y: seq<Slot>)
    requires Inv(s) && a < |s.shapes| && b < |s.shapes|
    requires forall e | e in x :: e.kid < a && s.status[e.kid] == Live
    requires forall e | e in y :: e.kid < b && s.status[e.kid] == Live
    requires DeepMembers(s.shapes, a, x) == DeepMembers(s.shapes, b, y)
    ensures x == y
    decreases a, 0
  {
    forall i | 0 <= i < |x|
      ensures x[i] == y[i]
    {
      var m := DeepMembers(s.shapes, a, x)[i];
      assert m == DeepMembers(s.shapes, b, y)[i];
      DeepInjective(s, x[i].kid, y[i].kid);
    }
  }

  /** Everything below an object that still holds its subfields is live. */
  lemma KidsLive(s: State, p: nat)
    requires Inv(s) && p < |s.shapes| && Holds(s, p)
    ensures forall k | k in Kids(s.shapes[p]) :: k < p && s.status[k] == Live
    ensures s.shapes[p].StructureOf? || s.shapes[p].UnionOf? ==>
      forall e | e in s.shapes[p].slots :: e.kid < p && s.status[e.kid] == Live
  {
    KidsBelow(s.shapes[p], p);
    forall k | k in Kids(s.shapes[p])
      ensures k < p && s.status[k] == Live
    {
      assert Held(s, k);
    }
  }

  /** For live objects, equal pointers are the same as equal types, however deep. */
  lemma PointerEqualityIsTypeEquality(s: State, a: nat, b: nat)
    requires Inv(s) && a < |s.shapes| && b < |s.shapes| && s.status[a] == Live && s.status[b] == Live
    ensures a == b <==> Deep(s.shapes, a) == Deep(s.shapes, b)
  {
    if Deep(s.shapes, a) == Deep(s.shapes, b) { DeepInjective(s, a, b); }
  }

  // ----- steps -----

  datatype Action =
    | Create(way: Way, shape: Shape, found: Option<nat>)
    | Drop(r: nat)
    | Cleanup(r: nat)
    | Release(r: nat)

  /** What is made after the start.  Scalars and arrays of scalars without a bound exist from then on
      and are never made again; structures and unions are decoded through the creating functions. */
  predicate Requestable(way: Way, shape: Shape) {
    match shape
    case Plain(f) => IsPlain(f) && !f.Scalar? && !f.ScalarArray?
    case StructureOf(_, _) => way.Typed?
    case UnionOf(_, _) => way.Typed?
    case StructureArrayOf(_) => true
    case UnionArrayOf(_) => true
  }

  /** An entry of the cache that is equal to the new object and can still be shared. */
  ghost predicate Reusable(s: State, hash: Field -> nat, way: Way, shape: Shape, r: nat)
    requires Inv(s) && Below(shape, |s.shapes|)
  {
    && r in s.cache && hash(Deep(s.shapes, r)) == hash(DeepShape(s.shapes, shape))
    && Compare(way, s.shapes[r], shape) && s.status[r] == Live
  }

  /** Creating takes the mutex once.  An equal entry whose object is dying is passed over, and the
      new object is entered beside it. */
  ghost predicate Enabled(s: State, hash: Field -> nat, a: Action)
    requires Inv(s)
  {
    match a
    case Create(way, shape, found) =>
      && Requestable(way, shape) && Below(shape, |s.shapes|) && (forall k | k in Kids(shape) :: k < |s.shapes| && s.status[k] == Live)
      && (match found
          case Some(r) => Reusable(s, hash, way, shape, r)
          case None => forall r | r in s.cache :: !Reusable(s, hash, way, shape, r))
    case Drop(r) => r < |s.shapes| && s.ext[r] > 0
    case Cleanup(r) => r < |s.shapes| && s.status[r] == Dying
    case Release(r) => r < |s.shapes| && s.status[r] == Cleaned
  }

  /** Objects to which no reference is left begin to die. */
  ghost function Expire(s: State): State
    requires |s.shapes| == |s.status| == |s.ext|
  {
    s.(status := seq(|s.status|, r requires 0 <= r < |s.status| && |s.shapes| == |s.status| == |s.ext| =>
      if s.status[r] == Live && !Held(s, r) then Dying else s.status[r]))
  }

  ghost function Apply(s: State, hash: Field -> nat, a: Action): State
    requires Inv(s) && Enabled(s, hash, a)
  {
    match a
    case Create(_, shape, Some(r)) => s.(ext := s.ext[r := s.ext[r] + 1])
    case Create(way, shape, None) =>
      State(s.shapes + [shape], s.status + [Live], s.ext + [1], s.cache + {|s.shapes|})
    case Drop(r) => Expire(s.(ext := s.ext[r := s.ext[r] - 1]))
    case Cleanup(r) => s.(status := s.status[r := Cleaned], cache := s.cache - {r})
    case Release(r) => Expire(s.(status := s.status[r := Gone]))
  }

  lemma {:induction false} DeepGrows(shapes: seq<Shape>, shape: Shape, r: nat)
    requires Grounded(shapes) && Below(shape, |shapes|) && r < |shapes|
    ensures Grounded(shapes + [shape])
    ensures Deep(shapes + [shape], r) == Deep(shapes, r)
    decreases r
  {
    var more := shapes + [shape];
    match shapes[r]
    case Plain(_) =>
    case StructureOf(_, slots) => MembersGrow(shapes, shape, r, slots);
    case UnionOf(_, slots) => MembersGrow(shapes, shape, r, slots);
    case StructureArrayOf(k) => DeepGrows(shapes, shape, k);
    case UnionArrayOf(k) => DeepGrows(shapes, shape, k);
  }

  lemma {:induction false} MembersGrow(shapes: seq<Shape>, shape: Shape, r: nat, slots: seq<Slot>)
    requires Grounded(shapes) && Below(shape, |shapes|) && r <= |shapes| && forall e | e in slots :: e.kid < r
    ensures Grounded(shapes + [shape])
    ensures DeepMembers(shapes + [shape], r, slots) == DeepMembers(shapes, r, slots)
    decreases r, 0
  {
    assert Grounded(shapes + [shape]);
    forall i | 0 <= i < |slots|
      ensures DeepMembers(shapes + [shape], r, slots)[i] == DeepMembers(shapes, r, slots)[i]
    {
      DeepGrows(shapes, shape, slots[i].kid);
    }
  }

  /** The members do not depend on how many objects there are. */
  lemma {:induction false} MembersSame(shapes: seq<Shape>, r: nat, q: nat, slots: seq<Slot>)
    requires Grounded(shapes) && r <= |shapes| && q <= |shapes| && forall e | e in slots :: e.kid < r && e.kid < q
    ensures DeepMembers(shapes, r, slots) == DeepMembers(shapes, q, slots)
  {}

  /** An object with the same shape has the same type. */
  lemma SameShape(s: State, r: nat, shape: Shape)
    requires Inv(s) && r < |s.shapes| && s.shapes[r] == shape
    ensures Below(shape, |s.shapes|) && Deep(s.shapes, r) == DeepShape(s.shapes, shape)
  {
    if shape.StructureOf? || shape.UnionOf? { MembersSame(s.shapes, r, |s.shapes|, shape.slots); }
  }

  lemma StepKeeps(s: State, hash: Field -> nat, a: Action)
    requires Inv(s) && Enabled(s, hash, a)
    ensures Inv(Apply(s, hash, a))
  {
    match a
    case Create(_, shape, Some(r)) => ShareKeeps(s, r);
    case Create(way, shape, None) => InsertKeeps(s, hash, way, shape);
    case Drop(r) => DropKeeps(s, r);
    case Cleanup(r) => CleanupKeeps(s, r);
    case Release(r) => ReleaseKeeps(s, r);
  }

  lemma ShareKeeps(s: State, r: nat)
    requires Inv(s) && r < |s.shapes| && s.status[r] == Live
    ensures Inv(s.(ext := s.ext[r := s.ext[r] + 1]))
  {}

  lemma DropKeeps(s: State, r: nat)
    requires Inv(s) && r < |s.shapes| && s.ext[r] > 0
    ensures Inv(Expire(s.(ext := s.ext[r := s.ext[r] - 1])))
  {}

  lemma CleanupKeeps(s: State, r: nat)
    requires Inv(s) && r < |s.shapes| && s.status[r] == Dying
    ensures Inv(s.(status := s.status[r := Cleaned], cache := s.cache - {r}))
  {}

  lemma ReleaseKeeps(s: State, r: nat)
    requires Inv(s) && r < |s.shapes| && s.status[r] == Cleaned
    ensures Inv(Expire(s.(status := s.status[r := Gone])))
  {}

  lemma InsertKeeps(s: State, hash: Field -> nat, way: Way, shape: Shape)
    requires Inv(s) && Enabled(s, hash, Create(way, shape, None))
    ensures Inv(Apply(s, hash, Create(way, shape, None)))
  {
    var t, n := Apply(s, hash, Create(way, shape, None)), |s.shapes|;
    forall r | 0 <= r <= n
      ensures t.status[r] == Live <==> Held(t, r)
    {
      if r < n {
        HeldGrows(s, t, shape, r);
      } else {
        assert t.ext[n] > 0;
      }
    }
    forall r | 0 <= r < n && s.status[r] == Live
      ensures s.shapes[r] != shape
    {
      if s.shapes[r] == shape {
        SameShape(s, r, shape);
        assert Reusable(s, hash, way, shape, r);
        assert false;
      }
    }
  }

  lemma HeldGrows(s: State, t: State, shape: Shape, r: nat)
    requires Inv(s) && r < |s.shapes| && t.shapes == s.shapes + [shape]
    requires t.status == s.status + [Live] && t.ext == s.ext + [1]
    ensures Held(t, r) <==> Held(s, r) || r in Kids(shape)
  {
    var n := |s.shapes|;
    if Held(s, r) && s.ext[r] == 0 {
      var p :| 0 <= p < n && Holds(s, p) && r in Kids(s.shapes[p]);
      assert Holds(t, p) && r in Kids(t.shapes[p]);
    }
    if r in Kids(shape) { assert Holds(t, n) && r in Kids(t.shapes[n]); }
    if Held(t, r) && t.ext[r] == 0 && r !in Kids(shape) {
      var p :| 0 <= p <= n && Holds(t, p) && r in Kids(t.shapes[p]);
      assert p < n && Holds(s, p) && r in Kids(s.shapes[p]);
    }
  }

  /** The loop of FieldCreate::Helper::cache over the entries with the hash of the new object, in
      any order.  It decides which of the two ways of creating is taken. */
  method FindEntry(s: State, ghost hash: Field -> nat, way: Way, shape: Shape, entries: seq<nat>) returns (found: Option<nat>)
    requires Inv(s) && Requestable(way, shape) && Below(shape, |s.shapes|)
    requires forall k | k in Kids(shape) :: k < |s.shapes| && s.status[k] == Live
    requires forall r :: r in entries <==> r in s.cache && hash(Deep(s.shapes, r)) == hash(DeepShape(s.shapes, shape))
    ensures Enabled(s, hash, Create(way, shape, found))
  {
    var i := 0;
    while i < |entries|
      invariant 0 <= i <= |entries|
      invariant forall j | 0 <= j < i :: !Reusable(s, hash, way, shape, entries[j])
    {
      assert entries[i] in entries;
      var cent := entries[i];
      if Compare(way, s.shapes[cent], shape) {
        if s.status[cent] == Live {
          return Some(cent);
        }
        // the object is being destroyed and will remove its entry
      }
      i := i + 1;
    }
    return None;
  }

  // ----- runs -----

  const SCALAR_TYPES: seq<ScalarType> :=
    [PvBoolean, PvByte, PvShort, PvInt, PvLong, PvUByte, PvUShort, PvUInt, PvULong, PvFloat, PvDouble, PvString]

  predicate IsBuiltIn(i: nat) {
    i < 26
  }

  function BuiltIn(i: nat): Shape
    requires IsBuiltIn(i)
  {
    if i == 24 then UnionOf("any", [])
    else if i == 25 then UnionArrayOf(24)
    else if i % 2 == 0 then Plain(Scalar(SCALAR_TYPES[i / 2]))
    else Plain(ScalarArray(SCALAR_TYPES[i / 2]))
  }

  /** What the constructor makes and never releases: a scalar and an array for every scalar type,
      then the variant union and its array. */
  function Start(): State {
    State(seq(26, i requires 0 <= i < 26 => BuiltIn(i)), seq(26, i => Live), seq(26, i => 1), set i: nat | i < 26 && IsBuiltIn(i))
  }

  lemma StartKeeps()
    ensures Inv(Start())
  {
    forall a, b | 0 <= a < b < 26
      ensures BuiltIn(a) != BuiltIn(b)
    {
      if b < 24 && a / 2 != b / 2 { TypesDiffer(a / 2, b / 2); }
    }
  }

  lemma TypesDiffer(i: nat, j: nat)
    requires i < 12 && j < 12 && i != j
    ensures SCALAR_TYPES[i] != SCALAR_TYPES[j]
  {}

  ghost predicate Run(s: State, hash: Field -> nat, steps: seq<Action>, t: State)
    requires Inv(s)
    decreases |steps|
  {
    if steps == [] then t == s
    else Enabled(s, hash, steps[0]) &&
         (StepKeeps(s, hash, steps[0]); Run(Apply(s, hash, steps[0]), hash, steps[1..], t))
  }

  lemma {:induction false} RunKeeps(s: State, hash: Field -> nat, steps: seq<Action>, t: State)
    requires Inv(s) && Run(s, hash, steps, t)
    ensures Inv(t)
    decreases |steps|
  {
    if steps != [] {
      StepKeeps(s, hash, steps[0]);
      RunKeeps(Apply(s, hash, steps[0]), hash, steps[1..], t);
    }
  }

  /** The actions lead from the start to `t`. */
  ghost predicate Reached(hash: Field -> nat, steps: seq<Action>, t: State) {
    StartKeeps();
    Run(Start(), hash, steps, t)
  }

  /** In every reachable state, whatever the interleaving: every live object is in the cache, no
      two live objects have the same type, and everything below a live object is live. */
  lemma InterningIsSound(hash: Field -> nat, steps: seq<Action>, t: State)
    requires Reached(hash, steps, t)
    ensures |t.shapes| == |t.status| && Grounded(t.shapes)
    ensures forall r | 0 <= r < |t.shapes| && t.status[r] == Live :: r in t.cache
    ensures forall a, b | 0 <= a < |t.shapes| && 0 <= b < |t.shapes| && t.status[a] == Live && t.status[b] == Live ::
      Deep(t.shapes, a) == Deep(t.shapes, b) ==> a == b
    ensures forall r, k | 0 <= r < |t.shapes| && t.status[r] == Live && k in Kids(t.shapes[r]) ::
      0 <= k < r && t.status[k] == Live
  {
    StartKeeps();
    RunKeeps(Start(), hash, steps, t);
    forall a, b | 0 <= a < |t.shapes| && 0 <= b < |t.shapes| && t.status[a] == Live && t.status[b] == Live
                  && Deep(t.shapes, a) == Deep(t.shapes, b)
      ensures a == b
    {
      DeepInjective(t, a, b);
    }
    forall r, k | 0 <= r < |t.shapes| && t.status[r] == Live && k in Kids(t.shapes[r])
      ensures 0 <= k < r && t.status[k] == Live
    {
      KidsLive(t, r);
    }
  }

  // ----- the type that the caller asked for -----

  /** What is shared has the type that was asked for, if the hash separates. */
  lemma ReuseIsRight(s: State, hash: Field -> nat, way: Way, shape: Shape, r: nat)
    requires Inv(s) && Separates(hash) && Below(shape, |s.shapes|) && Reusable(s, hash, way, shape, r)
    ensures Deep(s.shapes, r) == DeepShape(s.shapes, shape)
  {
    if !shape.Plain? || !s.shapes[r].Plain? { SameShape(s, r, shape); }
  }

  /** A bounded string that is created, not decoded, is right whatever the hash. */
  lemma CreatedTextIsRight(s: State, hash: Field -> nat, n: nat, r: nat)
    requires Inv(s) && n > 0 && Reusable(s, hash, Typed, Plain(BoundedString(n)), r)
    ensures Deep(s.shapes, r) == BoundedString(n)
  {}

  /** After some run from the start, a request for `shape` would be given object `r`. */
  ghost predicate WouldReuse(hash: Field -> nat, steps: seq<Action>, t: State, way: Way, shape: Shape, r: nat) {
    && Reached(hash, steps, t) && Inv(t) && Requestable(way, shape)
    && Below(shape, |t.shapes|) && Reusable(t, hash, way, shape, r)
  }

  ghost predicate ReusesRight(hash: Field -> nat, steps: seq<Action>, t: State, way: Way, shape: Shape, r: nat)
    requires WouldReuse(hash, steps, t, way, shape, r)
  {
    Deep(t.shapes, r) == DeepShape(t.shapes, shape)
  }

  ghost predicate AlwaysRight(hash: Field -> nat) {
    forall steps, t, way, shape, r | WouldReuse(hash, steps, t, way, shape, r) :: ReusesRight(hash, steps, t, way, shape, r)
  }

  /** Creating and decoding always return an object of the type that was asked for if and only if
      the hash keeps apart the types that compare does not: arrays of one element type, and
      strings, whatever their bounds. */
  lemma CreateIsRightIffSeparates(hash: Field -> nat)
    ensures Separates(hash) <==> AlwaysRight(hash)
  {
    if Separates(hash) {
      forall steps, t, way, shape, r | WouldReuse(hash, steps, t, way, shape, r)
        ensures ReusesRight(hash, steps, t, way, shape, r)
      {
        StartKeeps();
        RunKeeps(Start(), hash, steps, t);
        ReuseIsRight(t, hash, way, shape, r);
      }
    } else {
      var f, g :| IsPlain(f) && IsPlain(g) && Akin(f, g) && hash(f) == hash(g) && f != g;
      if Requestable(Decoded, Plain(g)) { Confused(hash, f, g); } else { Confused(hash, g, f); }
    }
  }

  lemma Confused(hash: Field -> nat, f: Field, g: Field)
    requires IsPlain(f) && Requestable(Decoded, Plain(g)) && CompareField(f, g) && hash(f) == hash(g) && f != g
    ensures !AlwaysRight(hash)
  {
    StartKeeps();
    assert Reached(hash, [], Start());
    if Requestable(Decoded, Plain(f)) {
      if r :| r in Start().cache && Reusable(Start(), hash, Decoded, Plain(f), r) {
        assert WouldReuse(hash, [], Start(), Decoded, Plain(f), r);
        assert !ReusesRight(hash, [], Start(), Decoded, Plain(f), r);
      } else {
        ConfusedAfter(hash, f, g);
      }
    } else {
      var r := PlaceOf(f);
      assert WouldReuse(hash, [], Start(), Decoded, Plain(g), r);
      assert !ReusesRight(hash, [], Start(), Decoded, Plain(g), r);
    }
  }

  lemma PlaceOf(f: Field) returns (r: nat)
    requires f.Scalar? || f.ScalarArray?
    ensures r < 26 && BuiltIn(r) == Plain(f)
  {
    var t := if f.Scalar? then f.scalarType else f.elementType;
    assert SCALAR_TYPES[match t case PvBoolean => 0 case PvByte => 1 case PvShort => 2 case PvInt => 3 case PvLong => 4
                                case PvUByte => 5 case PvUShort => 6 case PvUInt => 7 case PvULong => 8
                                case PvFloat => 9 case PvDouble => 10 case PvString => 11] == t;
    var i: nat :| i < 12 && SCALAR_TYPES[i] == t;
    r := 2 * i + if f.Scalar? then 0 else 1;
  }

  /** Decoding `f` and then `g` gives `f` twice. */
  lemma ConfusedAfter(hash: Field -> nat, f: Field, g: Field)
    requires Inv(Start()) && Requestable(Decoded, Plain(f)) && Requestable(Decoded, Plain(g))
    requires CompareField(f, g) && hash(f) == hash(g) && f != g
    requires forall r | r in Start().cache :: !Reusable(Start(), hash, Decoded, Plain(f), r)
    ensures !AlwaysRight(hash)
  {
    var a := Create(Decoded, Plain(f), None);
    StepKeeps(Start(), hash, a);
    var t := Apply(Start(), hash, a);
    assert Reached(hash, [a], t) by {
      assert [a][1..] == [];
      assert Run(t, hash, [], t);
    }
    assert t.shapes[26] == Plain(f) && t.status[26] == Live && 26 in t.cache;
    assert Deep(t.shapes, 26) == f && DeepShape(t.shapes, Plain(g)) == g;
    assert WouldReuse(hash, [a], t, Decoded, Plain(g), 26);
    assert !ReusesRight(hash, [a], t, Decoded, Plain(g), 26);
  }

  /** Where creating bounded strings is right, decoding them need not be: one collision between two
      bounds is enough. */
  lemma DecodedTextConfused(hash: Field -> nat, m: nat, n: nat)
    requires m != n && m > 0 && n > 0 && hash(BoundedString(m)) == hash(BoundedString(n))
    ensures !AlwaysRight(hash)
  {
    Confused(hash, BoundedString(m), BoundedString(n));
  }

  /** Comparing two live structures or unions compares their subfields by pointer, and yet it
      decides whether they are the same type all the way down. */
  lemma CompareIsTypeEquality(s: State, way: Way, a: nat, b: nat)
    requires Inv(s) && a < |s.shapes| && b < |s.shapes| && s.status[a] == Live && s.status[b] == Live
    requires !s.shapes[a].Plain? || !s.shapes[b].Plain?
    ensures Compare(way, s.shapes[a], s.shapes[b]) <==> Deep(s.shapes, a) == Deep(s.shapes, b)
  {
    PointerEqualityIsTypeEquality(s, a, b);
  }
}
