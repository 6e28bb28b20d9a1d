/** The state of a union: which member is selected, and the field that holds its value. */
module Unions {
  import opened Fields
  import opened Values
  import opened Wire
  import opened TypeCodec
  import opened ValueCodec
  import opened Selection
  import opened Source
  import opened Limits

  /** A field with its value, as a union holds it. */
  datatype Held = Held(field: Field, value: Value)

  const UNDEFINED_INDEX := -1

  class PVUnion {
    const field: Field
    var selector: int
    var value: Option<Held>

    ghost predicate IsVariant()
      requires field.Union?
    {
      field.members == []
    }

    /** A variant union never has a selector.  Another one holds a field exactly if a member is
        selected, and its type is that of the member. */
    ghost predicate Valid()
      reads this
    {
      && field.Union?
      && (if IsVariant() || selector == UNDEFINED_INDEX then selector == UNDEFINED_INDEX && (value.Some? ==> IsVariant())
          else 0 <= selector < |field.members| && value.Some? && value.value.field == field.members[selector].field)
    }

    /** Valid, or left behind by a read with a selector that no member has. */
    ghost predicate Loose()
      reads this
    {
      field.Union? && (Valid() || (field.members != [] && selector >= |field.members|))
    }

    function Contents(): Value
      requires Loose()
      reads this
    {
      match value
      case None => Nothing
      case Some(h) => if selector == UNDEFINED_INDEX then Variant(h.field, h.value) else Selected(selector, h.value)
    }

    constructor (field: Field)
      requires field.Union?
      ensures Valid() && this.field == field && Contents() == Nothing
    {
      this.field := field;
      selector := UNDEFINED_INDEX;
      value := None;
    }

    predicate InRange(index: int)
      requires field.Union?
    {
      0 <= index < |field.members|
    }

    /** The selector does not change. */
    ghost predicate Unchanged(index: int)
      requires field.Union?
      reads this
    {
      field.members != [] && index == selector
    }

    /** Selecting what is selected keeps the value, even if that is no member; another member starts with
        a new one. */
    method Select(index: int) returns (ok: bool)
      requires Loose()
      modifies this
      ensures Loose() && (old(Valid()) ==> Valid())
      ensures ok <==> index == UNDEFINED_INDEX || InRange(index) || old(Unchanged(index))
      ensures !ok || old(Unchanged(index)) ==> selector == old(selector) && value == old(value)
      ensures ok && !old(Unchanged(index)) ==> selector == index && Valid()
      ensures Contents() ==
        if !ok || old(Unchanged(index)) then old(Contents())
        else if index == UNDEFINED_INDEX then Nothing
        else Selected(index, Default(field.members[index].field))
    {
      if |field.members| == 0 && index != UNDEFINED_INDEX {
        return false;
      }
      if selector == index && |field.members| != 0 {
        return true;
      }
      if index == UNDEFINED_INDEX {
        selector := UNDEFINED_INDEX;
        value := None;
        return true;
      } else if index < 0 || index >= |field.members| {
        return false;
      }
      var member := field.members[index].field;
      selector := index;
      value := Some(Held(member, Default(member)));
      return true;
    }

    /** A name that is not a member's is refused. */
    method SelectByName(name: string) returns (ok: bool)
      requires Valid()
      modifies this
      ensures Valid() && (ok <==> Position(field.members, name).Some?)
      ensures ok ==> selector == Position(field.members, name).value
      ensures Contents() ==
        if !ok || selector == old(selector) then old(Contents())
        else Selected(selector, Default(field.members[selector].field))
    {
      match Position(field.members, name)
      case None => return false;
      case Some(i) => ok := Select(i);
    }

    /** A value is accepted if it has the type of the member, and none only for no member; a
        variant union takes any value. */
    predicate Settable(index: int, v: Option<Held>)
      requires field.Union?
    {
      if field.members == [] then index == UNDEFINED_INDEX
      else if index == UNDEFINED_INDEX then v.None?
      else InRange(index) && v.Some? && v.value.field == field.members[index].field
    }

    method Set(index: int, v: Option<Held>) returns (ok: bool)
      requires Valid()
      modifies this
      ensures Valid() && (ok <==> Settable(index, v))
      ensures ok ==> selector == index && value == v
      ensures !ok ==> selector == old(selector) && value == old(value)
    {
      if |field.members| == 0 && index != UNDEFINED_INDEX {
        return false;
      } else if |field.members| != 0 {
        if index == UNDEFINED_INDEX {
          if v.Some? {
            return false;
          }
        } else if index < 0 || index >= |field.members| {
          return false;
        } else if v.None? {
          return false;
        } else if v.value.field != field.members[index].field {
          return false;
        }
      }
      selector := index;
      value := v;
      return true;
    }

    /** A selector that no member has was stored before it was looked up, next to a field that was held
        before. */
    ghost predicate Stale()
      reads this
    {
      field.Union? && field.members != [] && selector >= |field.members| && value.Some?
    }

    /** The selector that is read can be stored: it selects nothing or a member. */
    ghost predicate Selectable(size: Parsed<int>)
      requires field.Union?
    {
      size.Parsed? && (size.value == NULL_SIZE || size.value < |field.members|)
    }

    /** Reading uses the field that is held if it has the right type.  A read that fails keeps the invariant
        unless its selector is that of no member. */
    method Deserialize(d: Deserializer) returns (ok: bool)
      requires Valid() && d.Valid()
      modifies this, d
      ensures d.Valid()
      ensures match ReadValue(field, old(Contents()), d.big, old(d.Left()))
        case Malformed => !ok
        case Parsed(v, rest) => ok && Valid() && Contents() == v && d.Left() == rest
      ensures Valid() <==> field.members == [] || ReadSize(d.big, old(d.Left())).Malformed? || Selectable(ReadSize(d.big, old(d.Left())))
      ensures !Valid() ==> !ok && selector == ReadSize(d.big, old(d.Left())).value && value == old(value)
    {
      hide ReadType, ReadSize, Default;
      if |field.members| == 0 {
        ok := DeserializeVariant(d);
      } else {
        ok := DeserializeSelected(d);
      }
    }

    method DeserializeVariant(d: Deserializer) returns (ok: bool)
      requires Valid() && field.members == [] && d.Valid()
      modifies this, d
      ensures Valid() && d.Valid()
      ensures match ReadVariant(field.members, old(Contents()), d.big, old(d.Left()))
        case Malformed => !ok
        case Parsed(v, rest) => ok && Contents() == v && d.Left() == rest
    {
      hide ReadType, ReadValue, Default;
      var f: Option<Field>;
      ok, f := d.DeserializeType();
      if !ok {
        return;
      }
      match f
      case None => value := None;
      case Some(g) =>
        if value.None? || value.value.field != g {
          value := Some(Held(g, Default(g)));
        }
        ok := Read(d);
    }

    /** The selector is stored first.  If it has not changed, the held field is used without looking at its
        type, which after an unknown selector is that of another member. */
    method DeserializeSelected(d: Deserializer) returns (ok: bool)
      requires field.Union? && field.members != [] && (Valid() || Stale()) && d.Valid()
      modifies this, d
      ensures d.Valid()
      ensures old(Valid()) ==>
        match ReadSelected(field.members, old(Contents()), d.big, old(d.Left()))
        case Malformed => !ok
        case Parsed(v, rest) => ok && Valid() && Contents() == v && d.Left() == rest
      ensures Valid() <==> (ReadSize(d.big, old(d.Left())).Malformed? && old(Valid())) || Selectable(ReadSize(d.big, old(d.Left())))
      ensures ReadSize(d.big, old(d.Left())).Malformed? ==> !ok && selector == old(selector) && value == old(value)
      ensures ReadSize(d.big, old(d.Left())).Parsed? && ReadSize(d.big, old(d.Left())).value >= |field.members| ==>
        selector == ReadSize(d.big, old(d.Left())).value && (old(selector) != selector ==> !ok && value == old(value))
      ensures old(Stale()) && ReadSize(d.big, old(d.Left())).Parsed? && ReadSize(d.big, old(d.Left())).value == old(selector) ==>
        value.Some? && value.value.field == old(value.value.field) &&
        Agrees(ReadValue(value.value.field, old(value.value.value), d.big, ReadSize(d.big, old(d.Left())).rest),
               ok, value.value.value, d.Left())
    {
      hide ReadSize, ReadValue, Default;
      var previousSelector := selector;
      var n: int;
      ok, n := d.GetSize();
      if !ok {
        return;
      }
      selector := n;
      if selector != UNDEFINED_INDEX {
        if selector != previousSelector {
          if selector >= |field.members| {
            return false;
          }
          var member := field.members[selector].field;
          if value.None? || value.value.field != member {
            value := Some(Held(member, Default(member)));
          }
        }
        ok := Read(d);
      } else {
        value := None;
      }
    }

    /** The held field reads its value. */
    method Read(d: Deserializer) returns (ok: bool)
      requires d.Valid() && value.Some?
      modifies this`value, d
      ensures d.Valid() && value.Some? && value.value.field == old(value.value.field)
      ensures Agrees(ReadValue(value.value.field, old(value.value.value), d.big, old(d.Left())), ok, value.value.value, d.Left())
    {
      var v: Value;
      ok, v := d.DeserializeValue(value.value.field, value.value.value);
      if ok { value := Some(Held(value.value.field, v)); }
    }

    /** Both unions hold the same selector of no member: the selection counts as unchanged. */
    ghost predicate Alike(from: PVUnion)
      requires field.Union?
      reads this, from
    {
      field.members != [] && selector == from.selector >= |field.members| && from.value.Some?
    }

    /** PVUnion::copyUnchecked.  A selector of no member is refused, unless both unions hold it; then the copy
        goes on with the values that they hold. */
    method CopyUnchecked(from: PVUnion) returns (ok: bool)
      requires Loose() && from.Loose() && from.field == field && from != this
      requires Alike(from) ==>
        && value.Some? && value.value.field == from.value.value.field
        && !SameUnknown(value.value.field, value.value.value, from.value.value.value)
      requires !Alike(from) ==> !SameUnknown(field, Contents(), from.Contents())
      modifies this
      ensures Loose() && (old(Valid()) && !old(Alike(from)) ==> Valid())
      ensures !old(Alike(from)) ==>
        (ok <==> Fits(field, from.Contents())) && Contents() == CopyValue(field, old(Contents()), from.Contents())
      ensures old(Alike(from)) ==>
        && (ok <==> Fits(from.value.value.field, from.value.value.value)) && selector == old(selector)
        && value == Some(Held(from.value.value.field,
                              CopyValue(from.value.value.field, old(value.value.value), from.value.value.value)))
    {
      hide Default, SameUnknown, CopyFields;
      match from.value
      case None =>
        if |field.members| == 0 {
          value := None;
          return true;
        } else {
          ok := Select(UNDEFINED_INDEX);
        }
      case Some(h) =>
        if |field.members| == 0 {
          if value.None? || value.value.field != h.field {
            if Fits(h.field, h.value) {
              FitsCopied(h.field, Default(h.field), h.value);
              value := Some(Held(h.field, CopyValue(h.field, Default(h.field), h.value)));
            }
            return Fits(h.field, h.value);
          }
        } else {
          ok := Select(from.selector);
          if !ok {
            return;
          }
        }
        value := Some(Held(value.value.field, CopyValue(value.value.field, value.value.value, h.value)));
        return Fits(h.field, h.value);
    }
  }

  /** A union with one member that receives the selector of a second one breaks its invariant. */
  method UnknownSelector(big: bool) returns (u: PVUnion, ok: bool)
    ensures u.field == Union("u", [Member("a", Scalar(PvInt))])
    ensures !ok && u.selector == 1 && u.value == None && !u.Valid()
  {
    u := new PVUnion(Union("u", [Member("a", Scalar(PvInt))]));
    var d := new Deserializer([[1]], big);
    assert d.Left() == [1] by { assert Concat([[1]]) == [1] + Concat([]); }
    ok := u.Deserialize(d);
  }
}
