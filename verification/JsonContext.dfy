/** The parser's callbacks.  Each of them changes the context in place; its effect is the event's
    step of the stack machine, and an event that is refused leaves the context as it is. */
module JsonContext {
  import opened Fields
  import opened Values
  import opened ValueCodec
  import opened Selection
  import opened Json
  import opened Limits

  class Context {
    const convert: Convert
    var stack: seq<Frame>
    var reported: set<nat>
    var result: Option<Value>

    function State(): State
      reads this
    {
      Json.State(stack, reported, result)
    }

    /** The effect of a callback: `ok` tells whether the event was accepted. */
    twostate predicate Stepped(e: Event, ok: bool)
      requires old(stack) != []
      reads this
    {
      match Step(convert, old(State()), e)
      case None => !ok && State() == old(State())
      case Some(s) => ok && State() == s
    }

    constructor (convert: Convert, root: Field, held: Value, reporting: bool)
      ensures this.convert == convert
      ensures State() == Json.State([Frame(root, held, 0, if reporting then Some(0) else None)], {}, None)
    {
      this.convert := convert;
      stack := [Frame(root, held, 0, if reporting then Some(0) else None)];
      reported, result := {}, None;
    }

    method PopFrame()
      requires stack != []
      modifies this
      ensures State() == Pop(old(State()))
    {
      var top := Last(stack);
      stack := stack[..|stack| - 1];
      if stack == [] {
        result := Some(top.value);
      } else {
        stack := stack[..|stack| - 1] + [Hold(Last(stack), top)];
      }
    }

    method SetAssigned()
      requires stack != []
      modifies this
      ensures State() == Report(old(State()))
    {
      match Last(stack).offset
      case None =>
      case Some(k) => reported := reported + {k};
    }

    method ReplaceValue(v: Value)
      requires stack != []
      modifies this
      ensures State() == WithTop(old(State()), Last(old(stack)).(value := v))
    {
      stack := stack[..|stack| - 1] + [Last(stack).(value := v)];
    }

    method AppendElement(e: Event, t: ScalarType) returns (ok: bool)
      requires stack != []
      modifies this
      ensures match Append(old(State()), Cast(convert, e, t))
        case None => !ok && State() == old(State())
        case Some(s) => ok && State() == s
    {
      match Cast(convert, e, t)
      case None => return false;
      case Some(x) =>
        ReplaceValue(Appended(Last(stack).value, x));
        return true;
    }

    /** A scalar is stored, reported and left; an element is appended to the array that stays open. */
    method ValueAssign(e: Event) returns (ok: bool)
      requires IsValue(e) && stack != []
      modifies this
      ensures Stepped(e, ok)
    {
      hide Cast, Pop, Report, WithTop, Appended, Accept;
      var top := Last(stack);
      match top.field
      case Scalar(t) => ok := PutFrom(Cast(convert, e, t));
      case BoundedString(_) => ok := PutFrom(Accept(top.field, Cast(convert, e, PvString)));
      case ScalarArray(t) => ok := AppendElement(e, t);
      case BoundedScalarArray(t, n) =>
        if LengthOf(top.value) + 1 > n {
          return false;
        }
        ok := AppendElement(e, t);
      case FixedScalarArray(t, n) =>
        if LengthOf(top.value) + 1 != n {
          return false;
        }
        ok := AppendElement(e, t);
      case _ => return false;
    }

    method PutFrom(x: Option<Value>) returns (ok: bool)
      requires stack != []
      modifies this
      ensures match Assign(old(State()), x)
        case None => !ok && State() == old(State())
        case Some(s) => ok && State() == s
    {
      match x
      case None => return false;
      case Some(v) =>
        ReplaceValue(v);
        SetAssigned();
        PopFrame();
        return true;
    }

    method MapStart() returns (ok: bool)
      requires stack != []
      modifies this
      ensures Stepped(StartMap, ok)
    {
      var f := Last(stack).field;
      if f.Structure? {
        return true;
      }
      if f.StructureArray? {
        stack := stack + [Frame(f.element, Default(f.element), 0, None)];
        return true;
      }
      return false;
    }

    /** The subfield that is named is opened. */
    method MapKey(name: string) returns (ok: bool)
      requires stack != []
      modifies this
      ensures Stepped(Key(name), ok)
    {
      hide SizeAll;
      var top := Last(stack);
      if !top.field.Structure? {
        return false;
      }
      match Position(top.field.members, name)
      case None => return false;
      case Some(i) =>
        var child := top.field.members[i].field;
        var value := if top.value.Struct? && i < |top.value.fields| then top.value.fields[i] else Default(child);
        var offset := match top.offset case None => None case Some(o) => Some(o + 1 + SizeAll(top.field.members[..i]));
        stack := stack + [Frame(child, value, i, offset)];
        return true;
    }

    method MapEnd() returns (ok: bool)
      requires stack != []
      modifies this
      ensures Stepped(EndMap, ok)
    {
      PopFrame();
      return true;
    }

    method ArrayStart() returns (ok: bool)
      requires stack != []
      modifies this
      ensures Stepped(StartArray, ok)
    {
      return IsArrayField(Last(stack).field);
    }

    method ArrayEnd() returns (ok: bool)
      requires stack != []
      modifies this
      ensures Stepped(EndArray, ok)
    {
      SetAssigned();
      PopFrame();
      return true;
    }

    method Dispatch(e: Event) returns (ok: bool)
      requires stack != []
      modifies this
      ensures Stepped(e, ok)
    {
      hide Assign, Append, Cast, Pop, Report;
      match e
      case Null => return false;
      case StartMap => ok := MapStart();
      case Key(name) => ok := MapKey(name);
      case EndMap => ok := MapEnd();
      case StartArray => ok := ArrayStart();
      case EndArray => ok := ArrayEnd();
      case _ => ok := ValueAssign(e);
    }

    /** The events of a text, one after the other, until one is refused. */
    method Parse(events: seq<Event>) returns (ok: bool)
      modifies this
      ensures match Run(convert, old(State()), events)
        case None => !ok
        case Some(s) => ok && State() == s
    {
      hide Step;
      var i := 0;
      ok := true;
      while i < |events|
        invariant i <= |events| && ok && Run(convert, State(), events[i..]) == Run(convert, old(State()), events)
      {
        if stack == [] {
          return false;
        }
        assert events[i..][0] == events[i] && events[i..][1..] == events[i + 1..];
        ok := Dispatch(events[i]);
        if !ok {
          return;
        }
        i := i + 1;
      }
    }
  }
}
