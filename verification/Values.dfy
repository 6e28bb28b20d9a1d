/** The values that fields hold. */
module Values {
  import opened Fields

  newtype byte = x: int | 0 <= x < 256

  /** Integers, booleans and floating point numbers are kept as bit patterns; strings are
      sequences of bytes.  Elements of arrays of structures or unions may be null; a union
      with no selection holds nothing; the value of a variant union carries its own type. */
  datatype Value =
    | Number(bits: nat)
    | Text(text: seq<byte>)
    | Numbers(elements: seq<nat>)
    | Texts(texts: seq<seq<byte>>)
    | Struct(fields: seq<Value>)
    | Structs(items: seq<Option<Value>>)
    | Selected(selector: nat, value: Value)
    | Variant(dynamicType: Field, value: Value)
    | Nothing
    | Unions(items: seq<Option<Value>>)
}
