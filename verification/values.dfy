/**
 The value tree of `google.golang.org/protobuf/types/known/structpb`, as the
 merge engine sees it. A struct is a string-keyed map of values; a list is an
 ordered sequence of values.
 */
module Values {

  /** One `*structpb.Value`.
      `Absent` stands for a nil `*structpb.Value` (a nil entry of a struct's
      field map or of a list). `Unknown` stands for a value whose kind is unset,
      of a kind the merge engine does not recognise, or a kind wrapper that is
      itself nil. A nil `*Struct` or `*ListValue` inside a kind reads as empty
      through the nil-safe getters, so it is represented by an empty struct or
      list. A `float64` number is represented by a real: only equality matters. */
  datatype Value =
    | Absent
    | Unknown
    | NullValue
    | NumberValue(number: real)
    | StringValue(str: string)
    | BoolValue(b: bool)
    | StructValue(fields: map<string, Value>)
    | ListValue(items: seq<Value>)

  /** The fields of one `*structpb.Struct`. */
  type Fields = map<string, Value>

  /** A value with no nil node and no unknown kind anywhere inside it. */
  predicate WellFormed(v: Value) {
    match v
    case Absent => false
    case Unknown => false
    case StructValue(fields) => forall k :: k in fields ==> WellFormed(fields[k])
    case ListValue(items) => forall i :: 0 <= i < |items| ==> WellFormed(items[i])
    case _ => true
  }

  /** Every value of a struct's field map is well formed. */
  predicate WellFormedFields(fields: Fields) {
    forall k :: k in fields ==> WellFormed(fields[k])
  }
}
