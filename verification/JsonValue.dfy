/** Decoded JSON documents: the shapes encoding/json produces, with one number type. */
module JsonValue {
  datatype Value =
    | Null
    | Bool(b: bool)
    | Num(n: real)
    | Str(s: string)
    | Arr(items: seq<Value>)
    | Obj(fields: map<string, Value>)

  type Object = map<string, Value>
}
