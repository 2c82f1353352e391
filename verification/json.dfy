/** JSON documents as the serializer sees them: `json.loads` with
    `SimpleNamespace` objects on the way in, plain dicts on the way out.
    Floating-point numbers and booleans are not part of this model. */
module Json {

  datatype Value =
    | Null
    | Int(i: int)
    | Str(s: string)
    | List(items: seq<Value>)
    | Obj(fields: map<string, Value>)

  /** `hasattr(v, name)`: only objects carry attributes. */
  predicate Has(v: Value, name: string) {
    v.Obj? && name in v.fields
  }

  /** `getattr(v, name)` where it exists. */
  function Get(v: Value, name: string): Value
    requires Has(v, name)
  {
    v.fields[name]
  }
}
