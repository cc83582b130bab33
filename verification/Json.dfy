/** JavaScript values as the serialiser and the validator meet them. */
module Json {
  import opened JsStrings

  datatype Number = Integer(n: int) | NegativeZero | Fraction | NonFinite

  /** An object lists its own properties in insertion order; Other is a function, symbol or bigint. */
  datatype Json =
    | Undefined
    | Null
    | Bool(b: bool)
    | Num(number: Number)
    | Str(s: JsString)
    | Arr(items: seq<Json>)
    | Obj(fields: seq<Field>)
    | Other

  datatype Field = Field(name: JsString, value: Json)

  /** Property names are distinct in every object. */
  predicate DistinctNames(fields: seq<Field>) {
    forall i, j :: 0 <= i < j < |fields| ==> fields[i].name != fields[j].name
  }

  predicate HasDistinctNames(v: Json) {
    match v
    case Arr(items) => forall i :: 0 <= i < |items| ==> HasDistinctNames(items[i])
    case Obj(fields) => DistinctNames(fields) && forall i :: 0 <= i < |fields| ==> HasDistinctNames(fields[i].value)
    case _ => true
  }

  /** Reading a property: undefined when there is none. */
  function Lookup(fields: seq<Field>, name: JsString): Json
    decreases |fields|
  {
    if fields == [] then Undefined
    else if fields[0].name == name then fields[0].value
    else Lookup(fields[1..], name)
  }

  /** Writing a property: in place when it exists, at the end when it does not. */
  function Put(fields: seq<Field>, name: JsString, v: Json): seq<Field>
    decreases |fields|
  {
    if fields == [] then [Field(name, v)]
    else if fields[0].name == name then [Field(name, v)] + fields[1..]
    else [fields[0]] + Put(fields[1..], name, v)
  }
}
