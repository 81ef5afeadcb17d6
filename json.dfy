/**
  Decoded JSON values, as `json.loads` and `Response.json()` hand them to the
  code, with Python's truthiness and `dict.get`.
 */
module JsonValue {

  /** A JSON number is kept as an integer: the code only ever asks whether it is zero. */
  datatype Json =
    | JNull
    | JBool(b: bool)
    | JNumber(n: int)
    | JString(s: string)
    | JArray(items: seq<Json>)
    | JObject(fields: map<string, Json>)

  /** Python's `bool(x)`: `None`, `False`, `0`, `""`, `[]` and `{}` are false. */
  predicate Truthy(j: Json) {
    match j
    case JNull => false
    case JBool(b) => b
    case JNumber(n) => n != 0
    case JString(s) => s != []
    case JArray(items) => items != []
    case JObject(fields) => fields != map[]
  }

  /** `d.get(key, default)`. */
  function GetOr(fields: map<string, Json>, key: string, default: Json): (r: Json)
    ensures key in fields ==> r == fields[key]
    ensures key !in fields ==> r == default
  {
    if key in fields then fields[key] else default
  }

  /** `d.get(key)`: `None` when the key is absent. */
  function Get(fields: map<string, Json>, key: string): Json {
    GetOr(fields, key, JNull)
  }
}
