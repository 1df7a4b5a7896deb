/** Decoded JSON values, as `json.loads` and the HTTP clients hand them to
    the modelled code, with the few Python operations the code applies to
    them: truth value, `or`, `len` and `dict.get`. */
module JsonValues {
  import opened Wrappers

  /** JSON numbers are taken to be integers. */
  datatype Json =
    | Null
    | Bool(b: bool)
    | Number(n: int)
    | Str(s: string)
    | Array(items: seq<Json>)
    | Object(fields: map<string, Json>)

  /** Python's `bool(v)`: `None`, `False`, `0` and empty containers are false. */
  predicate Truthy(v: Json) {
    match v
    case Null => false
    case Bool(b) => b
    case Number(n) => n != 0
    case Str(s) => s != []
    case Array(items) => items != []
    case Object(fields) => fields != map[]
  }

  /** Python's `a or b`: `a` when it is true, otherwise `b`. */
  function Or(a: Json, b: Json): Json {
    if Truthy(a) then a else b
  }

  /** Python's `v.get(key, default)`; `None` when `v` is not a dictionary,
      where Python raises `AttributeError`. */
  function Get(v: Json, key: string, default: Json): Option<Json> {
    match v
    case Object(fields) => Some(if key in fields then fields[key] else default)
    case _ => None
  }

  /** Python's `len(v)`; `None` where Python raises `TypeError`. */
  function Len(v: Json): Option<nat> {
    match v
    case Str(s) => Some(|s|)
    case Array(items) => Some(|items|)
    case Object(fields) => Some(|fields.Keys|)
    case _ => None
  }

  /** `key in v` for a dictionary `v`. */
  predicate Has(v: Json, key: string) {
    v.Object? && key in v.fields
  }
}
