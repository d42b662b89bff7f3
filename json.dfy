/** The values `json.loads` produces, as the Python objects the monitors then
    inspect, and the Python operations applied to them. */
module Json {
  import opened Text

  /** A decoded JSON value: None, bool, int, str, list or dict. */
  datatype Json =
    | JNull
    | JBool(b: bool)
    | JNum(n: int)
    | JStr(s: string)
    | JArr(items: seq<Json>)
    | JObj(fields: map<string, Json>)

  /** Outcome of `json.loads`: a value, or `JSONDecodeError`. */
  datatype Loaded = Loaded(value: Json) | DecodeError

  /** Python truthiness (`bool(x)`, `not x`). */
  predicate Truthy(j: Json) {
    match j
    case JNull => false
    case JBool(b) => b
    case JNum(n) => n != 0
    case JStr(s) => s != ""
    case JArr(items) => items != []
    case JObj(fields) => fields != map[]
  }

  /** Lists and dicts cannot be dictionary keys: using one raises TypeError. */
  predicate Hashable(j: Json) {
    !j.JArr? && !j.JObj?
  }

  /** `d.get(key, default)` on a dict. */
  function Get(fields: map<string, Json>, key: string, default: Json): (r: Json)
    ensures key in fields ==> r == fields[key]
    ensures key !in fields ==> r == default
  {
    if key in fields then fields[key] else default
  }

  /** `str(x)` for the values that are dictionary keys or flags: None, bool, int, str. */
  function ScalarStr(j: Json): (r: string)
    requires Hashable(j)
    ensures j.JStr? ==> r == j.s
  {
    match j
    case JNull => "None"
    case JBool(b) => if b then "True" else "False"
    case JNum(n) => IntToString(n)
    case JStr(s) => s
  }
}
