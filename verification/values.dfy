/**
 The values the harvester and the report helpers pass around: an Option type,
 bytes, and the Python objects that `json.loads` produces.

 Python's `None` and JSON `null` are the same object, so `JNull` stands for
 both: a lookup that fails and a lookup whose body is `null` are the same
 value, exactly as in the program.
 */
module Values {

  datatype Option<+T> = None | Some(value: T)

  newtype byte = x: int | 0 <= x < 256

  /** A JSON document as `json.loads` returns it (numbers are integers here). */
  datatype Json =
    | JNull
    | JBool(b: bool)
    | JNum(n: int)
    | JStr(s: string)
    | JArr(items: seq<Json>)
    | JObj(fields: map<string, Json>)

  /** Python truthiness: `None`, `False`, `0`, `""`, `[]` and `{}` are false. */
  predicate Truthy(j: Json) {
    match j
    case JNull => false
    case JBool(b) => b
    case JNum(n) => n != 0
    case JStr(s) => |s| > 0
    case JArr(xs) => |xs| > 0
    case JObj(m) => |m| > 0
  }

  /** `d.get(key)`: the value under `key`, or `None` when the key is missing. */
  function Get(m: map<string, Json>, key: string): Json {
    GetOr(m, key, JNull)
  }

  /** `d.get(key, default)`: the default is used only when the key is missing. */
  function GetOr(m: map<string, Json>, key: string, default: Json): Json {
    if key in m then m[key] else default
  }

  /** Python's `a or b`: the first operand when it is truthy, else the second. */
  function Or(a: Json, b: Json): (r: Json)
    ensures Truthy(r) <==> Truthy(a) || Truthy(b)
    ensures r == a || r == b
  {
    if Truthy(a) then a else b
  }
}
