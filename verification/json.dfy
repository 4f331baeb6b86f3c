/** The decoded JSON values that user records and payloads hold. */
module Json {
  import opened PyDict
  import Text

  datatype Value =
    | Null
    | Bool(b: bool)
    | Int(i: int)
    | Str(s: string)
    | Array(items: seq<Value>)
    | Object(fields: Dict<Value>)

  /** A user record or a request body: a dict from attribute name to value. */
  type Record = Dict<Value>

  /** `str(v)` as an f-string renders it; a list or a dict becomes a fixed placeholder. */
  function PyStr(v: Value): string {
    match v
    case Null => "None"
    case Bool(b) => if b then "True" else "False"
    case Int(i) => Text.IntToString(i)
    case Str(s) => s
    case Array(_) => "[...]"
    case Object(_) => "{...}"
  }

  /** `d.get(k)`: the value under k, or None when k is absent. */
  function Get(d: Record, k: string): Value {
    if k in d.entries then d.entries[k] else Null
  }
}
