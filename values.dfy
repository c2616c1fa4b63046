/** JSON values as the tools see them after loading a file, with Python's
    truthiness and `dict.get` semantics. */
module Values {

  datatype Option<T> = None | Some(value: T)

  /** A decoded JSON value. Floating-point numbers are not modelled. */
  datatype Json =
    | Null
    | Bool(b: bool)
    | Int(i: int)
    | Str(s: string)
    | List(items: seq<Json>)
    | Obj(fields: map<string, Json>)

  /** A JSON object (a Python `dict` with string keys). */
  type Dict = map<string, Json>

  /** Python's `bool(value)` for decoded JSON. */
  predicate Truthy(v: Json)
  {
    match v
    case Null => false
    case Bool(b) => b
    case Int(i) => i != 0
    case Str(s) => s != ""
    case List(xs) => xs != []
    case Obj(m) => m != map[]
  }

  /** `d.get(key)`: a missing key reads as `None`, i.e. JSON null. */
  function Get(d: Dict, key: string): Json
  {
    if key in d then d[key] else Null
  }

  /** `value or default`. */
  function Or(v: Json, default: Json): Json
  {
    if Truthy(v) then v else default
  }

  /** The string behind `value or ""` when the value is a string or falsy.
      A truthy value of another type would make the tools' string methods
      raise; that path is not modelled and reads as "". */
  function TextOf(v: Json): string
  {
    if v.Str? then v.s else ""
  }

  /** `d.get(key) or ""`, as a string. */
  function StrField(d: Dict, key: string): string
  {
    TextOf(Or(Get(d, key), Str("")))
  }
}
