/** JSON-like values as the Python scripts see them after `json.load`, and the
    dictionaries (records) built from them. */
module JsonValue {

  /** A scalar JSON value, tagged by its Python type. Python's `int` and `float`
      are both `Num`, carried as the exact value of the number. Arrays and
      objects nested inside a record are `Other`, identified by a canonical
      representation. */
  datatype Value =
    | Null
    | Bool(b: bool)
    | Num(x: real)
    | Str(s: string)
    | Other(repr: string)

  /** A JSON object: a Python `dict` with string keys. */
  type Record = map<string, Value>

  /** `d.get(key)`: the value stored under `key`, or `None` when it is absent. */
  function Get(d: Record, key: string): Value {
    if key in d then d[key] else Null
  }
}
