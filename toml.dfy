/** The part of the TOML document model (tomlkit) that the translator
    reads and writes. */
module Toml {
  import opened Dicts

  /** A TOML value; tables keep their keys in document order. */
  datatype Value =
    | Str(s: string)
    | Int(i: int)
    | Bool(b: bool)
    | Arr(items: seq<Value>)
    | Table(entries: Dict<Value>)

  /** A whole `pyproject.toml` document: its top-level table. */
  type Document = Dict<Value>

  /** Python truthiness: empty strings, zero, `false`, empty arrays and
      empty tables are false. */
  predicate Truthy(v: Value)
  {
    match v
    case Str(s) => s != ""
    case Int(i) => i != 0
    case Bool(b) => b
    case Arr(items) => items != []
    case Table(entries) => entries != []
  }

  /** A TOML array of strings. */
  function StrArray(ss: seq<string>): Value
  {
    Arr(seq(|ss|, i requires 0 <= i < |ss| => Str(ss[i])))
  }
}
