/** The values tree a chart's YAML files decode to (Go's `any` as filled by yaml.v3). */
module Values {

  /** One node of the tree: nil, bool, int, float64, string, []any or map[string]any.
      A float is kept only as a number tag: no float64 arithmetic is modelled. */
  datatype Value =
    | Null
    | Bool(b: bool)
    | Int(i: int)
    | Float(f: real)
    | Str(s: string)
    | List(items: seq<Value>)
    | Map(fields: map<string, Value>)

  /** Go's `m[key]` on a map[string]any: a missing key reads as nil. */
  function Lookup(m: map<string, Value>, key: string): (v: Value)
    ensures key !in m ==> v == Null
    ensures key in m ==> v == m[key]
  {
    if key in m then m[key] else Null
  }
}
