/** Values a YAML or JSON parser hands over, and `undefined`, which reading an absent property yields. */
module Values {

  /** A mapping lists its entries in enumeration order. */
  datatype Value =
    | Undefined
    | Null
    | Bool(b: bool)
    | Number(n: real)
    | Str(s: string)
    | List(items: seq<Value>)
    | Map(entries: seq<(string, Value)>)

  type Entries = seq<(string, Value)>

  /** `object[key]`. */
  function Lookup(entries: Entries, key: string): Value {
    if entries == [] then Undefined
    else if entries[0].0 == key then entries[0].1
    else Lookup(entries[1..], key)
  }

  /** `v.key` of a mapping. */
  function Field(v: Value, key: string): Value
    requires v.Map?
  {
    Lookup(v.entries, key)
  }

  /** `Object.keys`. */
  function Keys(entries: Entries): (r: seq<string>)
    ensures |r| == |entries| && forall i | 0 <= i < |r| :: r[i] == entries[i].0
  {
    seq(|entries|, i requires 0 <= i < |entries| => entries[i].0)
  }

  /** `undefined` or `null`. */
  predicate Absent(v: Value) { v.Undefined? || v.Null? }
}
