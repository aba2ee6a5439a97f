/**
 * JSON values as JavaScript sees them after `JSON.parse`, with the truthiness
 * test that `if (x)`, `!x` and `&&` apply to them.  An object is the map of its
 * own properties (key order is not modelled).
 */
module JsonValue {
  import opened Wrappers

  datatype Json =
    | JNull
    | JBool(b: bool)
    | JNum(n: real)
    | JStr(s: string)
    | JArr(elems: seq<Json>)
    | JObj(fields: map<string, Json>)

  /** JavaScript truthiness; JSON cannot hold NaN, and -0 is 0 here. */
  predicate Truthy(j: Json) {
    match j
    case JNull => false
    case JBool(b) => b
    case JNum(n) => n != 0.0
    case JStr(s) => s != ""
    case JArr(_) => true
    case JObj(_) => true
  }

  /** `j[key]` for an object; `undefined` (None) for a missing key or a value that is not an object. */
  function Property(j: Json, key: string): (r: Option<Json>)
    ensures r.Some? <==> j.JObj? && key in j.fields
    ensures r.Some? ==> r.value == j.fields[key]
  {
    if j.JObj? && key in j.fields then Some(j.fields[key]) else None
  }

  /** Truthiness of `j[key]`, where `undefined` is falsy. */
  predicate TruthyProperty(j: Json, key: string) {
    var p := Property(j, key);
    p.Some? && Truthy(p.value)
  }
}
