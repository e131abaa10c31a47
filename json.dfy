/**
 * The JSON values that cross the application's boundaries: what `JSON.parse`
 * yields, what slot records and node `properties` hold, and JavaScript's
 * truthiness on them.
 */
module Json {
  import opened Options

  datatype Json =
    | JNull
    | JBool(b: bool)
    | JNum(n: int)
    | JStr(s: string)
    | JArr(items: seq<Json>)
    | JObj(fields: map<string, Json>)

  /** A string-keyed object, as in `Record<string, any>`. */
  type Record = map<string, Json>

  /** JavaScript truthiness: `null`, `false`, `0` and `""` are falsy; every array and
      object, even an empty one, is truthy. */
  predicate Truthy(j: Json) {
    match j
    case JNull => false
    case JBool(b) => b
    case JNum(n) => n != 0
    case JStr(s) => s != ""
    case JArr(_) => true
    case JObj(_) => true
  }

  /** `Array.isArray(o[key])` for a value `o` that may not be an object. */
  predicate FieldIsArray(j: Json, key: string) {
    j.JObj? && key in j.fields && j.fields[key].JArr?
  }

  /** `xs.map(s => s)` as a JSON array of strings. */
  function Strings(xs: seq<string>): (r: Json)
    ensures r.JArr? && |r.items| == |xs|
    ensures forall i :: 0 <= i < |xs| ==> r.items[i] == JStr(xs[i])
  {
    JArr(seq(|xs|, i requires 0 <= i < |xs| => JStr(xs[i])))
  }
}
