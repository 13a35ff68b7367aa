/**
 * The parsed body of the metadata service's answer, as `res.json()` hands it
 * to the page, and the two JavaScript operators the page applies to it:
 * truthiness (`!json`, `!json.directlink`) and `typeof`.
 */
module Json {
  import opened Wrappers

  /** A JSON value. Numbers are kept as exact reals. */
  datatype Json =
    | JNull
    | JBool(b: bool)
    | JNumber(n: real)
    | JString(s: string)
    | JArray(items: seq<Json>)
    | JObject(fields: map<string, Json>)

  /** JavaScript truthiness of a parsed value: null, false, 0 and "" are falsy;
      every array and every object, even an empty one, is truthy. */
  predicate Truthy(j: Json) {
    match j
    case JNull => false
    case JBool(b) => b
    case JNumber(n) => n != 0.0
    case JString(s) => s != ""
    case JArray(_) => true
    case JObject(_) => true
  }

  /** Truthiness of a property read, where None is `undefined` (falsy). */
  predicate TruthyProperty(v: Option<Json>) {
    v.Some? && Truthy(v.value)
  }

  /** `typeof` of a parsed value; null and arrays are "object" too. */
  function TypeOf(j: Json): (r: string)
    ensures r == "object" <==> j.JNull? || j.JArray? || j.JObject?
  {
    match j
    case JNull => "object"
    case JBool(_) => "boolean"
    case JNumber(_) => "number"
    case JString(_) => "string"
    case JArray(_) => "object"
    case JObject(_) => "object"
  }

  /** Reading a named property other than `length`: an object's own field, and
      `undefined` for a missing one and for every other kind of value. */
  function Property(j: Json, key: string): Option<Json> {
    if j.JObject? && key in j.fields then Some(j.fields[key]) else None
  }

  /** What `!json || typeof json !== "object"` lets through: exactly the arrays
      and the objects. */
  lemma ObjectLike(j: Json)
    ensures (Truthy(j) && TypeOf(j) == "object") <==> (j.JArray? || j.JObject?)
  {
  }
}
