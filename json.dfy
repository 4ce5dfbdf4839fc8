/**
 * Decoded JSON values as `json.loads` produces them, with the Python
 * operations the packing-list reader applies to them: truthiness, the `in`
 * test, `dict.get` with a default, and iteration.
 */
module Json {
  import opened Text

  datatype Json =
    | JNull
    | JBool(b: bool)
    | JNumber(n: real)
    | JString(s: string)
    | JArray(elems: seq<Json>)
    | JObject(fields: map<string, Json>)

  /** The outcome of `json.loads`: a JSONDecodeError, or a value. */
  datatype Decoded = Undecodable | Decoded(value: Json)

  /** Python truthiness of the decoded value. */
  predicate Truthy(j: Json) {
    match j
    case JNull => false
    case JBool(b) => b
    case JNumber(n) => n != 0.0
    case JString(s) => s != []
    case JArray(elems) => elems != []
    case JObject(fields) => fields != map[]
  }

  /** `key in j` where j is a dict, list or string; on the other values Python
      raises TypeError, and callers exclude them. */
  predicate HasKey(j: Json, key: string) {
    match j
    case JObject(fields) => key in fields
    case JArray(elems) => JString(key) in elems
    case JString(s) => Contains(s, key)
    case _ => false
  }

  /** An iterable that yields nothing, as an empty dict or string does. */
  predicate IsEmptyIterable(j: Json) {
    j == JArray([]) || j == JObject(map[]) || j == JString([])
  }

  /** The elements `for x in j` visits, for the lists and empty iterables allowed here. */
  function Elements(j: Json): seq<Json> {
    if j.JArray? then j.elems else []
  }

  /** `j.get(key, default)` on a dict; callers apply it to dicts only. */
  function Get(j: Json, key: string, default: Json): Json {
    if j.JObject? && key in j.fields then j.fields[key] else default
  }
}
