/** The parsed JSON values that the repository and the recommender inspect: the element
    tree of kotlinx.serialization (`JsonNull`, primitives, `JsonArray`, `JsonObject`).
    Numbers and booleans keep the text they were written with, as a `JsonPrimitive`
    does; the parser itself is not modelled and callers receive its result. */
module Json {
  import opened Common

  datatype Json =
    | JNull
    | JBool(flag: bool)
    | JNumber(text: string)
    | JString(str: string)
    | JArray(items: seq<Json>)
    | JObject(fields: map<string, Json>)

  /** `is JsonPrimitive`: `JsonNull` is a primitive too. */
  predicate IsPrimitive(j: Json) {
    !j.JArray? && !j.JObject?
  }

  /** `(j as? JsonPrimitive)?.content`: the text of a primitive, where `JsonNull` reads
      as "null" and booleans as "true"/"false", and `None` for arrays and objects. */
  function Content(j: Json): (r: Option<string>)
    ensures r.Some? <==> IsPrimitive(j)
    ensures j.JString? ==> r == Some(j.str)
    ensures j.JNumber? ==> r == Some(j.text)
    ensures j.JNull? ==> r == Some("null")
    ensures j.JBool? ==> r == Some(if j.flag then "true" else "false")
  {
    match j
    case JNull => Some("null")
    case JBool(b) => Some(if b then "true" else "false")
    case JNumber(t) => Some(t)
    case JString(s) => Some(s)
    case JArray(_) => None
    case JObject(_) => None
  }

  /** `(j as? JsonObject)?.get(key)`. */
  function Field(j: Json, key: string): (r: Option<Json>)
    ensures r.Some? <==> j.JObject? && key in j.fields
    ensures r.Some? ==> r.value == j.fields[key]
  {
    if j.JObject? && key in j.fields then Some(j.fields[key]) else None
  }

  /** `(j as? JsonObject)?.get(key)` for an element that may be missing. */
  function FieldOf(j: Option<Json>, key: string): (r: Option<Json>)
    ensures r.Some? <==> j.Some? && j.value.JObject? && key in j.value.fields
    ensures r.Some? ==> r.value == j.value.fields[key]
  {
    if j.Some? then Field(j.value, key) else None
  }

  /** `(j as? JsonArray)?.get(index)`. */
  function Element(j: Option<Json>, index: nat): (r: Option<Json>)
    ensures r.Some? <==> j.Some? && j.value.JArray? && index < |j.value.items|
    ensures r.Some? ==> r.value == j.value.items[index]
  {
    if j.Some? && j.value.JArray? && index < |j.value.items| then Some(j.value.items[index]) else None
  }

  /** `(obj["key"] as? JsonPrimitive)?.content` for an element that may be missing. */
  function FieldContent(j: Option<Json>, key: string): (r: Option<string>)
    ensures r.Some? <==> j.Some? && j.value.JObject? && key in j.value.fields
                         && IsPrimitive(j.value.fields[key])
    ensures r.Some? ==> r == Content(j.value.fields[key])
  {
    if j.Some? then
      var f := Field(j.value, key);
      if f.Some? then Content(f.value) else None
    else None
  }
}
