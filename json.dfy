/** The JSON data model that serde reads and writes. Only values are
    modelled, not their text: an object is a map from key to value, so the
    order of keys in a document plays no part. */
module JsonValue {
  datatype Json =
    | JNull
    | JBool(b: bool)
    | JNumber(n: int)
    | JString(s: string)
    | JArray(items: seq<Json>)
    | JObject(fields: map<string, Json>)
}
