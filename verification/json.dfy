/**
 * The JSON values the go-jsonw wrapper builds and reads: null, integers,
 * strings, arrays and dictionaries. A dictionary is a map, as a Go
 * map[string]interface{} is: setting a key twice keeps the last value.
 */
module JsonValue {
  import opened Wrappers

  datatype Json =
    | JNull
    | JInt(i: int)
    | JString(s: string)
    | JArray(items: seq<Json>)
    | JObject(fields: map<string, Json>)

  /** AtKey: the value under a key of a dictionary; nothing for a missing key or a non-dictionary. */
  function AtKey(j: Json, key: string): (v: Option<Json>)
    ensures v.Some? <==> j.JObject? && key in j.fields
    ensures v.Some? ==> v.value == j.fields[key]
  {
    if j.JObject? && key in j.fields then Some(j.fields[key]) else None
  }
}
