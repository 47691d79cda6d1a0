/** Values handled by the CV extraction pipeline: optional results, JSON values
    as the JSON parser returns them, and the CV Record, a dictionary from keys
    to JSON values. */
module CvValues {

  datatype Option<+T> = None | Some(value: T)

  /** A JSON value. Numbers keep their literal text, so no floating point is
      involved. */
  datatype Json =
    | JNull
    | JBool(b: bool)
    | JNumber(literal: string)
    | JString(s: string)
    | JArray(items: seq<Json>)
    | JObject(fields: map<string, Json>)

  /** A CV Record: the object the JSON parser returned, with the key order of
      the dictionary left out. */
  type Record = map<string, Json>

  /** `d.get(key, default)` on a dictionary. */
  function Get(rec: Record, key: string, default: Json): (v: Json)
    ensures key in rec ==> v == rec[key]
    ensures key !in rec ==> v == default
  {
    if key in rec then rec[key] else default
  }

  /** No element occurs twice. */
  predicate NoDuplicates(s: seq<string>) {
    forall i, j :: 0 <= i < j < |s| ==> s[i] != s[j]
  }
}
