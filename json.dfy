/** JSON values as a request body carries them. */
module Json {
  import opened Wrappers

  /** Numbers are modelled as integers only. */
  datatype Json =
    | JNull
    | JBool(b: bool)
    | JNum(n: int)
    | JStr(s: string)
    | JArray(elems: seq<Json>)
    | JObject(members: map<string, Json>)

  /** Python's `dict.get(key)`: the member, or None when the key is absent. */
  function Get(m: map<string, Json>, key: string): (r: Option<Json>)
    ensures r.Some? <==> key in m
    ensures r.Some? ==> r.value == m[key]
  {
    if key in m then Some(m[key]) else None
  }
}
