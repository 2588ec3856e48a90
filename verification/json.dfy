/** JSON values, as `serde_json::Value`. */
module Json {
  datatype Json =
    | Null
    | Bool(flag: bool)
    | Number(text: string)
    | String(text: string)
    | Array(items: seq<Json>)
    | Object(fields: map<string, Json>)
}
