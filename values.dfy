/** Values exchanged with the task engine and returned to HTTP clients. */
module Values {

  /** The conventional optional value. */
  datatype Option<+T> = None | Some(value: T)

  /** A JSON document as the service hands it to `jsonify`: Python's `None`
      is `JNull`, a dictionary is `JObject`, a list is `JArray`. */
  datatype Json =
    | JNull
    | JBool(b: bool)
    | JNum(n: real)
    | JStr(s: string)
    | JArray(items: seq<Json>)
    | JObject(members: map<string, Json>)
}
