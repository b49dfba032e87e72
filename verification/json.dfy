/** The JSON trees System.Text.Json reads and writes, as far as the envelope needs them. */
module Json {

  /** A parsed JSON value (what a JsonElement holds once it is defined). */
  datatype JsonValue =
    | Null
    | Bool(b: bool)
    | Number(n: real)
    | String(s: string)
    | Array(items: seq<JsonValue>)
    | Object(members: map<string, JsonValue>)

  /**
   * A System.Text.Json JsonElement: default(JsonElement), whose ValueKind is
   * Undefined, or an element of a parsed document.
   */
  datatype JsonElement = Undefined | Element(value: JsonValue)
}
