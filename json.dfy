/** The decoded JSON values that flow through the backend: language-model
    analyses, synthesized profiles, the `result` and `personality_profile`
    columns. Numbers are kept integral. */
module JsonValue {

  datatype Json =
    | Null
    | Bool(b: bool)
    | Number(n: int)
    | Str(s: string)
    | Array(items: seq<Json>)
    | Object(fields: map<string, Json>)

  /** Python truthiness of the decoded value (`None`, `False`, `0`, `""`,
      `[]` and `{}` are falsy). */
  predicate Truthy(j: Json) {
    match j
    case Null => false
    case Bool(b) => b
    case Number(n) => n != 0
    case Str(s) => |s| > 0
    case Array(items) => |items| > 0
    case Object(fields) => |fields| > 0
  }

  /** `"key" in value` for a dict value; false for any other shape. */
  predicate HasKey(j: Json, key: string) {
    j.Object? && key in j.fields
  }
}
