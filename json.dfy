/** JSON values as `serde_json::Value` holds them; text is UTF-8 bytes. */
module Json {
  import opened Utf8

  /** Object keys are unique and unordered, as in serde_json's default map. */
  datatype Json =
    | Null
    | Bool(b: bool)
    | Number(n: int)
    | String(text: seq<byte>)
    | Array(items: seq<Json>)
    | Object(fields: map<seq<byte>, Json>)

  /** A string value written as a 7-bit Rust literal. */
  function Str(s: string): Json
  {
    String(AsciiBytes(s))
  }
}
