/** The library calls the extractors depend on but this model does not
    define: base64 decoding followed by UTF-8 decoding, and JSON parsing.
    They are passed in; `None` stands for the exception each raises. */
module Codecs {
  import opened Results

  /** A JSON document, as far as the extractors read it: an object's string
      fields, or anything else. */
  datatype Json = Object(fields: map<string, string>) | NotObject

  /** `base64.b64decode(s).decode()` and `json.loads(s)`. */
  datatype Codecs = Codecs(b64decode: string -> Option<string>, parseJson: string -> Option<Json>)

  /** `data.get(key)` when it is a non-empty string: a present, truthy value. */
  function NonEmptyField(j: Json, key: string): (r: Option<string>)
    ensures r.Some? <==> j.Object? && key in j.fields && j.fields[key] != ""
    ensures r.Some? ==> r.value == j.fields[key]
  {
    if j.Object? && key in j.fields && j.fields[key] != "" then Some(j.fields[key])
    else None
  }
}
