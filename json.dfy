/** JSON values as the parser hands them to the middleware. The parser itself
    is not modelled: it is a parameter of type Parser. */
module Json {
  import opened Wrappers

  /** A JSON value. Numbers are integers; floating point is not modelled. */
  datatype Value =
    | Null
    | Bool(b: bool)
    | Number(n: int)
    | Str(s: string)
    | Arr(items: seq<Value>)
    | Obj(fields: map<string, Value>)

  /** A parsed JSON object: its top-level keys and their values. */
  type Object = map<string, Value>

  /** The exception raised while getting the parsed body: JSON::ParserError
      from JSON.parse, or the TypeError the `returns(Hash)` signature of
      request_json_body raises when JSON.parse yields something other than
      an object. */
  datatype JsonError = JsonError

  /** JSON.parse followed by the signature's Hash check: Some(object) when
      the text is a JSON object, None when either raises. */
  type Parser = string -> Option<Object>
}
