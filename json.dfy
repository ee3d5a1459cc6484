/** JSON documents as the database stores them, and the serialiser left opaque. */
module Json {
  import opened Wrappers
  import opened Bytes

  datatype Json =
    | JNull
    | JBool(b: bool)
    | JNum(n: real)
    | JStr(s: string)
    | JArr(items: seq<Json>)
    | JObj(fields: seq<(string, Json)>)

  /** `json.dumps(...).encode()` and `json.loads(bytes.decode())`. */
  datatype Codec = Codec(dumps: Json -> seq<byte>, loads: seq<byte> -> Option<Json>)

  /** Loading what was dumped gives the document `j` back. This is a property of
      one document, not of the codec: numbers here are exact reals, so no codec
      into byte strings can give back every document, as `json` does not give
      back every float (NaN, say). */
  predicate RoundTripsOn(c: Codec, j: Json)
  {
    c.loads(c.dumps(j)) == Some(j)
  }

  /** Python truthiness: `None`, `False`, zero and empty containers are false. */
  predicate Truthy(j: Json)
  {
    match j
    case JNull => false
    case JBool(b) => b
    case JNum(n) => n != 0.0
    case JStr(s) => |s| > 0
    case JArr(items) => |items| > 0
    case JObj(fields) => |fields| > 0
  }
}
