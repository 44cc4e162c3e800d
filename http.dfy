/** The parts of a fetch-standard `Response` the handlers set. */
module Http {
  import opened JsonValues

  /** A header line: name and value. */
  type Header = (string, string)

  /** A response body: none (`null`), plain text, or a value `JSON.stringify` writes. */
  datatype Body = NoBody | Text(text: string) | JsonBody(value: Json)

  datatype Response = Response(status: int, body: Body, headers: seq<Header>)

  /** The status `new Response(body, init)` takes when `init` names none. */
  const DefaultStatus: int := 200
}
