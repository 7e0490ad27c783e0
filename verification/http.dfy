/** The slice of the HTTP message model that a resource reads and writes. */
module Http {
  import opened Wrappers
  import opened Decimal

  /** The two statuses a resource produces: `200 OK` and `304 Not Modified`. */
  datatype Status = Ok | NotModified

  /** A media type, by its textual value. */
  datatype ContentType = ContentType(value: string)

  const OctetStream: ContentType := ContentType("application/octet-stream")

  /** Header name/value pairs in order; a value may be absent (`null`). */
  type Headers = seq<(string, Option<string>)>

  /** A response body: none, or a stream opened from the resource together
      with the declared length (if known). */
  datatype Body = NoBody | StreamBody(length: Option<Long>)

  datatype Response = Response(status: Status, headers: Headers, body: Body)

  /** A request, reduced to the raw text of the two validator headers it may
      carry. */
  datatype Request = Request(ifModifiedSince: Option<string>, ifNoneMatch: Option<string>)
}
