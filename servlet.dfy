/** The parts of the servlet request and response the gateway touches. The
    request is a value; the response records, in order, every call made on
    it, so that the writer's contracts can say what was sent and when. */
module Servlet {
  import opened Common

  /** An `HttpServletRequest`. `headers(name)` is `getHeaders(name)`, with
      `None` for a null enumeration; `body` is the (already base64-decoded)
      request body, or the IOException reading it raises. */
  datatype HttpRequest = HttpRequest(
    contentType: Option<string>,
    pathInfo: Option<string>,
    requestUri: string,
    headerNames: Option<seq<string>>,
    headers: string -> Option<seq<string>>,
    body: Result<seq<byte>>)

  /** `getHeader(name)`: the first value, or null. */
  function GetHeader(req: HttpRequest, name: string): (r: Option<string>)
    ensures r.Some? <==> req.headers(name).Some? && req.headers(name).value != []
    ensures r.Some? ==> r.value == req.headers(name).value[0]
  {
    match req.headers(name)
    case Some(values) => if values == [] then None else Some(values[0])
    case None => None
  }

  /** One call on the `HttpServletResponse` or its output stream. */
  datatype ResponseEvent =
    | SetStatus(code: int)
    | SetContentType(contentType: string)
    | SetHeader(name: string, value: string)
    | AddHeader(name: string, value: string)
    | FlushBuffer
    | BodyWrite(bytes: seq<byte>)
    | BodyFlush
    | BodyClose

  const SC_OK: int := 200

  /** An `HttpServletResponse`, as the sequence of calls made on it. */
  class HttpResponse {
    var events: seq<ResponseEvent>

    constructor ()
      ensures events == []
    {
      events := [];
    }

    method Record(e: ResponseEvent)
      modifies this
      ensures events == old(events) + [e]
    {
      events := events + [e];
    }
  }
}
