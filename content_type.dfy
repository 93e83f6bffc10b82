/** DefaultContentTypeLookup.java and ContentTypeLookup.java: which
    Content-Type values are gRPC-Web, and whether their bodies are base64. */
module ContentTypes {
  import opened Common
  import opened Servlet

  /** `GrpcWebContentType`: a recognised content type and whether bodies of
      that type are base64 text. */
  datatype GrpcWebContentType = GrpcWebContentType(contentType: string, base64Encoded: bool)

  const GRPC_WEB: string := "application/grpc-web"
  const GRPC_WEB_PROTO: string := "application/grpc-web+proto"
  const GRPC_WEB_TEXT: string := "application/grpc-web-text"
  const GRPC_WEB_TEXT_PROTO: string := "application/grpc-web-text+proto"

  /** `GRPC_WEB_CONTENT_TYPES`: the four variants, keyed by their own
      content type. */
  const GRPC_WEB_CONTENT_TYPES: map<string, GrpcWebContentType> := map[
    GRPC_WEB := GrpcWebContentType(GRPC_WEB, false),
    GRPC_WEB_PROTO := GrpcWebContentType(GRPC_WEB_PROTO, false),
    GRPC_WEB_TEXT := GrpcWebContentType(GRPC_WEB_TEXT, true),
    GRPC_WEB_TEXT_PROTO := GrpcWebContentType(GRPC_WEB_TEXT_PROTO, true)
  ]

  /** `lookup`: an exact, case-sensitive match against the table; a miss or
      a null content type is a NoSuchElementException. */
  function Lookup(contentType: Option<string>): (r: Result<GrpcWebContentType>)
    ensures r.Ok? <==> contentType.Some? &&
                       contentType.value in {GRPC_WEB, GRPC_WEB_PROTO, GRPC_WEB_TEXT, GRPC_WEB_TEXT_PROTO}
    ensures r.Ok? ==> r.value.contentType == contentType.value
    ensures r.Ok? ==> (r.value.base64Encoded <==> contentType.value in {GRPC_WEB_TEXT, GRPC_WEB_TEXT_PROTO})
    ensures r.Err? ==> r.error == NoSuchElement
  {
    match contentType
    case None => Err(NoSuchElement)
    case Some(s) => if s in GRPC_WEB_CONTENT_TYPES then Ok(GRPC_WEB_CONTENT_TYPES[s]) else Err(NoSuchElement)
  }

  /** `isGrpcWebRequest` over any `lookup`: false exactly when the lookup
      throws NoSuchElementException; any other exception of the lookup
      propagates. */
  function IsGrpcWebRequest(lookup: Option<string> -> Result<GrpcWebContentType>, req: HttpRequest): (r: Result<bool>)
    ensures r.Ok? <==> lookup(req.contentType).Ok? || lookup(req.contentType).error == NoSuchElement
    ensures r.Ok? ==> (r.value <==> lookup(req.contentType).Ok?)
    ensures r.Err? ==> r.error == lookup(req.contentType).error && r.error != NoSuchElement
  {
    match lookup(req.contentType)
    case Ok(_) => Ok(true)
    case Err(e) => if e == NoSuchElement then Ok(false) else Err(e)
  }

  // ------------------------------------------------------------ properties

  /** With the default table the predicate never fails, and holds for
      exactly the four gRPC-Web content types. */
  lemma DefaultIsGrpcWebRequest(req: HttpRequest)
    ensures IsGrpcWebRequest(Lookup, req).Ok?
    ensures IsGrpcWebRequest(Lookup, req).value <==>
              req.contentType.Some? &&
              req.contentType.value in {GRPC_WEB, GRPC_WEB_PROTO, GRPC_WEB_TEXT, GRPC_WEB_TEXT_PROTO}
  {
  }

  /** A request without a Content-Type is not gRPC-Web. */
  lemma NoContentTypeIsNotGrpcWeb(req: HttpRequest)
    requires req.contentType.None?
    ensures IsGrpcWebRequest(Lookup, req) == Ok(false)
  {
  }

  /** Parameters are not stripped before matching: a recognised type
      followed by anything else is refused. */
  lemma SuffixedContentTypeRefused(base: string, suffix: string)
    requires base in GRPC_WEB_CONTENT_TYPES && suffix != [] && suffix[0] == ';'
    ensures Lookup(Some(base + suffix)) == Err(NoSuchElement)
  {
    var s := base + suffix;
    assert s[|base|] == ';';
  }
}
