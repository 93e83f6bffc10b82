/** GrpcWebFilter.java: forwards gRPC-Web requests that arrive at any path
    to the gateway servlet mounted under one destination path. */
module Filtering {
  import opened Common
  import opened Servlet
  import opened ContentTypes

  const DEFAULT_FORWARD_DESTINATION: string := "/grpc-web"

  /** A constructed filter: its lookup and its destination. */
  datatype GrpcWebFilter = GrpcWebFilter(
    contentTypeLookup: Option<string> -> Result<GrpcWebContentType>,
    forwardDestination: string)

  /** What `doFilter` does with a request. */
  datatype FilterAction = Forward(path: string) | Continue

  /** The three-argument constructor: the destination must start with `/` and
      must not end with `/`; otherwise IllegalArgumentException. */
  function NewFilter(lookup: Option<string> -> Result<GrpcWebContentType>, forwardDestination: string): (r: Result<GrpcWebFilter>)
    ensures r.Ok? <==> StartsWith(forwardDestination, "/") && !EndsWith(forwardDestination, "/")
    ensures r.Ok? ==> r.value.forwardDestination == forwardDestination && r.value.contentTypeLookup == lookup
    ensures r.Err? ==> r.error == IllegalArgument
  {
    if !StartsWith(forwardDestination, "/") then Err(IllegalArgument)
    else if EndsWith(forwardDestination, "/") then Err(IllegalArgument)
    else Ok(GrpcWebFilter(lookup, forwardDestination))
  }

  /** The no-argument constructor: the default lookup and `/grpc-web`. */
  function DefaultFilter(): (r: Result<GrpcWebFilter>)
    ensures r.Ok? && r.value.forwardDestination == DEFAULT_FORWARD_DESTINATION
    ensures r.Ok? && r.value.contentTypeLookup == Lookup
  {
    NewFilter(Lookup, DEFAULT_FORWARD_DESTINATION)
  }

  /** `doFilter`: forward to `dest + uri` when the URI is not already under
      `dest/` and the request is gRPC-Web; otherwise pass it down the chain.
      The lookup is consulted only when the URI test passes, and an
      exception from it other than NoSuchElementException propagates. */
  function DoFilter(filter: GrpcWebFilter, req: HttpRequest): (r: Result<FilterAction>)
    ensures StartsWith(req.requestUri, filter.forwardDestination + "/") ==> r == Ok(Continue)
    ensures !StartsWith(req.requestUri, filter.forwardDestination + "/") ==>
              r == match IsGrpcWebRequest(filter.contentTypeLookup, req)
                   case Ok(true) => Ok(Forward(filter.forwardDestination + req.requestUri))
                   case Ok(false) => Ok(Continue)
                   case Err(e) => Err(e)
  {
    if StartsWith(req.requestUri, filter.forwardDestination + "/") then Ok(Continue)
    else
      match IsGrpcWebRequest(filter.contentTypeLookup, req)
      case Err(e) => Err(e)
      case Ok(isGrpcWeb) => if isGrpcWeb then Ok(Forward(filter.forwardDestination + req.requestUri)) else Ok(Continue)
  }

  // ------------------------------------------------------------ properties

  /** `/` alone is refused, as is a relative path. */
  lemma DestinationRejections(root: string, relative: string)
    requires root == "/" && relative == "grpc-web"
    ensures NewFilter(Lookup, root).Err? && NewFilter(Lookup, relative).Err?
  {
  }

  /** With the default lookup a request is forwarded iff its URI is not under
      `dest/` and its content type is one of the four gRPC-Web types; the
      target is the destination followed by the whole URI. */
  lemma DefaultForwarding(filter: GrpcWebFilter, req: HttpRequest)
    requires filter.contentTypeLookup == Lookup
    ensures DoFilter(filter, req).Ok?
    ensures DoFilter(filter, req).value.Forward? <==>
              !StartsWith(req.requestUri, filter.forwardDestination + "/") && Lookup(req.contentType).Ok?
    ensures DoFilter(filter, req).value.Forward? ==>
              DoFilter(filter, req).value.path == filter.forwardDestination + req.requestUri
  {
    DefaultIsGrpcWebRequest(req);
  }

  /** No double forwarding: the forwarded URI of a request whose URI starts
      with `/` lies under `dest/`, so the filter passes it on unchanged when
      it sees it again. */
  lemma {:induction false} NoDoubleForward(filter: GrpcWebFilter, req: HttpRequest)
    requires StartsWith(req.requestUri, "/")
    requires DoFilter(filter, req) == Ok(Forward(filter.forwardDestination + req.requestUri))
    ensures DoFilter(filter, req.(requestUri := filter.forwardDestination + req.requestUri)) == Ok(Continue)
  {
    var dest := filter.forwardDestination;
    var uri := dest + req.requestUri;
    assert uri[..|dest| + 1] == dest + "/";
  }
}
