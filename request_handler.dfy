/** RequestHandler.java: one gRPC-Web request, from the servlet request to
    the outbound unary or server-streaming call. Everything that goes wrong
    before the call is issued ends the response with a trailer frame, except
    an unknown content type and an I/O failure, which are rethrown. */
module RequestHandling {
  import opened Common
  import opened Servlet
  import opened Streams
  import opened FrameFlags
  import opened FrameDecoding
  import opened ServiceLocation
  import opened ContentTypes
  import opened HeaderConverter
  import opened DefaultHeaderConverter
  import opened MetadataModel
  import opened ResponseWriting
  import opened TextEncoding
  import Base64

  const GRPC_ENCODING: string := "grpc-encoding"
  const IDENTITY: string := "identity"
  const GRPC_TIMEOUT: string := "grpc-timeout"
  const UNSUPPORTED_ENCODING: string := "Unsupported encoding"
  const UNKNOWN_TIMEOUT: string := "Unknown timeout value"
  const ONLY_UNARY: string := "Only unary requests are supported"

  /** The interceptors the handler puts around the method's channel, in the
      order they are added: the deadline from `grpc-timeout`, the bridge
      that writes the call's responses (`GrpcWebClientInterceptor`), and the
      request headers. */
  datatype Interceptor = DeadlineAfter(nanos: nat) | ResponseBridge | AttachHeaders(headers: Metadata)

  /** An outbound call: the method, the interceptors around its channel and
      the one request message. */
  datatype Call<T> = Call(descriptor: MethodDescriptor, interceptors: seq<Interceptor>, request: T)

  /** What `handle` ends with: it throws, it returns a failed future after
      writing the trailers, or it returns the pending future of a call. */
  datatype Outcome<T> =
    | Rethrown(error: Exception)
    | Failed(status: Status, trailers: Metadata, cause: Exception)
    | Pending(call: Call<T>)

  // ------------------------------------------------------ specification

  /** `request.getPathInfo().substring(1)`: a missing path is a
      NullPointerException and an empty one a
      StringIndexOutOfBoundsException; otherwise the first character is
      dropped. */
  function FullMethodName(pathInfo: Option<string>): (r: Result<string>)
    ensures pathInfo.None? ==> r == Err(NullPointer)
    ensures pathInfo == Some([]) ==> r == Err(IndexOutOfBounds)
    ensures r.Ok? <==> pathInfo.Some? && pathInfo.value != []
    ensures r.Ok? ==> [pathInfo.value[0]] + r.value == pathInfo.value
  {
    match pathInfo
    case None => Err(NullPointer)
    case Some(path) => if path == [] then Err(IndexOutOfBounds) else Ok(path[1..])
  }

  /** `getMethodDescriptor`: a method the locator cannot find is
      UNIMPLEMENTED, without description or trailers; any other failure of
      the locator passes through. */
  function GetMethodDescriptor(locate: string -> Result<ServiceDescriptor>, fullMethodName: string): (r: Result<MethodDescriptor>)
    ensures r.Ok? <==> LocateMethod(locate, fullMethodName).Ok?
    ensures r.Ok? ==> r.value == LocateMethod(locate, fullMethodName).value && r.value.fullMethodName == fullMethodName
    ensures LocateMethod(locate, fullMethodName) == Err(NoSuchElement) ==>
              r == Err(StatusException(Plain(UNIMPLEMENTED), None))
    ensures LocateMethod(locate, fullMethodName).Err? && LocateMethod(locate, fullMethodName).error != NoSuchElement ==>
              r == Err(LocateMethod(locate, fullMethodName).error)
  {
    match LocateMethod(locate, fullMethodName)
    case Ok(descriptor) => Ok(descriptor)
    case Err(e) => if e == NoSuchElement then Err(StatusException(Plain(UNIMPLEMENTED), None)) else Err(e)
  }

  /** `addTimeout`: a `grpc-timeout` value that does not parse is
      UNIMPLEMENTED "Unknown timeout value"; one that does adds a deadline of
      exactly its length. */
  function AddTimeout(timeout: string, channel: seq<Interceptor>): (r: Result<seq<Interceptor>>)
    ensures r.Ok? <==> MatchesTimeoutPattern(timeout)
    ensures r.Ok? ==> r.value == channel + [DeadlineAfter(ParseTimeout(timeout).value)]
    ensures r.Err? ==> r.error == StatusError(UNIMPLEMENTED, UNKNOWN_TIMEOUT)
  {
    match ParseTimeout(timeout)
    case Err(_) => Err(StatusError(UNIMPLEMENTED, UNKNOWN_TIMEOUT))
    case Ok(nanos) => Ok(channel + [DeadlineAfter(nanos)])
  }

  /** The header interceptor is added only when there is a key to send. */
  function AttachHeadersIfAny(channel: seq<Interceptor>, headers: Metadata): (r: seq<Interceptor>)
    ensures r == channel <==> headers == []
    ensures headers != [] ==> r == channel + [AttachHeaders(headers)]
  {
    KeysEmpty(headers);
    if Keys(headers) == [] then channel else channel + [AttachHeaders(headers)]
  }

  /** The request message of a unary body: exactly one data frame. No frame
      at all, or any byte after the first frame, is UNIMPLEMENTED "Only
      unary requests are supported"; a frame the decoder refuses fails as it
      does. */
  function ReadUnaryRequest<T>(body: seq<byte>, maxFrameSize: JavaInt, parse: seq<byte> -> Result<T>): (r: Result<T>)
    ensures r.Ok? <==> ReadFrame(body, maxFrameSize, parse).result.Ok?
                       && ReadFrame(body, maxFrameSize, parse).result.value.Some?
                       && ReadFrame(body, maxFrameSize, parse).consumed == |body|
    ensures r.Ok? ==> ReadFrame(body, maxFrameSize, parse).result == Ok(Some(r.value))
    ensures ReadFrame(body, maxFrameSize, parse).result.Err? ==> r == Err(ReadFrame(body, maxFrameSize, parse).result.error)
    ensures ReadFrame(body, maxFrameSize, parse).result.Ok? && r.Err? ==> r.error == StatusError(UNIMPLEMENTED, ONLY_UNARY)
  {
    var first := ReadFrame(body, maxFrameSize, parse);
    ConsumedWithin(body, maxFrameSize, parse);
    match first.result
    case Err(e) => Err(e)
    case Ok(None) => Err(StatusError(UNIMPLEMENTED, ONLY_UNARY))
    case Ok(Some(message)) =>
      if first.consumed < |body| then Err(StatusError(UNIMPLEMENTED, ONLY_UNARY)) else Ok(message)
  }

  /** `channel.newCall(...)` through the interceptors, outermost first: a
      deadline computes `Duration.toNanos()`, which overflows a `long` into
      an ArithmeticException. */
  function NewCall(channel: seq<Interceptor>): (r: Result<()>)
    ensures r.Ok? <==> forall i :: 0 <= i < |channel| && channel[i].DeadlineAfter? ==> channel[i].nanos <= LONG_MAX
    ensures r.Err? ==> r.error == Arithmetic
  {
    if channel == [] then Ok(())
    else
      var outer := channel[|channel| - 1];
      if outer.DeadlineAfter? && outer.nanos > LONG_MAX then Err(Arithmetic)
      else NewCall(channel[..|channel| - 1])
  }

  /** `call`: only unary and server-streaming methods are called; any other
      method type is an IllegalArgumentException. */
  function Dispatch<T>(channel: seq<Interceptor>, descriptor: MethodDescriptor, request: T): (r: Result<Call<T>>)
    ensures r.Ok? <==> descriptor.methodType in {Unary, ServerStreaming} && NewCall(channel).Ok?
    ensures r.Ok? ==> r.value == Call(descriptor, channel, request)
    ensures descriptor.methodType !in {Unary, ServerStreaming} ==> r == Err(IllegalArgument)
    ensures descriptor.methodType in {Unary, ServerStreaming} && r.Err? ==> r.error == Arithmetic
  {
    match descriptor.methodType
    case Unary => var _ :- NewCall(channel); Ok(Call(descriptor, channel, request))
    case ServerStreaming => var _ :- NewCall(channel); Ok(Call(descriptor, channel, request))
    case _ => Err(IllegalArgument)
  }

  /** `handleMethod` up to the call, in the order the source takes its
      steps. `parse` is the method's request marshaller. */
  function HandleMethodSpec<T>(lookup: Option<string> -> Result<GrpcWebContentType>, maxFrameSize: JavaInt,
                               parse: seq<byte> -> Result<T>, request: HttpRequest, descriptor: MethodDescriptor): (r: Result<Call<T>>)
    ensures GetHeader(request, GRPC_ENCODING).Some? && GetHeader(request, GRPC_ENCODING).value != IDENTITY ==>
              r == Err(StatusError(UNIMPLEMENTED, UNSUPPORTED_ENCODING))
    ensures r.Ok? ==> r.value.descriptor == descriptor && lookup(request.contentType).Ok? && request.body.Ok?
  {
    var encoding := GetHeader(request, GRPC_ENCODING);
    if encoding.Some? && encoding.value != IDENTITY then Err(StatusError(UNIMPLEMENTED, UNSUPPORTED_ENCODING))
    else
      var _ :- lookup(request.contentType);
      var timeout := GetHeader(request, GRPC_TIMEOUT);
      var channel :- if timeout.Some? then AddTimeout(timeout.value, []) else Ok([]);
      var headers :- HeadersToMetadata(RequestHeaders(request));
      var channel := AttachHeadersIfAny(channel + [ResponseBridge], headers);
      var body :- request.body;
      var message :- ReadUnaryRequest(body, maxFrameSize, parse);
      Dispatch(channel, descriptor, message)
  }

  /** The `try` block of `handle`. */
  function AttemptSpec<T>(lookup: Option<string> -> Result<GrpcWebContentType>, locate: string -> Result<ServiceDescriptor>,
                          parsers: MethodDescriptor -> seq<byte> -> Result<T>, maxFrameSize: JavaInt,
                          request: HttpRequest): (r: Result<Call<T>>)
    ensures FullMethodName(request.pathInfo).Err? ==> r == Err(FullMethodName(request.pathInfo).error)
    ensures r.Ok? ==> FullMethodName(request.pathInfo).Ok?
                      && GetMethodDescriptor(locate, FullMethodName(request.pathInfo).value) == Ok(r.value.descriptor)
  {
    var fullMethodName :- FullMethodName(request.pathInfo);
    var descriptor :- GetMethodDescriptor(locate, fullMethodName);
    HandleMethodSpec(lookup, maxFrameSize, parsers(descriptor), request, descriptor)
  }

  /** The `catch` clauses of `handle`: an IOException is rethrown; a status
      exception ends the response with its own status and trailers (none
      when it has none); anything else ends it with UNKNOWN. */
  function Catch<T>(e: Exception): (o: Outcome<T>)
    ensures e == IOError <==> o.Rethrown?
    ensures o.Rethrown? ==> o.error == e
    ensures o.Failed? ==> o.cause == e
    ensures e.StatusException? ==> o.Failed? && o.status == e.status
    ensures e.StatusException? && e.trailers.Some? ==> o.Failed? && o.trailers == e.trailers.value
    ensures e.StatusException? && e.trailers.None? ==> o.Failed? && o.trailers == []
    ensures !e.StatusException? && e != IOError ==> o == Failed(Plain(UNKNOWN), [], e)
  {
    match e
    case IOError => Rethrown(e)
    case StatusException(status, trailers) =>
      Failed(status, if trailers.Some? then trailers.value else [], e)
    case _ => Failed(Plain(UNKNOWN), [], e)
  }

  /** `handle`: the content type is looked up before anything else, and its
      failure is not caught. */
  function HandleSpec<T>(lookup: Option<string> -> Result<GrpcWebContentType>, locate: string -> Result<ServiceDescriptor>,
                         parsers: MethodDescriptor -> seq<byte> -> Result<T>, maxFrameSize: JavaInt,
                         request: HttpRequest): (o: Outcome<T>)
    ensures lookup(request.contentType).Err? ==> o == Rethrown(lookup(request.contentType).error)
    ensures o.Pending? <==> lookup(request.contentType).Ok? && AttemptSpec(lookup, locate, parsers, maxFrameSize, request).Ok?
    ensures o.Rethrown? ==> lookup(request.contentType).Err? || o.error == IOError
  {
    match lookup(request.contentType)
    case Err(e) => Rethrown(e)
    case Ok(_) =>
      match AttemptSpec(lookup, locate, parsers, maxFrameSize, request)
      case Ok(call) => Pending(call)
      case Err(e) => Catch(e)
  }

  /** What `handle` itself writes on the response: the whole trailers-only
      response when it fails, nothing otherwise. */
  function HandleEvents<T>(contentType: Result<GrpcWebContentType>, outcome: Outcome<T>): seq<ResponseEvent> {
    if outcome.Failed? && contentType.Ok? then TrailersOnly(contentType.value, outcome.status, outcome.trailers)
    else []
  }

  /** A trailers-only response: empty headers, the trailer frame, the close. */
  function TrailersOnly(contentType: GrpcWebContentType, status: Status, trailers: Metadata): seq<ResponseEvent> {
    HeaderEvents(contentType, [])
    + FrameEvents(contentType, {Trailers}, AsciiBytes(TrailerText(status, trailers)))
    + [BodyClose]
  }

  /** With no trailer metadata, the trailers-only events that follow
      `before` carry just the status lines. */
  lemma StatusOnlyEvents(before: seq<ResponseEvent>, contentType: GrpcWebContentType, status: Status)
    ensures before + TrailersOnly(contentType, status, [])
            == before + HeaderEvents(contentType, []) + FrameEvents(contentType, {Trailers}, AsciiBytes(StatusLines(status))) + [BodyClose]
  {
    EmptyTrailerText(status);
  }

  // -------------------------------------------------------------- handler

  /** `RequestHandler`: the collaborators it was built with. The header
      converter is `DefaultHeaderConverter`; `parsers` gives each method's
      request marshaller. */
  class RequestHandler<T> {
    const serviceLocator: string -> Result<ServiceDescriptor>
    const contentTypeLookup: Option<string> -> Result<GrpcWebContentType>
    const parsers: MethodDescriptor -> seq<byte> -> Result<T>
    const maxFrameSize: JavaInt

    constructor (serviceLocator: string -> Result<ServiceDescriptor>,
                 contentTypeLookup: Option<string> -> Result<GrpcWebContentType>,
                 parsers: MethodDescriptor -> seq<byte> -> Result<T>, maxFrameSize: JavaInt)
      ensures this.serviceLocator == serviceLocator && this.contentTypeLookup == contentTypeLookup
      ensures this.parsers == parsers && this.maxFrameSize == maxFrameSize
    {
      this.serviceLocator := serviceLocator;
      this.contentTypeLookup := contentTypeLookup;
      this.parsers := parsers;
      this.maxFrameSize := maxFrameSize;
    }

    /** `handle(request, response)`. */
    method Handle(request: HttpRequest, response: HttpResponse) returns (outcome: Outcome<T>)
      modifies response
      ensures outcome == HandleSpec(contentTypeLookup, serviceLocator, parsers, maxFrameSize, request)
      ensures response.events == old(response.events) + HandleEvents(contentTypeLookup(request.contentType), outcome)
    {
      var contentType := contentTypeLookup(request.contentType);
      if contentType.Err? {
        return Rethrown(contentType.error);
      }
      var writer := new DefaultResponseWriter(contentType.value, response);
      var call := Attempt(request);
      if call.Ok? {
        return Pending(call.value);
      }
      var e := call.error;
      outcome := Catch(e);
      if e == IOError {
        return;
      }
      if e.StatusException? {
        WriteTrailersOnly(writer, e.status, if e.trailers.Some? then e.trailers.value else []);
      } else {
        WriteStatusOnly(writer, Plain(UNKNOWN));
      }
    }

    /** `writer.writeTrailers(status, trailers)` on a writer that has
        written nothing yet. */
    static method WriteTrailersOnly(writer: DefaultResponseWriter, status: Status, trailers: Metadata)
      requires !writer.headersWritten && !writer.trailersWritten
      modifies writer, writer.response
      ensures writer.response.events == old(writer.response.events) + TrailersOnly(writer.contentType, status, trailers)
    {
      var _ := writer.WriteTrailers(status, trailers);
    }

    /** `writer.writeTrailers(status)` on a writer that has written nothing
        yet. */
    static method WriteStatusOnly(writer: DefaultResponseWriter, status: Status)
      requires !writer.headersWritten && !writer.trailersWritten
      modifies writer, writer.response
      ensures writer.response.events == old(writer.response.events) + TrailersOnly(writer.contentType, status, [])
    {
      StatusOnlyEvents(writer.response.events, writer.contentType, status);
      var _ := writer.WriteStatusTrailers(status);
    }

    /** The `try` block of `handle`. */
    method Attempt(request: HttpRequest) returns (r: Result<Call<T>>)
      ensures r == AttemptSpec(contentTypeLookup, serviceLocator, parsers, maxFrameSize, request)
    {
      var pathInfo := request.pathInfo;
      if pathInfo.None? {
        return Err(NullPointer);
      }
      if pathInfo.value == [] {
        return Err(IndexOutOfBounds);
      }
      var fullMethodName := pathInfo.value[1..];
      var descriptor := GetMethodDescriptor(serviceLocator, fullMethodName);
      if descriptor.Err? {
        return Err(descriptor.error);
      }
      r := HandleMethod(request, descriptor.value);
    }

    /** `handleMethod`: the checks on the request, then the channel built up
        one interceptor at a time, then the one request frame, then the
        call. */
    method HandleMethod(request: HttpRequest, descriptor: MethodDescriptor) returns (r: Result<Call<T>>)
      ensures r == HandleMethodSpec(contentTypeLookup, maxFrameSize, parsers(descriptor), request, descriptor)
    {
      var encoding := GetHeader(request, GRPC_ENCODING);
      if encoding.Some? && encoding.value != IDENTITY {
        return Err(StatusError(UNIMPLEMENTED, UNSUPPORTED_ENCODING));
      }
      var contentType := contentTypeLookup(request.contentType);
      if contentType.Err? {
        return Err(contentType.error);
      }
      var channel: seq<Interceptor> := [];
      var timeout := GetHeader(request, GRPC_TIMEOUT);
      if timeout.Some? {
        var withDeadline := AddTimeout(timeout.value, channel);
        if withDeadline.Err? {
          return Err(withDeadline.error);
        }
        channel := withDeadline.value;
      }
      channel := channel + [ResponseBridge];
      var headers := RequestToMetadata(request);
      if headers.Err? {
        return Err(headers.error);
      }
      KeysEmpty(headers.value);
      if Keys(headers.value) != [] {
        channel := channel + [AttachHeaders(headers.value)];
      }
      if request.body.Err? {
        return Err(request.body.error);
      }
      var input := new ByteInput(request.body.value);
      var frameDecoder := new FrameDecoder(input, parsers(descriptor), maxFrameSize);
      var requestMessage := frameDecoder.ReadDataFrame();
      if requestMessage.Err? {
        return Err(requestMessage.error);
      }
      ConsumedWithin(request.body.value, maxFrameSize, parsers(descriptor));
      if requestMessage.value.None? {
        return Err(StatusError(UNIMPLEMENTED, ONLY_UNARY));
      }
      var more := frameDecoder.HasFrame();
      if more {
        return Err(StatusError(UNIMPLEMENTED, ONLY_UNARY));
      }
      r := CallMethod(channel, descriptor, requestMessage.value.value);
    }

    /** `call`: the switch on the method type. */
    method CallMethod(channel: seq<Interceptor>, descriptor: MethodDescriptor, request: T) returns (r: Result<Call<T>>)
      ensures r == Dispatch(channel, descriptor, request)
    {
      match descriptor.methodType {
        case Unary =>
          var started := NewCall(channel);
          if started.Err? {
            return Err(started.error);
          }
          return Ok(Call(descriptor, channel, request));
        case ServerStreaming =>
          var started := NewCall(channel);
          if started.Err? {
            return Err(started.error);
          }
          return Ok(Call(descriptor, channel, request));
        case _ =>
          return Err(IllegalArgument);
      }
    }
  }

  // ------------------------------------------------------------ properties

  /** A body holding exactly one data frame within the limit yields what the
      marshaller makes of its payload. */
  lemma OneFrameRead<T>(payload: seq<byte>, maxFrameSize: JavaInt, parse: seq<byte> -> Result<T>)
    requires |payload| <= maxFrameSize
    ensures ReadUnaryRequest(FrameBytes({}, payload), maxFrameSize, parse) == parse(payload)
  {
    WrittenFrameReadsBack(payload, [], maxFrameSize, parse);
    assert FrameBytes({}, payload) + [] == FrameBytes({}, payload);
  }

  /** Anything after the first frame, even a partial frame, makes the
      request non-unary. */
  lemma TrailingBytesRefused<T>(payload: seq<byte>, rest: seq<byte>, maxFrameSize: JavaInt, parse: seq<byte> -> Result<T>)
    requires |payload| <= maxFrameSize && rest != [] && parse(payload).Ok?
    ensures ReadUnaryRequest(FrameBytes({}, payload) + rest, maxFrameSize, parse) == Err(StatusError(UNIMPLEMENTED, ONLY_UNARY))
  {
    WrittenFrameReadsBack(payload, rest, maxFrameSize, parse);
  }

  /** An empty body has no request message. */
  lemma EmptyBodyRefused<T>(maxFrameSize: JavaInt, parse: seq<byte> -> Result<T>)
    ensures ReadUnaryRequest([], maxFrameSize, parse) == Err(StatusError(UNIMPLEMENTED, ONLY_UNARY))
  {
  }

  /** A call is issued only when every check has passed: a known content
      type, a path naming a located method of a callable type, the identity
      encoding, a parseable timeout whose length fits a `long`, convertible
      headers, a readable body of exactly one frame. */
  lemma PendingOnlyAfterChecks<T>(lookup: Option<string> -> Result<GrpcWebContentType>, locate: string -> Result<ServiceDescriptor>,
                                  parsers: MethodDescriptor -> seq<byte> -> Result<T>, maxFrameSize: JavaInt,
                                  request: HttpRequest)
    requires HandleSpec(lookup, locate, parsers, maxFrameSize, request).Pending?
    ensures var call := HandleSpec(lookup, locate, parsers, maxFrameSize, request).call;
            && lookup(request.contentType).Ok?
            && request.pathInfo.Some? && request.pathInfo.value != []
            && LocateMethod(locate, request.pathInfo.value[1..]) == Ok(call.descriptor)
            && call.descriptor.methodType in {Unary, ServerStreaming}
            && (GetHeader(request, GRPC_ENCODING).None? || GetHeader(request, GRPC_ENCODING).value == IDENTITY)
            && (GetHeader(request, GRPC_TIMEOUT).Some? ==>
                  MatchesTimeoutPattern(GetHeader(request, GRPC_TIMEOUT).value)
                  && ParseTimeout(GetHeader(request, GRPC_TIMEOUT).value).value <= LONG_MAX
                  && |call.interceptors| > 0 && call.interceptors[0] == DeadlineAfter(ParseTimeout(GetHeader(request, GRPC_TIMEOUT).value).value))
            && (GetHeader(request, GRPC_TIMEOUT).None? ==> |call.interceptors| > 0 && call.interceptors[0] == ResponseBridge)
            && HeadersToMetadata(RequestHeaders(request)).Ok?
            && request.body.Ok?
            && ReadFrame(request.body.value, maxFrameSize, parsers(call.descriptor)) == Step(Ok(Some(call.request)), |request.body.value|)
  {
    var fullMethodName := FullMethodName(request.pathInfo).value;
    var descriptor := GetMethodDescriptor(locate, fullMethodName).value;
    HandleMethodChecks(lookup, maxFrameSize, parsers(descriptor), request, descriptor);
  }

  /** `handleMethod` reaches the call only past its own checks: the identity
      encoding, a parseable timeout whose length fits a `long`, convertible
      headers, a readable body of exactly one frame, a callable method
      type. */
  lemma HandleMethodChecks<T>(lookup: Option<string> -> Result<GrpcWebContentType>, maxFrameSize: JavaInt,
                              parse: seq<byte> -> Result<T>, request: HttpRequest, descriptor: MethodDescriptor)
    requires HandleMethodSpec(lookup, maxFrameSize, parse, request, descriptor).Ok?
    ensures var call := HandleMethodSpec(lookup, maxFrameSize, parse, request, descriptor).value;
            && call.descriptor == descriptor
            && descriptor.methodType in {Unary, ServerStreaming}
            && (GetHeader(request, GRPC_ENCODING).None? || GetHeader(request, GRPC_ENCODING).value == IDENTITY)
            && (GetHeader(request, GRPC_TIMEOUT).Some? ==>
                  MatchesTimeoutPattern(GetHeader(request, GRPC_TIMEOUT).value)
                  && ParseTimeout(GetHeader(request, GRPC_TIMEOUT).value).value <= LONG_MAX
                  && |call.interceptors| > 0 && call.interceptors[0] == DeadlineAfter(ParseTimeout(GetHeader(request, GRPC_TIMEOUT).value).value))
            && (GetHeader(request, GRPC_TIMEOUT).None? ==> |call.interceptors| > 0 && call.interceptors[0] == ResponseBridge)
            && HeadersToMetadata(RequestHeaders(request)).Ok?
            && request.body.Ok?
            && ReadFrame(request.body.value, maxFrameSize, parse) == Step(Ok(Some(call.request)), |request.body.value|)
  {
    var spec := HandleMethodSpec(lookup, maxFrameSize, parse, request, descriptor);
    var timeout := GetHeader(request, GRPC_TIMEOUT);
    var deadline := if timeout.Some? then AddTimeout(timeout.value, []) else Ok([]);
    assert deadline.Ok?;
    var headers := HeadersToMetadata(RequestHeaders(request));
    assert headers.Ok? && request.body.Ok?;
    var message := ReadUnaryRequest(request.body.value, maxFrameSize, parse);
    assert message.Ok?;
    var channel := AttachHeadersIfAny(deadline.value + [ResponseBridge], headers.value);
    assert spec == Dispatch(channel, descriptor, message.value);
    assert channel[0] == (deadline.value + [ResponseBridge])[0];
    if timeout.Some? {
      assert channel[0].DeadlineAfter?;
      assert NewCall(channel).Ok?;
    }
  }

  /** End to end: a unary request at `/service/method` with a body of one
      frame and no encoding or timeout header is called with the parsed
      message, through the response bridge and, when there are any, the
      converted request headers. */
  lemma UnaryRequestCalled<T>(lookup: Option<string> -> Result<GrpcWebContentType>, locate: string -> Result<ServiceDescriptor>,
                              parsers: MethodDescriptor -> seq<byte> -> Result<T>, maxFrameSize: JavaInt,
                              request: HttpRequest, fullMethodName: string, descriptor: MethodDescriptor,
                              headers: Metadata, payload: seq<byte>, message: T)
    requires lookup(request.contentType).Ok?
    requires request.pathInfo == Some(['/'] + fullMethodName)
    requires LocateMethod(locate, fullMethodName) == Ok(descriptor) && descriptor.methodType == Unary
    requires GetHeader(request, GRPC_ENCODING).None? && GetHeader(request, GRPC_TIMEOUT).None?
    requires HeadersToMetadata(RequestHeaders(request)) == Ok(headers)
    requires request.body == Ok(FrameBytes({}, payload)) && |payload| <= maxFrameSize
    requires parsers(descriptor)(payload) == Ok(message)
    ensures HandleSpec(lookup, locate, parsers, maxFrameSize, request)
         == Pending(Call(descriptor, AttachHeadersIfAny([ResponseBridge], headers), message))
  {
    assert (['/'] + fullMethodName)[1..] == fullMethodName;
    assert FullMethodName(request.pathInfo) == Ok(fullMethodName);
    assert GetMethodDescriptor(locate, fullMethodName) == Ok(descriptor);
    UnaryMethodCalled(lookup, maxFrameSize, parsers(descriptor), request, descriptor, headers, payload, message);
  }

  /** `handleMethod` on such a request issues the call. */
  lemma UnaryMethodCalled<T>(lookup: Option<string> -> Result<GrpcWebContentType>, maxFrameSize: JavaInt,
                             parse: seq<byte> -> Result<T>, request: HttpRequest, descriptor: MethodDescriptor,
                             headers: Metadata, payload: seq<byte>, message: T)
    requires lookup(request.contentType).Ok? && descriptor.methodType == Unary
    requires GetHeader(request, GRPC_ENCODING).None? && GetHeader(request, GRPC_TIMEOUT).None?
    requires HeadersToMetadata(RequestHeaders(request)) == Ok(headers)
    requires request.body == Ok(FrameBytes({}, payload)) && |payload| <= maxFrameSize
    requires parse(payload) == Ok(message)
    ensures HandleMethodSpec(lookup, maxFrameSize, parse, request, descriptor)
         == Ok(Call(descriptor, AttachHeadersIfAny([ResponseBridge], headers), message))
  {
    OneFrameRead(payload, maxFrameSize, parse);
    var channel := AttachHeadersIfAny([] + [ResponseBridge], headers);
    assert [] + [ResponseBridge] == [ResponseBridge];
    assert NewCall(channel).Ok?;
    assert Dispatch(channel, descriptor, message) == Ok(Call(descriptor, channel, message));
  }

  /** A path the locator has no method for is answered UNIMPLEMENTED, with
      no description and no trailer metadata. */
  lemma UnknownMethodUnimplemented<T>(lookup: Option<string> -> Result<GrpcWebContentType>, locate: string -> Result<ServiceDescriptor>,
                                      parsers: MethodDescriptor -> seq<byte> -> Result<T>, maxFrameSize: JavaInt,
                                      request: HttpRequest, fullMethodName: string)
    requires lookup(request.contentType).Ok?
    requires request.pathInfo == Some(['/'] + fullMethodName)
    requires LocateMethod(locate, fullMethodName) == Err(NoSuchElement)
    ensures HandleSpec(lookup, locate, parsers, maxFrameSize, request)
         == Failed(Plain(UNIMPLEMENTED), [], StatusException(Plain(UNIMPLEMENTED), None))
  {
    assert (['/'] + fullMethodName)[1..] == fullMethodName;
  }

  /** An unknown content type is rethrown before anything is written. */
  lemma UnknownContentTypeRethrown<T>(lookup: Option<string> -> Result<GrpcWebContentType>, locate: string -> Result<ServiceDescriptor>,
                                      parsers: MethodDescriptor -> seq<byte> -> Result<T>, maxFrameSize: JavaInt,
                                      request: HttpRequest)
    requires lookup(request.contentType).Err?
    ensures HandleSpec(lookup, locate, parsers, maxFrameSize, request) == Rethrown(lookup(request.contentType).error)
    ensures HandleEvents(lookup(request.contentType), HandleSpec(lookup, locate, parsers, maxFrameSize, request)) == []
  {
  }

  /** The body of a trailers-only response is the one trailer frame, as
      bytes in a binary content type; in a base64 one it is the flushed text
      of the frame, which decodes to the frame's complete 3-byte groups
      only. */
  lemma TrailersOnlyBody(contentType: GrpcWebContentType, status: Status, trailers: Metadata)
    ensures var frame := FrameBytes({Trailers}, AsciiBytes(TrailerText(status, trailers)));
            && (!contentType.base64Encoded ==> BodyBytes(TrailersOnly(contentType, status, trailers)) == frame)
            && (contentType.base64Encoded ==>
                  BodyBytes(TrailersOnly(contentType, status, trailers)) == AsciiBytes(EncodeFlushed(frame))
                  && Base64.Decode(EncodeFlushed(frame)) == Ok(frame[..|frame| / 3 * 3]))
  {
    var payload := AsciiBytes(TrailerText(status, trailers));
    OnlyFrameInBody(contentType, {Trailers}, payload);
    FrameBody(contentType, {Trailers}, payload);
  }

  /** Around a frame, the headers and the close add nothing to the body. */
  lemma OnlyFrameInBody(contentType: GrpcWebContentType, flags: set<FrameFlag>, payload: seq<byte>)
    ensures BodyBytes(HeaderEvents(contentType, []) + FrameEvents(contentType, flags, payload) + [BodyClose])
         == BodyBytes(FrameEvents(contentType, flags, payload))
  {
    var hs := HeaderEvents(contentType, []);
    var fs := FrameEvents(contentType, flags, payload);
    HeaderEventsNoBody(contentType, []);
    BodyBytesAppend(hs + fs, [BodyClose]);
    BodyBytesAppend(hs, fs);
    BodyBytesSingle(BodyClose);
  }

  /** Writing headers puts nothing in the body. */
  lemma HeaderEventsNoBody(contentType: GrpcWebContentType, headers: Metadata)
    ensures BodyBytes(HeaderEvents(contentType, headers)) == []
  {
    var es := HeaderEvents(contentType, headers);
    forall i | 0 <= i < |es| ensures !es[i].BodyWrite? {
    }
    NoWritesNoBody(es);
  }

  lemma {:induction false} NoWritesNoBody(es: seq<ResponseEvent>)
    requires forall i :: 0 <= i < |es| ==> !es[i].BodyWrite?
    ensures BodyBytes(es) == []
    decreases |es|
  {
    if es != [] {
      NoWritesNoBody(es[..|es| - 1]);
    }
  }

  // ------------------------------------------------------------ helpers

  /** Metadata has no key exactly when it has no entry. */
  lemma KeysEmpty(m: Metadata)
    ensures Keys(m) == [] <==> m == []
  {
  }

  /** The decoder never consumes more than there is. */
  lemma ConsumedWithin<T>(body: seq<byte>, maxFrameSize: JavaInt, parse: seq<byte> -> Result<T>)
    ensures ReadFrame(body, maxFrameSize, parse).consumed <= |body|
    ensures ReadFrame(body, maxFrameSize, parse).result.Ok? && ReadFrame(body, maxFrameSize, parse).result.value.Some? ==>
              ReadFrame(body, maxFrameSize, parse).consumed >= 5
  {
  }
}
