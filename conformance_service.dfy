/** ConformanceService.java: the conformance service's two methods. Each
    reads the response definition the request carries and answers with the
    headers, messages, error and trailers it prescribes, echoing what the
    server saw of the request (`RequestInfo`). */
module ConformanceServing {
  import opened Common
  import opened MetadataModel
  import opened HeaderConverter
  import opened DefaultHeaderConverter
  import opened HeaderSending

  /** `conformance.v1.Header`: a name with all its values. */
  datatype HeaderValues = HeaderValues(name: string, values: seq<string>)

  /** `conformance.v1.Error`: the code's number and the message. */
  datatype ErrorDefinition = ErrorDefinition(code: int, message: string)

  datatype UnaryResponseDefinition = UnaryResponseDefinition(
    responseHeaders: seq<HeaderValues>, responseData: seq<byte>, error: Option<ErrorDefinition>,
    responseDelayMs: int, responseTrailers: seq<HeaderValues>)

  datatype StreamResponseDefinition = StreamResponseDefinition(
    responseHeaders: seq<HeaderValues>, responseData: seq<seq<byte>>, responseDelayMs: int,
    error: Option<ErrorDefinition>, responseTrailers: seq<HeaderValues>)

  datatype UnaryRequest = UnaryRequest(responseDefinition: Option<UnaryResponseDefinition>, requestData: seq<byte>)
  datatype ServerStreamRequest = ServerStreamRequest(responseDefinition: Option<StreamResponseDefinition>, requestData: seq<byte>)

  /** A request as `Any.pack` carries it inside `RequestInfo`. */
  datatype PackedRequest = PackedUnary(unary: UnaryRequest) | PackedServerStream(serverStream: ServerStreamRequest)

  /** `ConformancePayload.RequestInfo` */
  datatype RequestInfo = RequestInfo(requestHeaders: seq<HeaderValues>, timeoutMs: Option<nat>, requests: seq<PackedRequest>)

  /** `ConformancePayload`: an absent request info and empty data are the
      unset fields. */
  datatype ConformancePayload = ConformancePayload(requestInfo: Option<RequestInfo>, data: seq<byte>)

  datatype UnaryResponse = UnaryResponse(payload: ConformancePayload)
  datatype ServerStreamResponse = ServerStreamResponse(payload: ConformancePayload)

  /** `com.google.rpc.Status`; its details are packed request infos. */
  datatype RpcStatus = RpcStatus(code: int, message: string, details: seq<RequestInfo>)

  /** How a call ends through `onError`: a status built from the defined
      error, or `Status.OK`; both with the defined trailers. */
  datatype Termination = ErrorStatus(status: RpcStatus, trailers: Metadata) | OkStatus(trailers: Metadata)

  /** What a `StreamObserver` receives. */
  datatype ObserverEvent<R> = Emitted(message: R) | Terminated(termination: Termination) | Completed

  /** What one service call does: the headers it hands to `SET_HEADERS`
      (if it gets that far), what its observer receives, and whether it
      throws. */
  datatype Effects<R> = Effects(headersSet: Option<Metadata>, events: seq<ObserverEvent<R>>, result: Result<()>)

  const TIMEOUT_KEY: string := "grpc-timeout"
  const NANOS_PER_MILLI: nat := 1_000_000

  /** `Status.UNAVAILABLE.asRuntimeException()` */
  const INTERRUPTED: Exception := StatusException(Plain(UNAVAILABLE), None)

  /** The `StreamObserver` a call answers through. */
  class ResponseObserver<R> {
    var events: seq<ObserverEvent<R>>

    constructor ()
      ensures events == []
    {
      events := [];
    }

    method OnNext(message: R)
      modifies this
      ensures events == old(events) + [Emitted(message)]
    {
      events := events + [Emitted(message)];
    }

    method OnError(termination: Termination)
      modifies this
      ensures events == old(events) + [Terminated(termination)]
    {
      events := events + [Terminated(termination)];
    }

    method OnCompleted()
      modifies this
      ensures events == old(events) + [Completed]
    {
      events := events + [Completed];
    }
  }

  // ---------------------------------------------------------- builders

  /** `sleepForDelay`: nothing happens for a delay of zero or less; a
      sleep that is interrupted ends the call with UNAVAILABLE. */
  function SleepForDelay(responseDelayMs: int, interrupted: bool): (r: Result<()>)
    ensures r.Err? <==> responseDelayMs > 0 && interrupted
    ensures r.Err? ==> r.error == INTERRUPTED
  {
    if responseDelayMs > 0 && interrupted then Err(INTERRUPTED) else Ok(())
  }

  /** `getErrorResponse`: the defined code and message, with the request
      info as the only detail when there is one. */
  function GetErrorResponse(requestInfo: Option<RequestInfo>, error: ErrorDefinition): (s: RpcStatus)
    ensures s.code == error.code && s.message == error.message
    ensures s.details != [] <==> requestInfo.Some?
    ensures requestInfo.Some? ==> s.details == [requestInfo.value]
  {
    RpcStatus(error.code, error.message, if requestInfo.Some? then [requestInfo.value] else [])
  }

  /** `getPayload`: only the given fields are set. */
  function GetPayload(requestInfo: Option<RequestInfo>, responseData: Option<seq<byte>>): (p: ConformancePayload)
    ensures p.requestInfo == requestInfo
    ensures responseData.Some? ==> p.data == responseData.value
    ensures responseData.None? ==> p.data == []
  {
    ConformancePayload(requestInfo, if responseData.Some? then responseData.value else [])
  }

  // --------------------------------------------------------- headers

  /** The distinct header names, in order of first appearance. */
  function HeaderNames(hs: seq<Header>): (ns: seq<string>)
    ensures forall i, j :: 0 <= i < j < |ns| ==> ns[i] != ns[j]
    ensures forall n :: n in ns <==> Named(hs, n) != []
  {
    if hs == [] then []
    else
      var ns := HeaderNames(hs[..|hs| - 1]);
      if hs[|hs| - 1].name in ns then ns else ns + [hs[|hs| - 1].name]
  }

  /** The values of a list of headers, in order. */
  function ValuesIn(hs: seq<Header>): (vs: seq<string>)
    ensures |vs| == |hs|
    ensures forall i :: 0 <= i < |hs| ==> vs[i] == hs[i].value
  {
    seq(|hs|, i requires 0 <= i < |hs| => hs[i].value)
  }

  /** `toHeadersList`: the header stream grouped by name, each name once
      with its values in stream order. */
  function ToHeadersList(hs: seq<Header>): (g: seq<HeaderValues>)
    ensures |g| == |HeaderNames(hs)|
    ensures forall i, j :: 0 <= i < j < |g| ==> g[i].name != g[j].name
    ensures forall i :: 0 <= i < |g| ==> HeadersFor(g[i].name, g[i].values) == Named(hs, g[i].name)
    ensures forall n :: Named(hs, n) != [] <==> exists i :: 0 <= i < |g| && g[i].name == n
  {
    var ns := HeaderNames(hs);
    var g := seq(|ns|, i requires 0 <= i < |ns| => HeaderValues(ns[i], ValuesIn(Named(hs, ns[i]))));
    forall i | 0 <= i < |g|
      ensures HeadersFor(g[i].name, g[i].values) == Named(hs, g[i].name)
    {
      var named := Named(hs, ns[i]);
      assert forall k :: 0 <= k < |named| ==> HeadersFor(ns[i], ValuesIn(named))[k] == named[k];
    }
    forall n | Named(hs, n) != []
      ensures exists i :: 0 <= i < |g| && g[i].name == n
    {
      var i :| 0 <= i < |ns| && ns[i] == n;
      assert g[i].name == n;
    }
    g
  }

  /** The header stream of a header list: each value under its name. */
  function Flatten(hvs: seq<HeaderValues>): (hs: seq<Header>)
  {
    if hvs == [] then []
    else Flatten(hvs[..|hvs| - 1]) + HeadersFor(hvs[|hvs| - 1].name, hvs[|hvs| - 1].values)
  }

  /** `toMetadata(List<Header>)`: the flattened stream converted as the
      gateway converts request headers. */
  function ToMetadata(hvs: seq<HeaderValues>): (r: Result<Metadata>)
    ensures r.Err? ==> r.error == IllegalArgument
    ensures r.Ok? <==> forall i :: 0 <= i < |Flatten(hvs)| ==> ConvertHeader(Flatten(hvs)[i]).Ok?
    ensures r.Ok? ==> |r.value| == |Flatten(hvs)|
    ensures r.Ok? ==> forall i :: 0 <= i < |r.value| ==> r.value[i] == ConvertHeader(Flatten(hvs)[i]).value
  {
    HeadersToMetadataPointwise(Flatten(hvs));
    HeadersToMetadata(Flatten(hvs))
  }

  /** `Metadata.get` with the ASCII marshaller: the last value of a key. */
  function LastValue(m: Metadata, key: string): (v: Option<string>)
    ensures v.Some? <==> ValuesOf(m, key) != []
    ensures v.Some? ==> v.value == Render(ValuesOf(m, key)[|ValuesOf(m, key)| - 1])
  {
    var vs := ValuesOf(m, key);
    if vs == [] then None else Some(Render(vs[|vs| - 1]))
  }

  /** `getRequestInfo`: the request headers grouped by name, the request
      itself, and the `grpc-timeout` header in whole milliseconds when
      there is one; a timeout that does not parse ends the call. */
  function GetRequestInfo(requestHeaders: Metadata, request: PackedRequest): (r: Result<RequestInfo>)
    ensures r.Err? <==> LastValue(requestHeaders, TIMEOUT_KEY).Some? && ParseTimeout(LastValue(requestHeaders, TIMEOUT_KEY).value).Err?
    ensures r.Err? ==> r.error == IllegalArgument
    ensures r.Ok? ==> r.value.requestHeaders == ToHeadersList(ToHeaders(requestHeaders)) && r.value.requests == [request]
    ensures r.Ok? ==> (r.value.timeoutMs.Some? <==> LastValue(requestHeaders, TIMEOUT_KEY).Some?)
    ensures r.Ok? && r.value.timeoutMs.Some? ==>
              var nanos := ParseTimeout(LastValue(requestHeaders, TIMEOUT_KEY).value).value;
              r.value.timeoutMs.value * NANOS_PER_MILLI <= nanos < (r.value.timeoutMs.value + 1) * NANOS_PER_MILLI
  {
    var headers := ToHeadersList(ToHeaders(requestHeaders));
    match LastValue(requestHeaders, TIMEOUT_KEY)
    case None => Ok(RequestInfo(headers, None, [request]))
    case Some(timeout) =>
      match ParseTimeout(timeout)
      case Err(e) => Err(e)
      case Ok(nanos) => Ok(RequestInfo(headers, Some(nanos / NANOS_PER_MILLI), [request]))
  }

  // ----------------------------------------------------- specification

  /** What `unary` does; `interrupted` says whether its sleep is
      interrupted. */
  function UnarySpec(request: UnaryRequest, requestHeaders: Metadata, interrupted: bool): (e: Effects<UnaryResponse>)
    ensures GetRequestInfo(requestHeaders, PackedUnary(request)).Err? ==> e == Effects(None, [], Err(IllegalArgument))
    ensures e.result.Err? ==> e.result.error in {IllegalArgument, INTERRUPTED}
    ensures e.headersSet.Some? ==> request.responseDefinition.Some?
                                   && ToMetadata(request.responseDefinition.value.responseHeaders) == Ok(e.headersSet.value)
  {
    match GetRequestInfo(requestHeaders, PackedUnary(request))
    case Err(e) => Effects(None, [], Err(e))
    case Ok(info) =>
      match request.responseDefinition
      case None => Effects(None, [Emitted(UnaryResponse(GetPayload(Some(info), None))), Completed], Ok(()))
      case Some(definition) =>
        match ToMetadata(definition.responseHeaders)
        case Err(e) => Effects(None, [], Err(e))
        case Ok(headers) =>
          match ToMetadata(definition.responseTrailers)
          case Err(e) => Effects(None, [], Err(e))
          case Ok(trailers) =>
            match SleepForDelay(definition.responseDelayMs, interrupted)
            case Err(e) => Effects(Some(headers), [], Err(e))
            case Ok(_) =>
              if definition.error.Some? then
                Effects(Some(headers), [Terminated(ErrorStatus(GetErrorResponse(Some(info), definition.error.value), trailers))], Ok(()))
              else
                Effects(Some(headers), [Emitted(UnaryResponse(GetPayload(Some(info), Some(definition.responseData)))),
                                        Terminated(OkStatus(trailers))], Ok(()))
  }

  /** The number of stream messages sent before an interruption: sleep
      `k` precedes message `k`, and `interruptedAt` names the first sleep
      that is interrupted, if any. */
  function Delivered(responseDelayMs: int, interruptedAt: Option<nat>, count: nat): (n: nat)
    ensures n <= count
    ensures n < count <==> responseDelayMs > 0 && interruptedAt.Some? && interruptedAt.value < count
  {
    if responseDelayMs > 0 && interruptedAt.Some? && interruptedAt.value < count then interruptedAt.value else count
  }

  /** The response for message `k` of a stream: request info on the first only. */
  function StreamResponse(info: RequestInfo, data: seq<seq<byte>>, k: nat): ServerStreamResponse
    requires k < |data|
  {
    ServerStreamResponse(GetPayload(if k == 0 then Some(info) else None, Some(data[k])))
  }

  /** The first `n` stream messages. */
  function StreamMessages(info: RequestInfo, data: seq<seq<byte>>, n: nat): (ms: seq<ObserverEvent<ServerStreamResponse>>)
    requires n <= |data|
    ensures |ms| == n
  {
    seq(n, k requires 0 <= k < n => Emitted(StreamResponse(info, data, k)))
  }

  /** How a stream that delivered every message ends. */
  function StreamEnd(info: RequestInfo, definition: StreamResponseDefinition, trailers: Metadata): Termination {
    if definition.error.Some? then
      ErrorStatus(GetErrorResponse(if definition.responseData == [] then Some(info) else None, definition.error.value), trailers)
    else OkStatus(trailers)
  }

  /** What `serverStream` does. */
  function ServerStreamSpec(request: ServerStreamRequest, requestHeaders: Metadata, interruptedAt: Option<nat>): (e: Effects<ServerStreamResponse>)
    ensures GetRequestInfo(requestHeaders, PackedServerStream(request)).Err? ==> e == Effects(None, [], Err(IllegalArgument))
    ensures e.result.Err? ==> e.result.error in {IllegalArgument, INTERRUPTED}
    ensures e.headersSet.Some? ==> request.responseDefinition.Some?
                                   && ToMetadata(request.responseDefinition.value.responseHeaders) == Ok(e.headersSet.value)
  {
    match GetRequestInfo(requestHeaders, PackedServerStream(request))
    case Err(e) => Effects(None, [], Err(e))
    case Ok(info) =>
      match request.responseDefinition
      case None => Effects(None, [Completed], Ok(()))
      case Some(definition) =>
        match ToMetadata(definition.responseHeaders)
        case Err(e) => Effects(None, [], Err(e))
        case Ok(headers) =>
          match ToMetadata(definition.responseTrailers)
          case Err(e) => Effects(None, [], Err(e))
          case Ok(trailers) =>
            StreamRun(info, definition, headers, trailers, interruptedAt)
  }

  /** What `serverStream` does once the headers are handed over: the
      messages, then the ending, unless a sleep is interrupted. */
  function StreamRun(info: RequestInfo, definition: StreamResponseDefinition, headers: Metadata, trailers: Metadata,
                     interruptedAt: Option<nat>): Effects<ServerStreamResponse> {
    var data := definition.responseData;
    var sent := Delivered(definition.responseDelayMs, interruptedAt, |data|);
    if sent < |data| then Effects(Some(headers), StreamMessages(info, data, sent), Err(INTERRUPTED))
    else Effects(Some(headers), StreamMessages(info, data, sent) + [Terminated(StreamEnd(info, definition, trailers))], Ok(()))
  }

  // ----------------------------------------------------------- service

  /** `unary` */
  method Unary(request: UnaryRequest, requestHeaders: Metadata, interrupted: bool,
               call: HeaderSendingServerCall, observer: ResponseObserver<UnaryResponse>) returns (r: Result<()>)
    requires call.Valid()
    modifies call`appendHeaders, observer
    ensures call.Valid()
    ensures r == UnarySpec(request, requestHeaders, interrupted).result
    ensures observer.events == old(observer.events) + UnarySpec(request, requestHeaders, interrupted).events
    ensures UnarySpec(request, requestHeaders, interrupted).headersSet.Some? ==>
              call.appendHeaders == UnarySpec(request, requestHeaders, interrupted).headersSet.value
    ensures UnarySpec(request, requestHeaders, interrupted).headersSet.None? ==> call.appendHeaders == old(call.appendHeaders)
  {
    var requestInfo :- GetRequestInfo(requestHeaders, PackedUnary(request));
    if request.responseDefinition.Some? {
      var definition := request.responseDefinition.value;
      var responseHeaders :- ToMetadata(definition.responseHeaders);
      var responseTrailers :- ToMetadata(definition.responseTrailers);
      call.SetHeaders(responseHeaders);
      var slept :- SleepForDelay(definition.responseDelayMs, interrupted);
      if definition.error.Some? {
        var errorResponse := GetErrorResponse(Some(requestInfo), definition.error.value);
        observer.OnError(ErrorStatus(errorResponse, responseTrailers));
      } else {
        var response := UnaryResponse(GetPayload(Some(requestInfo), Some(definition.responseData)));
        observer.OnNext(response);
        observer.OnError(OkStatus(responseTrailers));
      }
    } else {
      var response := UnaryResponse(GetPayload(Some(requestInfo), None));
      observer.OnNext(response);
      observer.OnCompleted();
    }
    r := Ok(());
  }

  /** The loop of `serverStream`: for each defined data, the response
      (with request info while none was sent yet), a sleep, then the
      message. Answers whether request info was sent. */
  method SendMessages(requestInfo: RequestInfo, data: seq<seq<byte>>, responseDelayMs: int, interruptedAt: Option<nat>,
                      observer: ResponseObserver<ServerStreamResponse>) returns (r: Result<bool>)
    modifies observer
    ensures var sent := Delivered(responseDelayMs, interruptedAt, |data|);
            && observer.events == old(observer.events) + StreamMessages(requestInfo, data, sent)
            && (r.Err? <==> sent < |data|)
            && (r.Err? ==> r.error == INTERRUPTED)
            && (r.Ok? ==> (r.value <==> data != []))
  {
    ghost var sent := Delivered(responseDelayMs, interruptedAt, |data|);
    ghost var before := observer.events;
    var requestInfoSent := false;
    var i := 0;
    while i < |data|
      invariant i <= sent
      invariant requestInfoSent <==> i > 0
      invariant observer.events == before + StreamMessages(requestInfo, data, i)
    {
      var response;
      if !requestInfoSent {
        requestInfoSent := true;
        response := ServerStreamResponse(GetPayload(Some(requestInfo), Some(data[i])));
      } else {
        response := ServerStreamResponse(GetPayload(None, Some(data[i])));
      }
      var slept := SleepForDelay(responseDelayMs, interruptedAt == Some(i));
      if slept.Err? {
        return Err(slept.error);
      }
      observer.OnNext(response);
      assert StreamMessages(requestInfo, data, i + 1) == StreamMessages(requestInfo, data, i) + [Emitted(response)];
      i := i + 1;
    }
    r := Ok(requestInfoSent);
  }

  /** `serverStream`: a sleep before each message, request info on the
      first message only, then the defined ending. */
  method ServerStream(request: ServerStreamRequest, requestHeaders: Metadata, interruptedAt: Option<nat>,
                      call: HeaderSendingServerCall, observer: ResponseObserver<ServerStreamResponse>) returns (r: Result<()>)
    requires call.Valid()
    modifies call`appendHeaders, observer
    ensures call.Valid()
    ensures r == ServerStreamSpec(request, requestHeaders, interruptedAt).result
    ensures observer.events == old(observer.events) + ServerStreamSpec(request, requestHeaders, interruptedAt).events
    ensures ServerStreamSpec(request, requestHeaders, interruptedAt).headersSet.Some? ==>
              call.appendHeaders == ServerStreamSpec(request, requestHeaders, interruptedAt).headersSet.value
    ensures ServerStreamSpec(request, requestHeaders, interruptedAt).headersSet.None? ==> call.appendHeaders == old(call.appendHeaders)
  {
    ghost var spec := ServerStreamSpec(request, requestHeaders, interruptedAt);
    var info := GetRequestInfo(requestHeaders, PackedServerStream(request));
    if info.Err? {
      assert spec == Effects(None, [], Err(info.error));
      return Err(info.error);
    }
    var requestInfo := info.value;
    if request.responseDefinition.None? {
      assert spec == Effects(None, [Completed], Ok(()));
      observer.OnCompleted();
      return Ok(());
    }
    var definition := request.responseDefinition.value;
    var responseHeaders := ToMetadata(definition.responseHeaders);
    if responseHeaders.Err? {
      assert spec == Effects(None, [], Err(responseHeaders.error));
      return Err(responseHeaders.error);
    }
    var responseTrailers := ToMetadata(definition.responseTrailers);
    if responseTrailers.Err? {
      assert spec == Effects(None, [], Err(responseTrailers.error));
      return Err(responseTrailers.error);
    }
    call.SetHeaders(responseHeaders.value);
    assert spec == StreamRun(requestInfo, definition, responseHeaders.value, responseTrailers.value, interruptedAt);
    r := RunStream(requestInfo, definition, responseHeaders.value, responseTrailers.value, interruptedAt, observer);
  }

  /** The rest of `serverStream`: the loop, then `onError` with the defined
      error (request info only if no message carried it) or with OK. */
  method RunStream(requestInfo: RequestInfo, definition: StreamResponseDefinition, headers: Metadata, trailers: Metadata,
                   interruptedAt: Option<nat>, observer: ResponseObserver<ServerStreamResponse>) returns (r: Result<()>)
    modifies observer
    ensures r == StreamRun(requestInfo, definition, headers, trailers, interruptedAt).result
    ensures observer.events == old(observer.events) + StreamRun(requestInfo, definition, headers, trailers, interruptedAt).events
  {
    var data := definition.responseData;
    ghost var sent := Delivered(definition.responseDelayMs, interruptedAt, |data|);
    var requestInfoSent := SendMessages(requestInfo, data, definition.responseDelayMs, interruptedAt, observer);
    if requestInfoSent.Err? {
      return Err(requestInfoSent.error);
    }
    if definition.error.Some? {
      var errorResponse := GetErrorResponse(if requestInfoSent.value then None else Some(requestInfo), definition.error.value);
      observer.OnError(ErrorStatus(errorResponse, trailers));
    } else {
      observer.OnError(OkStatus(trailers));
    }
    r := Ok(());
  }

  // ------------------------------------------------------- properties

  /** A call ends in exactly one way: the events that precede the last are
      messages, and the last is `onCompleted` or `onError`. */
  predicate EndsOnce<R>(events: seq<ObserverEvent<R>>) {
    && events != []
    && !events[|events| - 1].Emitted?
    && forall k :: 0 <= k < |events| - 1 ==> events[k].Emitted?
  }

  /** The number of messages among some events. */
  function Messages<R>(events: seq<ObserverEvent<R>>): (n: nat)
    ensures n <= |events|
  {
    if events == [] then 0
    else Messages(events[..|events| - 1]) + (if events[|events| - 1].Emitted? then 1 else 0)
  }

  /** Whatever the request, `unary` sends at most one message, and a call
      that does not throw ends exactly once. */
  lemma UnaryShape(request: UnaryRequest, requestHeaders: Metadata, interrupted: bool)
    ensures Messages(UnarySpec(request, requestHeaders, interrupted).events) <= 1
    ensures UnarySpec(request, requestHeaders, interrupted).result.Ok? ==> EndsOnce(UnarySpec(request, requestHeaders, interrupted).events)
    ensures UnarySpec(request, requestHeaders, interrupted).result.Err? ==> UnarySpec(request, requestHeaders, interrupted).events == []
  {
    var events := UnarySpec(request, requestHeaders, interrupted).events;
    if |events| == 2 {
      assert events[..1][..0] == [];
    } else if |events| == 1 {
      assert events[..0] == [];
    }
  }

  /** Without a response definition, `unary` answers one message holding
      only the request info, then completes. */
  lemma UnaryWithoutDefinition(request: UnaryRequest, requestHeaders: Metadata, interrupted: bool)
    requires request.responseDefinition.None?
    requires GetRequestInfo(requestHeaders, PackedUnary(request)).Ok?
    ensures var e := UnarySpec(request, requestHeaders, interrupted);
            && e.result.Ok? && e.headersSet.None? && |e.events| == 2
            && e.events[0].Emitted? && e.events[0].message.payload.data == []
            && e.events[0].message.payload.requestInfo == Some(GetRequestInfo(requestHeaders, PackedUnary(request)).value)
            && e.events[1] == Completed
  {
  }

  /** With a defined error, `unary` sends no message: only an error with
      the defined code and message, the request info as detail, and the
      defined trailers. */
  lemma UnaryDefinedError(request: UnaryRequest, requestHeaders: Metadata, interrupted: bool)
    requires request.responseDefinition.Some? && request.responseDefinition.value.error.Some?
    requires UnarySpec(request, requestHeaders, interrupted).result.Ok?
    ensures var e := UnarySpec(request, requestHeaders, interrupted);
            var definition := request.responseDefinition.value;
            && |e.events| == 1 && e.events[0].Terminated? && e.events[0].termination.ErrorStatus?
            && e.events[0].termination.status.code == definition.error.value.code
            && e.events[0].termination.status.message == definition.error.value.message
            && e.events[0].termination.status.details == [GetRequestInfo(requestHeaders, PackedUnary(request)).value]
            && ToMetadata(definition.responseTrailers) == Ok(e.events[0].termination.trailers)
            && ToMetadata(definition.responseHeaders) == Ok(e.headersSet.value)
  {
  }

  /** Without a defined error, `unary` sends the defined data, then ends
      with `Status.OK` and the defined trailers. */
  lemma UnaryDefinedData(request: UnaryRequest, requestHeaders: Metadata, interrupted: bool)
    requires request.responseDefinition.Some? && request.responseDefinition.value.error.None?
    requires UnarySpec(request, requestHeaders, interrupted).result.Ok?
    ensures var e := UnarySpec(request, requestHeaders, interrupted);
            var definition := request.responseDefinition.value;
            && |e.events| == 2 && e.events[0].Emitted?
            && e.events[0].message.payload.data == definition.responseData
            && e.events[0].message.payload.requestInfo.Some?
            && e.events[1].Terminated? && e.events[1].termination.OkStatus?
            && ToMetadata(definition.responseTrailers) == Ok(e.events[1].termination.trailers)
  {
  }

  /** An interrupted delay ends `unary` with UNAVAILABLE after the headers
      were handed over and before anything reaches the observer. */
  lemma UnaryInterrupted(request: UnaryRequest, requestHeaders: Metadata)
    requires request.responseDefinition.Some? && request.responseDefinition.value.responseDelayMs > 0
    requires GetRequestInfo(requestHeaders, PackedUnary(request)).Ok?
    requires ToMetadata(request.responseDefinition.value.responseHeaders).Ok?
    requires ToMetadata(request.responseDefinition.value.responseTrailers).Ok?
    ensures UnarySpec(request, requestHeaders, true)
            == Effects(Some(ToMetadata(request.responseDefinition.value.responseHeaders).value), [], Err(INTERRUPTED))
  {
  }

  /** In a stream, message `k` carries the `k`-th defined data, and only
      the first message carries the request info. */
  lemma StreamMessagesInOrder(request: ServerStreamRequest, requestHeaders: Metadata, interruptedAt: Option<nat>, k: nat)
    requires request.responseDefinition.Some?
    requires k < |ServerStreamSpec(request, requestHeaders, interruptedAt).events|
    requires ServerStreamSpec(request, requestHeaders, interruptedAt).events[k].Emitted?
    ensures var payload := ServerStreamSpec(request, requestHeaders, interruptedAt).events[k].message.payload;
            && k < |request.responseDefinition.value.responseData|
            && payload.data == request.responseDefinition.value.responseData[k]
            && (payload.requestInfo.Some? <==> k == 0)
  {
    var e := ServerStreamSpec(request, requestHeaders, interruptedAt);
    var info := GetRequestInfo(requestHeaders, PackedServerStream(request)).value;
    var definition := request.responseDefinition.value;
    var sent := Delivered(definition.responseDelayMs, interruptedAt, |definition.responseData|);
    assert k < sent by {
      if sent == |definition.responseData| && e.result.Ok? {
        assert e.events[sent].Terminated?;
      }
    }
    assert e.events[k] == StreamMessages(info, definition.responseData, sent)[k];
  }

  /** A stream's error carries the request info exactly when no message
      was sent before it. */
  lemma StreamErrorDetails(request: ServerStreamRequest, requestHeaders: Metadata, interruptedAt: Option<nat>)
    requires request.responseDefinition.Some? && request.responseDefinition.value.error.Some?
    requires ServerStreamSpec(request, requestHeaders, interruptedAt).result.Ok?
    ensures var events := ServerStreamSpec(request, requestHeaders, interruptedAt).events;
            && events != [] && events[|events| - 1].Terminated? && events[|events| - 1].termination.ErrorStatus?
            && (events[|events| - 1].termination.status.details != [] <==> Messages(events) == 0)
  {
    var e := ServerStreamSpec(request, requestHeaders, interruptedAt);
    var info := GetRequestInfo(requestHeaders, PackedServerStream(request)).value;
    var definition := request.responseDefinition.value;
    var trailers := ToMetadata(definition.responseTrailers).value;
    var ms := StreamMessages(info, definition.responseData, |definition.responseData|);
    StreamOkEvents(request, requestHeaders, interruptedAt);
    var end := StreamEnd(info, definition, trailers);
    assert e.events[..|e.events| - 1] == ms && e.events[|e.events| - 1] == Terminated(end);
    MessagesOfEmitted(ms);
    MessagesAppend(ms, Terminated(end));
  }

  /** A stream that does not throw sends every defined message, then its
      ending. */
  lemma StreamOkEvents(request: ServerStreamRequest, requestHeaders: Metadata, interruptedAt: Option<nat>)
    requires request.responseDefinition.Some?
    requires ServerStreamSpec(request, requestHeaders, interruptedAt).result.Ok?
    ensures GetRequestInfo(requestHeaders, PackedServerStream(request)).Ok?
    ensures ToMetadata(request.responseDefinition.value.responseTrailers).Ok?
    ensures var info := GetRequestInfo(requestHeaders, PackedServerStream(request)).value;
            var definition := request.responseDefinition.value;
            var trailers := ToMetadata(definition.responseTrailers).value;
            ServerStreamSpec(request, requestHeaders, interruptedAt).events
            == StreamMessages(info, definition.responseData, |definition.responseData|) + [Terminated(StreamEnd(info, definition, trailers))]
  {
  }

  lemma MessagesAppend<R>(events: seq<ObserverEvent<R>>, e: ObserverEvent<R>)
    ensures Messages(events + [e]) == Messages(events) + (if e.Emitted? then 1 else 0)
  {
    assert (events + [e])[..|events|] == events;
  }

  /** Every event of a run of stream messages is a message. */
  lemma {:induction false} MessagesOfEmitted<R>(events: seq<ObserverEvent<R>>)
    requires forall k :: 0 <= k < |events| ==> events[k].Emitted?
    ensures Messages(events) == |events|
    decreases |events|
  {
    if events != [] {
      MessagesOfEmitted(events[..|events| - 1]);
    }
  }

  /** A stream that is not interrupted sends every defined message and
      ends once; an interrupted one sends the messages before the
      interrupted sleep and throws UNAVAILABLE. */
  lemma StreamShape(request: ServerStreamRequest, requestHeaders: Metadata, interruptedAt: Option<nat>)
    requires request.responseDefinition.Some?
    requires GetRequestInfo(requestHeaders, PackedServerStream(request)).Ok?
    requires ToMetadata(request.responseDefinition.value.responseHeaders).Ok?
    requires ToMetadata(request.responseDefinition.value.responseTrailers).Ok?
    ensures var e := ServerStreamSpec(request, requestHeaders, interruptedAt);
            var definition := request.responseDefinition.value;
            && (e.result.Ok? ==> EndsOnce(e.events) && Messages(e.events) == |definition.responseData|)
            && (e.result.Err? <==> definition.responseDelayMs > 0 && interruptedAt.Some? && interruptedAt.value < |definition.responseData|)
            && (e.result.Err? ==> e.result.error == INTERRUPTED && Messages(e.events) == interruptedAt.value == |e.events|)
  {
    var e := ServerStreamSpec(request, requestHeaders, interruptedAt);
    var info := GetRequestInfo(requestHeaders, PackedServerStream(request)).value;
    var data := request.responseDefinition.value.responseData;
    var sent := Delivered(request.responseDefinition.value.responseDelayMs, interruptedAt, |data|);
    var ms := StreamMessages(info, data, sent);
    MessagesOfEmitted(ms);
    if e.result.Ok? {
      assert e.events[..|e.events| - 1] == ms;
    }
  }

  /** Without a response definition a stream only completes. */
  lemma StreamWithoutDefinition(request: ServerStreamRequest, requestHeaders: Metadata, interruptedAt: Option<nat>)
    requires request.responseDefinition.None?
    requires GetRequestInfo(requestHeaders, PackedServerStream(request)).Ok?
    ensures ServerStreamSpec(request, requestHeaders, interruptedAt) == Effects(None, [Completed], Ok(()))
  {
  }

  /** Within a header list whose names are distinct, the headers of one
      name in the flattened stream are exactly that name's entry. */
  lemma {:induction false} FlattenNamed(hvs: seq<HeaderValues>, name: string)
    requires forall i, j :: 0 <= i < j < |hvs| ==> hvs[i].name != hvs[j].name
    ensures forall i :: 0 <= i < |hvs| && hvs[i].name == name ==> Named(Flatten(hvs), name) == HeadersFor(name, hvs[i].values)
    ensures (forall i :: 0 <= i < |hvs| ==> hvs[i].name != name) ==> Named(Flatten(hvs), name) == []
    decreases |hvs|
  {
    if hvs != [] {
      var n := |hvs| - 1;
      var init := hvs[..n];
      FlattenNamed(init, name);
      NamedAppend(Flatten(init), HeadersFor(hvs[n].name, hvs[n].values), name);
      NamedHeadersFor(hvs[n].name, hvs[n].values, name);
      assert forall i :: 0 <= i < n ==> init[i] == hvs[i];
    }
  }

  /** `toHeadersList` keeps each name's values in order: flattening the
      grouped list gives, name by name, the original headers. */
  lemma RegroupKeepsOrder(hs: seq<Header>, name: string)
    ensures Named(Flatten(ToHeadersList(hs)), name) == Named(hs, name)
  {
    var g := ToHeadersList(hs);
    FlattenNamed(g, name);
    if Named(hs, name) != [] {
      var i :| 0 <= i < |g| && g[i].name == name;
    }
  }
}
