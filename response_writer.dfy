/** DefaultResponseWriter.java, with the defaults of ResponseWriter.java and
    the message wrapper of MessageResponseWriter.java: the response side of
    the gateway. The writer answers 200 with the gRPC-Web content type, the
    converted response headers, any number of frames, and one trailer frame
    carrying the status as text, after which the body is closed. */
module ResponseWriting {
  import opened Common
  import opened Servlet
  import opened Streams
  import opened FrameFlags
  import opened FrameDecoding
  import opened TextEncoding
  import opened MetadataModel
  import opened ContentTypes
  import opened DefaultHeaderConverter
  import Base64

  const CRLF: string := "\r\n"
  const TRAILERS_HAVE_BEEN_WRITTEN: string := "Trailers have been written"
  const HEADERS_HAVE_BEEN_WRITTEN: string := "Headers have been written"

  // ---------------------------------------------------------- frame layout

  /** `FrameFlag.encode(flags)`, as the one byte `write(int)` sends. */
  function FlagByte(flags: set<FrameFlag>): (b: byte)
    ensures FlagsOfByte(b) == flags
  {
    EncodingFitsFlagByte(flags);
    FrameFlags.DecodeEncode(flags);
    var b := (BitsOf(flags) as int) as byte;
    assert b as bv32 == BitsOf(flags);
    b
  }

  /** The bytes of one frame: the flag byte, the payload length as four
      big-endian bytes (`putInt` of the array length, which a Java array
      keeps below 2^31, so the length field always reads back whole there),
      then the payload. */
  function FrameBytes(flags: set<FrameFlag>, payload: seq<byte>): (f: seq<byte>)
    ensures |f| == 5 + |payload|
    ensures FlagsOfByte(f[0]) == flags && Uint32(f[1..5]) == |payload| % TWO_32 && f[5..] == payload
  {
    Uint32RoundTrip(|payload| % TWO_32);
    var f := [FlagByte(flags)] + Uint32Bytes(|payload| % TWO_32) + payload;
    assert f[1..5] == Uint32Bytes(|payload| % TWO_32);
    f
  }

  /** What a `Base64.getEncoder().wrap(out)` stream has passed on to `out`
      after `flush()` without `close()`: the complete 3-byte groups only;
      the last `|b| % 3` bytes wait in the encoder for a `close()` that the
      writer never makes. */
  function EncodeFlushed(b: seq<byte>): (s: string)
    ensures Base64.Decode(s) == Ok(b[..|b| / 3 * 3])
  {
    Base64.DecodeEncode(b[..|b| / 3 * 3]);
    Base64.Encode(b[..|b| / 3 * 3])
  }

  /** The calls on the response, or its output stream, that `writeFrame`
      makes. In a base64 content type the frame goes through a fresh
      encoder that is flushed and never closed, so the body receives the
      text of the frame's complete 3-byte groups only. */
  function FrameEvents(contentType: GrpcWebContentType, flags: set<FrameFlag>, payload: seq<byte>): (es: seq<ResponseEvent>)
    ensures forall i :: 0 <= i < |es| ==> es[i].BodyWrite? || es[i].BodyFlush?
    ensures es != [] && es[|es| - 1] == BodyFlush
  {
    if contentType.base64Encoded then
      [BodyWrite(AsciiBytes(EncodeFlushed(FrameBytes(flags, payload)))), BodyFlush]
    else
      [BodyWrite([FlagByte(flags)]), BodyWrite(Uint32Bytes(|payload| % TWO_32)), BodyWrite(payload), BodyFlush]
  }

  /** The response body: the bytes of every write, in order. */
  function BodyBytes(events: seq<ResponseEvent>): seq<byte> {
    if events == [] then []
    else BodyBytes(events[..|events| - 1]) + (if events[|events| - 1].BodyWrite? then events[|events| - 1].bytes else [])
  }

  // ------------------------------------------------------------ header part

  /** One `addHeader` per converted header, in order. */
  function AddHeaders(hs: seq<Header>): (es: seq<ResponseEvent>)
    ensures |es| == |hs|
    ensures forall i :: 0 <= i < |hs| ==> es[i] == AddHeader(hs[i].name, hs[i].value)
  {
    seq(|hs|, i requires 0 <= i < |hs| => AddHeader(hs[i].name, hs[i].value))
  }

  /** The calls `writeHeaders(headers)` makes on the response: status 200
      first, the buffer flush last, one header call per converted header
      in between, and nothing on the body. */
  function HeaderEvents(contentType: GrpcWebContentType, headers: Metadata): (es: seq<ResponseEvent>)
    ensures |es| == 4 + |ToHeaders(headers)|
    ensures es[0] == SetStatus(SC_OK) && es[|es| - 1] == FlushBuffer
    ensures forall i :: 0 <= i < |es| ==> !es[i].BodyWrite? && !es[i].BodyFlush? && !es[i].BodyClose?
  {
    var adds := AddHeaders(ToHeaders(headers));
    var es := [SetStatus(SC_OK), SetContentType(contentType.contentType), SetHeader("transfer-encoding", "chunked")] + adds + [FlushBuffer];
    assert forall i :: 0 <= i < |es| ==> i < 3 || i == |es| - 1 || es[i] == adds[i - 3];
    assert es == HeaderListEvents(contentType, ToHeaders(headers));
    HeaderListEvents(contentType, ToHeaders(headers))
  }

  /** Status 200, the content type, chunked transfer, one `addHeader` per
      converted header, then `flushBuffer`. */
  function HeaderListEvents(contentType: GrpcWebContentType, httpHeaders: seq<Header>): seq<ResponseEvent> {
    [SetStatus(SC_OK), SetContentType(contentType.contentType), SetHeader("transfer-encoding", "chunked")]
    + AddHeaders(httpHeaders) + [FlushBuffer]
  }

  // ----------------------------------------------------------- trailer text

  /** `appendTrailer`: one line `name: value`, the name lower-cased. */
  function TrailerLine(key: string, value: string): string {
    Lower(key) + ": " + value + CRLF
  }

  /** One line per converted trailer header, in order. */
  function TrailerLines(hs: seq<Header>): string {
    if hs == [] then []
    else TrailerLines(hs[..|hs| - 1]) + TrailerLine(hs[|hs| - 1].name, hs[|hs| - 1].value)
  }

  /** The status lines: `grpc-status` with the numeric code, then
      `grpc-message` with the percent-encoded description when there is a
      non-empty one. */
  function StatusLines(status: Status): string {
    var statusLine := TrailerLine("grpc-status", Decimal(status.code.Value()));
    if status.description.Some? && status.description.value != [] then
      statusLine + TrailerLine("grpc-message", PercentEncode(status.description.value))
    else statusLine
  }

  /** The text of the trailer frame: the status lines come last, and the
      text ends a line. */
  function TrailerText(status: Status, trailer: Metadata): (text: string)
    ensures |StatusLines(status)| <= |text| && text[|text| - |StatusLines(status)|..] == StatusLines(status)
    ensures |text| >= 2 && text[|text| - 2..] == CRLF
  {
    var lines := TrailerLines(ToHeaders(trailer));
    var statusLines := StatusLines(status);
    assert (lines + statusLines)[|lines|..] == statusLines;
    assert statusLines[|statusLines| - 2..] == CRLF;
    lines + statusLines
  }

  /** The `StringBuilder` loop of `writeTrailers`. */
  method BuildTrailerText(status: Status, trailer: Metadata) returns (text: string)
    ensures text == TrailerText(status, trailer)
  {
    var trailers := ToHeaders(trailer);
    text := [];
    var i := 0;
    while i < |trailers|
      invariant 0 <= i <= |trailers|
      invariant text == TrailerLines(trailers[..i])
    {
      assert trailers[..i + 1][..i] == trailers[..i];
      text := text + TrailerLine(trailers[i].name, trailers[i].value);
      i := i + 1;
    }
    assert trailers[..i] == trailers;
    ghost var lines := text;
    var statusLine := TrailerLine("grpc-status", Decimal(status.code.Value()));
    text := text + statusLine;
    if status.description.Some? && status.description.value != [] {
      var messageLine := TrailerLine("grpc-message", PercentEncode(status.description.value));
      text := text + messageLine;
      assert text == lines + (statusLine + messageLine);
    }
    assert text == lines + StatusLines(status);
  }

  // ----------------------------------------------------------------- writer

  /** `DefaultResponseWriter`: the response and the two phase flags. */
  class DefaultResponseWriter {
    const contentType: GrpcWebContentType
    const response: HttpResponse
    var headersWritten: bool
    var trailersWritten: bool

    constructor (contentType: GrpcWebContentType, response: HttpResponse)
      ensures this.contentType == contentType && this.response == response
      ensures !headersWritten && !trailersWritten
    {
      this.contentType := contentType;
      this.response := response;
      headersWritten := false;
      trailersWritten := false;
    }

    /** `writeHeaders(headers)`: refused once trailers or headers have been
        written; otherwise status 200, the content type, chunked transfer,
        one header per converted metadata value, a flush, and the headers
        phase is over. */
    method WriteHeaders(headers: Metadata) returns (r: Result<()>)
      modifies this, response
      ensures old(trailersWritten) ==> r == Err(IllegalState(TRAILERS_HAVE_BEEN_WRITTEN))
      ensures !old(trailersWritten) && old(headersWritten) ==> r == Err(IllegalState(HEADERS_HAVE_BEEN_WRITTEN))
      ensures r.Ok? <==> !old(trailersWritten) && !old(headersWritten)
      ensures r.Err? ==> response.events == old(response.events) && headersWritten == old(headersWritten)
      ensures r.Ok? ==> headersWritten && response.events == old(response.events) + HeaderEvents(contentType, headers)
      ensures trailersWritten == old(trailersWritten)
    {
      if trailersWritten {
        return Err(IllegalState(TRAILERS_HAVE_BEEN_WRITTEN));
      }
      if headersWritten {
        return Err(IllegalState(HEADERS_HAVE_BEEN_WRITTEN));
      }
      EmitHeaders(ToHeaders(headers));
      headersWritten := true;
      return Ok(());
    }

    /** The accepted path of `writeHeaders`, given the converted headers:
        what reaches the response. */
    method EmitHeaders(httpHeaders: seq<Header>)
      modifies response
      ensures response.events == old(response.events) + HeaderListEvents(contentType, httpHeaders)
    {
      ghost var start := response.events;
      var prefix := [SetStatus(SC_OK), SetContentType(contentType.contentType), SetHeader("transfer-encoding", "chunked")];
      response.Record(prefix[0]);
      response.Record(prefix[1]);
      response.Record(prefix[2]);
      assert response.events == start + prefix;
      AddAll(httpHeaders);
      response.Record(FlushBuffer);
      assert response.events == start + (prefix + AddHeaders(httpHeaders) + [FlushBuffer]);
    }

    /** The `forEach` of `writeHeaders`: one `addHeader` per header, in
        order. */
    method AddAll(httpHeaders: seq<Header>)
      modifies response
      ensures response.events == old(response.events) + AddHeaders(httpHeaders)
    {
      ghost var start := response.events;
      var i := 0;
      while i < |httpHeaders|
        invariant 0 <= i <= |httpHeaders|
        invariant response.events == start + AddHeaders(httpHeaders[..i])
      {
        assert AddHeaders(httpHeaders[..i + 1]) == AddHeaders(httpHeaders[..i]) + [AddHeader(httpHeaders[i].name, httpHeaders[i].value)];
        response.Record(AddHeader(httpHeaders[i].name, httpHeaders[i].value));
        i := i + 1;
      }
      assert httpHeaders[..i] == httpHeaders;
    }

    /** The interface default `writeHeaders()`: empty metadata. */
    method WriteEmptyHeaders() returns (r: Result<()>)
      modifies this, response
      ensures old(trailersWritten) ==> r == Err(IllegalState(TRAILERS_HAVE_BEEN_WRITTEN))
      ensures !old(trailersWritten) && old(headersWritten) ==> r == Err(IllegalState(HEADERS_HAVE_BEEN_WRITTEN))
      ensures r.Ok? <==> !old(trailersWritten) && !old(headersWritten)
      ensures r.Err? ==> response.events == old(response.events) && headersWritten == old(headersWritten)
      ensures r.Ok? ==> headersWritten && response.events == old(response.events) + HeaderEvents(contentType, [])
      ensures trailersWritten == old(trailersWritten)
    {
      r := WriteHeaders([]);
    }

    /** `writeFrame(flags, frameBytes)`: one frame, then a flush. It neither
        reads nor changes the phase flags. */
    method WriteFrame(flags: set<FrameFlag>, frameBytes: seq<byte>)
      modifies response
      ensures response.events == old(response.events) + FrameEvents(contentType, flags, frameBytes)
    {
      if contentType.base64Encoded {
        response.Record(BodyWrite(AsciiBytes(EncodeFlushed(FrameBytes(flags, frameBytes)))));
      } else {
        response.Record(BodyWrite([FlagByte(flags)]));
        response.Record(BodyWrite(Uint32Bytes(|frameBytes| % TWO_32)));
        response.Record(BodyWrite(frameBytes));
      }
      response.Record(BodyFlush);
    }

    /** `writeTrailers(status, trailer)`: refused once trailers have been
        written; otherwise empty headers first if none were written, then
        the trailer text as one TRAILERS frame, the body is closed, and only
        then is the trailers phase over. */
    method WriteTrailers(status: Status, trailer: Metadata) returns (r: Result<()>)
      modifies this, response
      ensures old(trailersWritten) ==>
                r == Err(IllegalState(TRAILERS_HAVE_BEEN_WRITTEN)) && response.events == old(response.events)
                && headersWritten == old(headersWritten) && trailersWritten
      ensures !old(trailersWritten) ==>
                r == Ok(()) && headersWritten && trailersWritten
                && response.events == old(response.events)
                     + (if old(headersWritten) then [] else HeaderEvents(contentType, []))
                     + FrameEvents(contentType, {Trailers}, AsciiBytes(TrailerText(status, trailer)))
                     + [BodyClose]
    {
      if trailersWritten {
        return Err(IllegalState(TRAILERS_HAVE_BEEN_WRITTEN));
      }
      ghost var start := response.events;
      if !headersWritten {
        var written := WriteEmptyHeaders();
      }
      ghost var afterHeaders := response.events;
      assert afterHeaders == start + (if old(headersWritten) then [] else HeaderEvents(contentType, []));
      var text := BuildTrailerText(status, trailer);
      WriteFrame({Trailers}, AsciiBytes(text));
      response.Record(BodyClose);
      trailersWritten := true;
      return Ok(());
    }

    /** The interface default `writeTrailers(status)`: empty trailer
        metadata. */
    method WriteStatusTrailers(status: Status) returns (r: Result<()>)
      modifies this, response
      ensures old(trailersWritten) ==>
                r == Err(IllegalState(TRAILERS_HAVE_BEEN_WRITTEN)) && response.events == old(response.events)
                && headersWritten == old(headersWritten) && trailersWritten
      ensures !old(trailersWritten) ==>
                r == Ok(()) && headersWritten && trailersWritten
                && response.events == old(response.events)
                     + (if old(headersWritten) then [] else HeaderEvents(contentType, []))
                     + FrameEvents(contentType, {Trailers}, AsciiBytes(StatusLines(status)))
                     + [BodyClose]
    {
      EmptyTrailerText(status);
      r := WriteTrailers(status, []);
    }
  }

  /** `MessageResponseWriter`: writes response messages as data frames
      through a writer; `serialize` is the method's response marshaller. */
  class MessageResponseWriter<R> {
    const delegate: DefaultResponseWriter
    const serialize: R -> seq<byte>

    constructor (delegate: DefaultResponseWriter, serialize: R -> seq<byte>)
      ensures this.delegate == delegate && this.serialize == serialize
    {
      this.delegate := delegate;
      this.serialize := serialize;
    }

    /** `writeMessage`: exactly one data frame, with no flags, holding the
        whole marshalled message. */
    method WriteMessage(message: R)
      modifies delegate.response
      ensures delegate.response.events == old(delegate.response.events) + FrameEvents(delegate.contentType, {}, serialize(message))
    {
      var messageBytes := serialize(message);
      delegate.WriteFrame({}, messageBytes);
    }

    /** `writeHeaders`, forwarded unchanged. */
    method WriteHeaders(headers: Metadata) returns (r: Result<()>)
      modifies delegate, delegate.response
      ensures old(delegate.trailersWritten) ==> r == Err(IllegalState(TRAILERS_HAVE_BEEN_WRITTEN))
      ensures !old(delegate.trailersWritten) && old(delegate.headersWritten) ==> r == Err(IllegalState(HEADERS_HAVE_BEEN_WRITTEN))
      ensures r.Ok? <==> !old(delegate.trailersWritten) && !old(delegate.headersWritten)
      ensures r.Err? ==> delegate.response.events == old(delegate.response.events)
                         && delegate.headersWritten == old(delegate.headersWritten)
      ensures r.Ok? ==> delegate.headersWritten
                        && delegate.response.events == old(delegate.response.events) + HeaderEvents(delegate.contentType, headers)
      ensures delegate.trailersWritten == old(delegate.trailersWritten)
    {
      r := delegate.WriteHeaders(headers);
    }

    /** `writeTrailers`, forwarded unchanged. */
    method WriteTrailers(status: Status, trailer: Metadata) returns (r: Result<()>)
      modifies delegate, delegate.response
      ensures old(delegate.trailersWritten) ==>
                r == Err(IllegalState(TRAILERS_HAVE_BEEN_WRITTEN)) && delegate.response.events == old(delegate.response.events)
                && delegate.headersWritten == old(delegate.headersWritten) && delegate.trailersWritten
      ensures !old(delegate.trailersWritten) ==>
                r == Ok(()) && delegate.headersWritten && delegate.trailersWritten
                && delegate.response.events == old(delegate.response.events)
                     + (if old(delegate.headersWritten) then [] else HeaderEvents(delegate.contentType, []))
                     + FrameEvents(delegate.contentType, {Trailers}, AsciiBytes(TrailerText(status, trailer)))
                     + [BodyClose]
    {
      r := delegate.WriteTrailers(status, trailer);
    }

    /** `writeFrame`, forwarded unchanged. */
    method WriteFrame(flags: set<FrameFlag>, frameBytes: seq<byte>)
      modifies delegate.response
      ensures delegate.response.events == old(delegate.response.events) + FrameEvents(delegate.contentType, flags, frameBytes)
    {
      delegate.WriteFrame(flags, frameBytes);
    }
  }

  // ------------------------------------------------------------ properties

  lemma EmptyTrailerText(status: Status)
    ensures TrailerText(status, []) == StatusLines(status)
  {
    assert Keys([]) == [];
  }

  /** A frame writes only to the body: no status, header or close. */
  lemma FrameEventsOnlyBody(contentType: GrpcWebContentType, flags: set<FrameFlag>, payload: seq<byte>)
    ensures forall e :: e in FrameEvents(contentType, flags, payload) ==> e.BodyWrite? || e.BodyFlush?
  {
  }

  lemma {:induction false} BodyBytesAppend(a: seq<ResponseEvent>, b: seq<ResponseEvent>)
    ensures BodyBytes(a + b) == BodyBytes(a) + BodyBytes(b)
    decreases |b|
  {
    if b == [] {
      assert a + b == a;
    } else {
      assert (a + b)[..|a + b| - 1] == a + b[..|b| - 1];
      BodyBytesAppend(a, b[..|b| - 1]);
    }
  }

  /** In a binary content type the body gains exactly the frame's bytes; in
      a base64 one, text that decodes to the frame's complete 3-byte groups,
      so the last `|frame| % 3` bytes are missing. */
  lemma FrameBody(contentType: GrpcWebContentType, flags: set<FrameFlag>, payload: seq<byte>)
    ensures !contentType.base64Encoded ==> BodyBytes(FrameEvents(contentType, flags, payload)) == FrameBytes(flags, payload)
    ensures contentType.base64Encoded ==>
              var frame := FrameBytes(flags, payload);
              BodyBytes(FrameEvents(contentType, flags, payload)) == AsciiBytes(EncodeFlushed(frame))
              && Base64.Decode(EncodeFlushed(frame)) == Ok(frame[..|frame| / 3 * 3])
  {
    var es := FrameEvents(contentType, flags, payload);
    if !contentType.base64Encoded {
      var w1, w2, w3 := BodyWrite([FlagByte(flags)]), BodyWrite(Uint32Bytes(|payload| % TWO_32)), BodyWrite(payload);
      assert es == [w1] + [w2] + [w3] + [BodyFlush];
      BodyBytesAppend([w1] + [w2] + [w3], [BodyFlush]);
      BodyBytesAppend([w1] + [w2], [w3]);
      BodyBytesAppend([w1], [w2]);
      BodyBytesSingle(w1);
      BodyBytesSingle(w2);
      BodyBytesSingle(w3);
      BodyBytesSingle(BodyFlush);
    } else {
      var w := BodyWrite(AsciiBytes(EncodeFlushed(FrameBytes(flags, payload))));
      assert es == [w] + [BodyFlush];
      BodyBytesAppend([w], [BodyFlush]);
      BodyBytesSingle(w);
      BodyBytesSingle(BodyFlush);
    }
  }

  lemma BodyBytesSingle(e: ResponseEvent)
    ensures BodyBytes([e]) == if e.BodyWrite? then e.bytes else []
  {
    assert [e][..0] == [];
  }

  /** Round trip with the request decoder: the bytes of a data frame for a
      payload within the limit, which is what a binary body carries, read
      back as exactly that payload, handed to the marshaller, with nothing
      consumed beyond the frame. */
  lemma WrittenFrameReadsBack<T>(payload: seq<byte>, rest: seq<byte>, maxFrameSize: int, parse: seq<byte> -> Result<T>)
    requires IsJavaInt(maxFrameSize) && |payload| <= maxFrameSize
    ensures var step := ReadFrame(FrameBytes({}, payload) + rest, maxFrameSize, parse);
            step.consumed == 5 + |payload|
            && step.result == match parse(payload)
                              case Ok(m) => Ok(Some(m))
                              case Err(e) => Err(e)
  {
    var f := FrameBytes({}, payload);
    var s := f + rest;
    assert s[0] == f[0] && s[1..5] == f[1..5];
    assert s[5..5 + |payload|] == payload;
  }

  /** A trailer frame is refused by the request decoder after its flag byte. */
  lemma TrailerFrameNotAMessage<T>(payload: seq<byte>, maxFrameSize: int, parse: seq<byte> -> Result<T>)
    requires IsJavaInt(maxFrameSize)
    ensures ReadFrame(FrameBytes({Trailers}, payload), maxFrameSize, parse)
         == Step(Err(StatusError(UNIMPLEMENTED, "No message received")), 1)
  {
  }

  /** `Lower` keeps text without upper-case letters. */
  lemma LowerKeeps(s: string)
    requires forall i :: 0 <= i < |s| ==> !('A' <= s[i] <= 'Z')
    ensures Lower(s) == s
  {
  }

  /** The status lines carry the code, which reads back as a number, and
      the description, whose percent-decoding is its UTF-8 bytes. */
  lemma StatusLinesReadBack(status: Status)
    ensures var code := Decimal(status.code.Value());
            DigitsValue(code) == status.code.Value()
            && StatusLines(status) == "grpc-status: " + code + CRLF +
                 if status.description.Some? && status.description.value != [] then
                   "grpc-message: " + PercentEncode(status.description.value) + CRLF
                 else []
    ensures status.description.Some? ==> PercentDecode(PercentEncode(status.description.value)) == Some(Utf8(status.description.value))
  {
    var code := Decimal(status.code.Value());
    DecimalRoundTrip(status.code.Value());
    StatusNamesLower("grpc-status", "grpc-message");
    assert TrailerLine("grpc-status", code) == "grpc-status: " + code + CRLF;
    if status.description.Some? {
      var encoded := PercentEncode(status.description.value);
      assert TrailerLine("grpc-message", encoded) == "grpc-message: " + encoded + CRLF;
      PercentDecodeEncode(status.description.value);
    }
  }

  /** The two status keys are already lower case. */
  lemma StatusNamesLower(statusKey: string, messageKey: string)
    requires statusKey == "grpc-status" && messageKey == "grpc-message"
    ensures Lower(statusKey) == statusKey && Lower(messageKey) == messageKey
  {
    LowerKeeps(statusKey);
    LowerKeeps(messageKey);
  }

  /** NOT_FOUND described "missing id", with no trailer metadata, gives
      `grpc-status: 5` and `grpc-message: missing%20id`. */
  lemma MissingIdTrailer(message: string, expected: string)
    requires message == "missing id"
    requires expected == "grpc-status: 5\r\ngrpc-message: missing%20id\r\n"
    ensures TrailerText(Described(NOT_FOUND, message), []) == expected
  {
    var encoded := PercentEncode(message);
    var code := Decimal(5);
    MissingIdExample(message);
    DescribedTrailer(NOT_FOUND, message);
    assert code == "5";
    JoinStatusLines(encoded, code, expected);
  }

  lemma JoinStatusLines(encoded: string, code: string, expected: string)
    requires encoded == "missing%20id" && code == "5"
    requires expected == "grpc-status: 5\r\ngrpc-message: missing%20id\r\n"
    ensures "grpc-status: " + code + CRLF + "grpc-message: " + encoded + CRLF == expected
  {
  }

  /** With no trailer metadata and a non-empty description, the trailer text
      is exactly the two status lines. */
  lemma DescribedTrailer(code: Code, description: string)
    requires description != []
    ensures TrailerText(Described(code, description), []) ==
              "grpc-status: " + Decimal(code.Value()) + CRLF + "grpc-message: " + PercentEncode(description) + CRLF
  {
    var status := Described(code, description);
    var digits, message := Decimal(code.Value()), PercentEncode(description);
    EmptyTrailerText(status);
    StatusLinesReadBack(status);
    var statusLine, messageLine := "grpc-status: " + digits + CRLF, "grpc-message: " + message + CRLF;
    assert TrailerText(status, []) == statusLine + messageLine;
    assert statusLine + messageLine == statusLine + "grpc-message: " + message + CRLF;
  }

  /** The trailer lines keep each converted trailer as `name: value`, the
      name lower-cased, in order. */
  lemma {:induction false} TrailerLinesAppend(a: seq<Header>, b: seq<Header>)
    ensures TrailerLines(a + b) == TrailerLines(a) + TrailerLines(b)
    decreases |b|
  {
    if b == [] {
      assert a + b == a;
    } else {
      var init, last := b[..|b| - 1], b[|b| - 1];
      var line := TrailerLine(last.name, last.value);
      assert (a + b)[..|a + b| - 1] == a + init && (a + b)[|a + b| - 1] == last;
      TrailerLinesAppend(a, init);
      assert TrailerLines(a + b) == TrailerLines(a + init) + line;
      assert TrailerLines(b) == TrailerLines(init) + line;
    }
  }

  // -------------------------------------------------------- base64 framing

  /** As written, a base64 frame whose length is not a multiple of three
      does not reach the client whole: what was flushed decodes to a strict
      prefix of the frame. */
  lemma FlushedFrameLosesTail(frame: seq<byte>)
    requires |frame| % 3 != 0
    ensures Base64.Decode(EncodeFlushed(frame)) != Ok(frame)
    ensures |frame| / 3 * 3 < |frame|
  {
  }

  /** The data frame of an empty message has 5 bytes; as written only its
      first 3 reach the client, cutting the length field short. */
  lemma EmptyMessageFrameTruncated()
    ensures |FrameBytes({}, [])| == 5
    ensures Base64.Decode(EncodeFlushed(FrameBytes({}, []))) == Ok(FrameBytes({}, [])[..3])
  {
  }

  /** Corrected: the padded text of each frame decodes to the whole frame,
      which the request decoder reads back as the payload. */
  lemma PaddedFrameReadsBack<T>(payload: seq<byte>, maxFrameSize: int, parse: seq<byte> -> Result<T>)
    requires IsJavaInt(maxFrameSize) && |payload| <= maxFrameSize
    ensures Base64.Decode(Base64.EncodePadded(FrameBytes({}, payload))) == Ok(FrameBytes({}, payload))
    ensures var step := ReadFrame(FrameBytes({}, payload), maxFrameSize, parse);
            step.consumed == 5 + |payload|
            && step.result == match parse(payload)
                              case Ok(m) => Ok(Some(m))
                              case Err(e) => Err(e)
  {
    WrittenFrameReadsBack(payload, [], maxFrameSize, parse);
    assert FrameBytes({}, payload) + [] == FrameBytes({}, payload);
  }
}
