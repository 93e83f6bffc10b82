/** ConformanceMain.java: the conformance runner's handshake. One
    length-prefixed request arrives on standard input, naming the options
    under test; one length-prefixed response on standard output says where
    the server listens. */
module ConformanceEntry {
  import opened Common
  import opened Streams

  datatype HttpVersion = HttpVersionUnspecified | HttpVersion1 | HttpVersion2 | HttpVersion3
  datatype Protocol = ProtocolUnspecified | ProtocolConnect | ProtocolGrpc | ProtocolGrpcWeb

  /** The fields of `ServerCompatRequest` the handshake reads. */
  datatype ServerCompatRequest = ServerCompatRequest(
    protocol: Protocol, httpVersion: HttpVersion, useTls: bool, messageReceiveLimit: nat)

  /** `ServerCompatResponse`: where the server listens. */
  datatype ServerCompatResponse = ServerCompatResponse(host: string, port: int)

  const LOCALHOST: string := "localhost"
  const UNSUPPORTED_OPTION: string := "Unsupported option"

  // -------------------------------------------------------------- main

  /** The digits of a numeral: the text after a leading sign, if any. */
  function Magnitude(s: string): (m: string)
    ensures |m| <= |s|
  {
    if s != [] && (s[0] == '-' || s[0] == '+') then s[1..] else s
  }

  /** An optional `-` or `+`, then at least one ASCII digit. */
  predicate IsNumeral(s: string) {
    Magnitude(s) != [] && forall i :: 0 <= i < |Magnitude(s)| ==> IsDigit(Magnitude(s)[i])
  }

  /** The signed value a numeral denotes, negative exactly under `-`. */
  function NumeralValue(s: string): int
    requires IsNumeral(s)
  {
    var magnitude: int := DigitsValue(Magnitude(s));
    if s[0] == '-' then -magnitude else magnitude
  }

  /** `Integer.parseInt` over ASCII: an optional sign, then at least one
      digit, and the value must fit an `int`; anything else (the empty
      string, a lone sign, any other character, a value out of range) is a
      NumberFormatException. */
  function ParseInt(s: string): (r: Result<int>)
    ensures r.Ok? <==> IsNumeral(s) && IsJavaInt(NumeralValue(s))
    ensures r.Ok? ==> IsNumeral(s) && r.value == NumeralValue(s) && IsJavaInt(r.value)
    ensures r.Err? ==> r.error == NumberFormat
  {
    if s == [] then Err(NumberFormat)
    else
      var digits := if s[0] == '-' || s[0] == '+' then s[1..] else s;
      if digits == [] || exists i :: 0 <= i < |digits| && !IsDigit(digits[i]) then Err(NumberFormat)
      else
        var magnitude: int := DigitsValue(digits);
        var v := if s[0] == '-' then -magnitude else magnitude;
        if IsJavaInt(v) then Ok(v) else Err(NumberFormat)
  }

  /** `main`'s arguments: the host and port are taken from the first two
      only when there are at least two; otherwise no host and port 0. */
  function MainArguments(args: seq<string>): (r: Result<(Option<string>, int)>)
    ensures |args| < 2 ==> r == Ok((None, 0))
    ensures |args| >= 2 ==> (r.Ok? <==> ParseInt(args[1]).Ok?)
    ensures |args| >= 2 && r.Ok? ==> r.value == (Some(args[0]), ParseInt(args[1]).value)
    ensures r.Err? ==> r.error == NumberFormat
  {
    if |args| >= 2 then
      match ParseInt(args[1])
      case Ok(port) => Ok((Some(args[0]), port))
      case Err(e) => Err(e)
    else Ok((None, 0))
  }

  // ------------------------------------------------------ specification

  /** `Integer.toString` of the count `String.format` prints. */
  function IntText(i: int): string {
    if i < 0 then "-" + Decimal(-i) else Decimal(i)
  }

  /** What `readRequest` makes of the bytes on standard input. */
  function ReadRequestSpec(data: seq<byte>, parse: seq<byte> -> Result<ServerCompatRequest>): (r: Result<ServerCompatRequest>)
    ensures |data| < 4 ==> r.Err? && r.error.IllegalState?
    ensures |data| >= 4 && Uint32(data[..4]) > INT_MAX ==> r == Err(Arithmetic)
    ensures |data| >= 4 && Uint32(data[..4]) <= INT_MAX && |data| < 4 + Uint32(data[..4]) ==>
              r.Err? && r.error.IllegalState?
    ensures |data| >= 4 && Uint32(data[..4]) <= INT_MAX && 4 + Uint32(data[..4]) <= |data| ==>
              r == parse(data[4..4 + Uint32(data[..4])])
  {
    if |data| < 4 then
      var bytesRead := if data == [] then -1 else |data|;
      Err(IllegalState("Only " + IntText(bytesRead) + " bytes read, expected 4"))
    else
      var size := Uint32(data[..4]);
      if size > INT_MAX then Err(Arithmetic)
      else if |data| - 4 < size then
        Err(IllegalState("Only " + IntText(|data| - 4) + " bytes read, expected " + IntText(size)))
      else parse(data[4..4 + size])
  }

  /** `init`: the request must ask for plain HTTP/1 gRPC-Web; the answer
      is `localhost` and the port the server bound when no host was given,
      and the given host and port otherwise. */
  function InitSpec(data: seq<byte>, parse: seq<byte> -> Result<ServerCompatRequest>,
                    host: Option<string>, port: int, boundPort: int): (r: Result<ServerCompatResponse>)
    ensures r.Ok? ==> ReadRequestSpec(data, parse).Ok?
    ensures r.Ok? <==> ReadRequestSpec(data, parse).Ok? && Supported(ReadRequestSpec(data, parse).value)
    ensures ReadRequestSpec(data, parse).Ok? && !Supported(ReadRequestSpec(data, parse).value) ==>
              r == Err(IllegalState(UNSUPPORTED_OPTION))
    ensures r.Ok? && host.None? ==> r.value == ServerCompatResponse(LOCALHOST, boundPort)
    ensures r.Ok? && host.Some? ==> r.value == ServerCompatResponse(host.value, port)
  {
    var request :- ReadRequestSpec(data, parse);
    if !Supported(request) then Err(IllegalState(UNSUPPORTED_OPTION))
    else if host.None? then Ok(ServerCompatResponse(LOCALHOST, boundPort))
    else Ok(ServerCompatResponse(host.value, port))
  }

  /** The only options the gateway serves: no TLS, HTTP/1, gRPC-Web. */
  predicate Supported(request: ServerCompatRequest) {
    !request.useTls && request.httpVersion == HttpVersion1 && request.protocol == ProtocolGrpcWeb
  }

  /** The bytes `writeResponse` sends: the length, then the message. */
  function Framed(message: seq<byte>): (b: seq<byte>)
    ensures |b| == 4 + |message| && b[4..] == message
  {
    Uint32Bytes(|message| % TWO_32) + message
  }

  // ------------------------------------------------------------ program

  /** `ConformanceMain`: the host and port given on the command line and
      the two standard streams. */
  class ConformanceMain {
    const host: Option<string>
    const port: JavaInt
    const input: ByteInput
    const output: ByteOutput

    constructor (host: Option<string>, port: JavaInt, input: ByteInput, output: ByteOutput)
      ensures this.host == host && this.port == port && this.input == input && this.output == output
    {
      this.host := host;
      this.port := port;
      this.input := input;
      this.output := output;
    }

    /** `readRequest`: four length bytes, then that many message bytes. */
    method ReadRequest(parse: seq<byte> -> Result<ServerCompatRequest>) returns (r: Result<ServerCompatRequest>)
      requires input.Valid()
      modifies input
      ensures input.Valid()
      ensures r == ReadRequestSpec(old(input.Remaining()), parse)
    {
      ghost var data := input.Remaining();
      var bytesRead, sizeBuffer := input.ReadArray(4);
      if bytesRead < 4 {
        return Err(IllegalState("Only " + IntText(bytesRead) + " bytes read, expected 4"));
      }
      assert sizeBuffer == data[..4];
      assert input.Remaining() == data[4..];
      var size := Uint32(sizeBuffer);
      if size > INT_MAX {
        return Err(Arithmetic);
      }
      var messageBytes := input.ReadNBytes(size);
      if |messageBytes| < size {
        return Err(IllegalState("Only " + IntText(|messageBytes|) + " bytes read, expected " + IntText(size)));
      }
      assert messageBytes == data[4..4 + size];
      r := parse(messageBytes);
    }

    /** `writeResponse`: the length, the message, then a flush. */
    method WriteResponse(messageBytes: seq<byte>)
      modifies output
      ensures output.written == old(output.written) + Framed(messageBytes)
      ensures output.flushes == old(output.flushes) + 1
    {
      output.Write(Uint32Bytes(|messageBytes| % TWO_32));
      output.Write(messageBytes);
      output.Flush();
    }

    /** `init`: starting the server is outside the model; `boundPort` is
        the port it binds. */
    method Init(parse: seq<byte> -> Result<ServerCompatRequest>, serialize: ServerCompatResponse -> seq<byte>, boundPort: int)
      returns (r: Result<ServerCompatResponse>)
      requires input.Valid()
      modifies input, output
      ensures r == InitSpec(old(input.Remaining()), parse, host, port, boundPort)
      ensures r.Ok? ==> output.written == old(output.written) + Framed(serialize(r.value))
      ensures r.Err? ==> output.written == old(output.written)
    {
      var request := ReadRequest(parse);
      if request.Err? {
        return Err(request.error);
      }
      if request.value.useTls || request.value.httpVersion != HttpVersion1 || request.value.protocol != ProtocolGrpcWeb {
        return Err(IllegalState(UNSUPPORTED_OPTION));
      }
      var response;
      if host.None? {
        response := ServerCompatResponse(LOCALHOST, boundPort);
      } else {
        response := ServerCompatResponse(host.value, port);
      }
      WriteResponse(serialize(response));
      return Ok(response);
    }
  }

  // ------------------------------------------------------------ properties

  /** Round trip: what `writeResponse` sends, `readRequest`'s framing reads
      back as the same message bytes, whatever follows. */
  lemma FramedReadsBack(message: seq<byte>, rest: seq<byte>, parse: seq<byte> -> Result<ServerCompatRequest>)
    requires |message| <= INT_MAX
    ensures ReadRequestSpec(Framed(message) + rest, parse) == parse(message)
  {
    var data := Framed(message) + rest;
    Uint32RoundTrip(|message|);
    assert data[..4] == Uint32Bytes(|message|);
    assert data[4..4 + |message|] == message;
  }

  /** A declared size above `Integer.MAX_VALUE` is refused however many
      bytes follow. */
  lemma OversizedRequestRefused(rest: seq<byte>, parse: seq<byte> -> Result<ServerCompatRequest>)
    ensures ReadRequestSpec(Uint32Bytes(INT_MAX + 1) + rest, parse) == Err(Arithmetic)
  {
    Uint32RoundTrip(INT_MAX + 1);
    assert (Uint32Bytes(INT_MAX + 1) + rest)[..4] == Uint32Bytes(INT_MAX + 1);
  }

  /** `parseInt` reads back every `int` printed by `Integer.toString`,
      negative ones and `Integer.MIN_VALUE` included. */
  lemma ParseIntText(i: int)
    requires IsJavaInt(i)
    ensures ParseInt(IntText(i)) == Ok(i)
  {
    var n: nat := if i < 0 then -i else i;
    DecimalRoundTrip(n);
    assert IsDigit(Decimal(n)[0]);
    if i < 0 {
      assert Magnitude(IntText(i)) == Decimal(n);
    }
  }

  /** `main` with a host and a printed port passes both on. */
  lemma HostAndPortArguments(host: string, port: nat, rest: seq<string>)
    requires port <= INT_MAX
    ensures MainArguments([host, Decimal(port)] + rest) == Ok((Some(host), port))
  {
    ParseIntText(port);
    assert ([host, Decimal(port)] + rest)[1] == Decimal(port);
  }
}
