/** FrameDecoder.java: reads one gRPC-Web data frame,
    `flag byte | uint32 big-endian length | payload`, from a request body and
    hands the payload to the method's request marshaller. */
module FrameDecoding {
  import opened Common
  import opened FrameFlags
  import opened Streams

  /** The outcome of one `readDataFrame` over the unread bytes: what it
      returns or throws (`Ok(None)` is Java's `null`, "no frame") and how many
      bytes it took from the stream. */
  datatype Step<T> = Step(result: Result<Option<T>>, consumed: nat)

  /** The flags carried by a flag byte. */
  function FlagsOfByte(b: byte): set<FrameFlag> {
    FlagsOf(b as bv32)
  }

  /** `getFrameSize`: the unsigned length, refused above `maxFrameSize`. */
  function GetFrameSize(sizeBytes: seq<byte>, maxFrameSize: int): (r: Result<nat>)
    requires |sizeBytes| == 4
    requires IsJavaInt(maxFrameSize)
    ensures r.Ok? <==> Uint32(sizeBytes) <= maxFrameSize
    ensures r.Ok? ==> r.value == Uint32(sizeBytes) && r.value <= INT_MAX
    ensures r.Err? ==> r.error == StatusError(RESOURCE_EXHAUSTED, "Frame size of exceeds limit")
  {
    var size := Uint32(sizeBytes);
    if size > maxFrameSize then
      Err(StatusError(RESOURCE_EXHAUSTED, "Frame size of exceeds limit"))
    else if size > INT_MAX then
      // Math.toIntExact cannot fail here: size <= maxFrameSize <= INT_MAX
      assert false;
      Err(StatusError(RESOURCE_EXHAUSTED, "Frame size of exceeds limit"))
    else
      Ok(size)
  }

  /** What `readDataFrame` does with the unread bytes `rest`: no frame only
      at the end of the stream, and otherwise at least the flag byte is
      consumed, never more than there is. */
  function ReadFrame<T>(rest: seq<byte>, maxFrameSize: int, parse: seq<byte> -> Result<T>): (step: Step<T>)
    requires IsJavaInt(maxFrameSize)
    ensures step.result == Ok(None) <==> rest == []
    ensures step.consumed <= |rest|
    ensures rest != [] ==> step.consumed > 0
  {
    if rest == [] then Step(Ok(None), 0)
    else if Trailers in FlagsOfByte(rest[0]) then
      Step(Err(StatusError(UNIMPLEMENTED, "No message received")), 1)
    else if Compressed in FlagsOfByte(rest[0]) then
      Step(Err(StatusError(INTERNAL, "Compressed frames are not supported")), 1)
    else if |rest| < 5 then
      Step(Err(IllegalState("Couldn't read length bytes")), |rest|)
    else
      match GetFrameSize(rest[1..5], maxFrameSize)
      case Err(e) => Step(Err(e), 5)
      case Ok(size) =>
        if |rest| < 5 + size then
          Step(Err(IllegalState("Couldn't read message bytes")), |rest|)
        else
          match parse(rest[5..5 + size])
          case Ok(message) => Step(Ok(Some(message)), 5 + size)
          case Err(e) => Step(Err(e), 5 + size)
  }

  /** A request-body decoder; `parse` is the method's request marshaller. */
  class FrameDecoder<T> {
    const input: ByteInput
    const parse: seq<byte> -> Result<T>
    const maxFrameSize: int

    constructor (input: ByteInput, parse: seq<byte> -> Result<T>, maxFrameSize: int)
      requires IsJavaInt(maxFrameSize)
      ensures this.input == input && this.parse == parse && this.maxFrameSize == maxFrameSize
    {
      this.input := input;
      this.parse := parse;
      this.maxFrameSize := maxFrameSize;
    }

    /** `readDataFrame()`: the stream advances by exactly what `ReadFrame`
        consumes, and the result is what `ReadFrame` returns. */
    method ReadDataFrame() returns (r: Result<Option<T>>)
      requires input.Valid() && IsJavaInt(maxFrameSize)
      modifies input
      ensures input.Valid()
      ensures var step := ReadFrame(old(input.Remaining()), maxFrameSize, parse);
              r == step.result && input.pos == old(input.pos) + step.consumed
    {
      ghost var rest := input.Remaining();
      var flagsByte := input.Read();
      if flagsByte == -1 {
        return Ok(None);
      }
      var flags := Decode(flagsByte as bv32);
      assert flagsByte as bv32 == rest[0] as bv32;
      if Trailers in flags {
        return Err(StatusError(UNIMPLEMENTED, "No message received"));
      }
      if Compressed in flags {
        return Err(StatusError(INTERNAL, "Compressed frames are not supported"));
      }
      var count, lengthBytes := input.ReadArray(4);
      if count < 4 {
        return Err(IllegalState("Couldn't read length bytes"));
      }
      assert lengthBytes == rest[1..5];
      var frameSize := GetFrameSize(lengthBytes, maxFrameSize);
      if frameSize.Err? {
        return Err(frameSize.error);
      }
      var messageBytes := input.ReadNBytes(frameSize.value);
      if |messageBytes| != frameSize.value {
        return Err(IllegalState("Couldn't read message bytes"));
      }
      assert messageBytes == rest[5..5 + frameSize.value];
      var message := parse(messageBytes);
      if message.Err? {
        return Err(message.error);
      }
      return Ok(Some(message.value));
    }

    /** `hasFrame()`: reads one byte; true iff the stream was not at its end. */
    method HasFrame() returns (b: bool)
      requires input.Valid()
      modifies input
      ensures input.Valid()
      ensures b <==> old(input.pos) < |input.data|
      ensures input.pos == old(input.pos) + (if b then 1 else 0)
    {
      var firstByte := input.Read();
      b := firstByte != -1;
    }
  }

  // ------------------------------------------------------------ properties

  /** On an exhausted stream there is no frame and nothing is consumed. */
  lemma NoFrameAtEnd<T>(maxFrameSize: int, parse: seq<byte> -> Result<T>)
    requires IsJavaInt(maxFrameSize)
    ensures ReadFrame([], maxFrameSize, parse) == Step(Ok(None), 0)
  {
  }

  /** A flag byte with bit 0x80 fails with UNIMPLEMENTED whatever else is set
      (0x81 included); bit 0x01 alone fails with INTERNAL. */
  lemma FlagByteRejections<T>(rest: seq<byte>, maxFrameSize: int, parse: seq<byte> -> Result<T>)
    requires IsJavaInt(maxFrameSize) && rest != []
    ensures (rest[0] as bv32) & 0x80 != 0 ==>
      ReadFrame(rest, maxFrameSize, parse) == Step(Err(StatusError(UNIMPLEMENTED, "No message received")), 1)
    ensures (rest[0] as bv32) & 0x80 == 0 && (rest[0] as bv32) & 0x01 != 0 ==>
      ReadFrame(rest, maxFrameSize, parse) == Step(Err(StatusError(INTERNAL, "Compressed frames are not supported")), 1)
  {
  }

  /** A declared length above the limit fails with RESOURCE_EXHAUSTED after
      exactly the 5 header bytes, however many payload bytes follow. */
  lemma OversizedFrameRejected<T>(header: seq<byte>, payload: seq<byte>, maxFrameSize: int,
                                  parse: seq<byte> -> Result<T>)
    requires IsJavaInt(maxFrameSize) && |header| == 5
    requires FlagsOfByte(header[0]) == {}
    requires Uint32(header[1..5]) > maxFrameSize
    ensures ReadFrame(header + payload, maxFrameSize, parse)
         == Step(Err(StatusError(RESOURCE_EXHAUSTED, "Frame size of exceeds limit")), 5)
  {
    assert (header + payload)[1..5] == header[1..5];
  }

  /** Fewer than 4 length bytes, or fewer payload bytes than declared, is an
      IllegalStateException. */
  lemma TruncatedFrameRejected<T>(rest: seq<byte>, maxFrameSize: int, parse: seq<byte> -> Result<T>)
    requires IsJavaInt(maxFrameSize) && rest != [] && FlagsOfByte(rest[0]) == {}
    ensures |rest| < 5 ==> ReadFrame(rest, maxFrameSize, parse).result == Err(IllegalState("Couldn't read length bytes"))
    ensures |rest| >= 5 && Uint32(rest[1..5]) <= maxFrameSize && |rest| < 5 + Uint32(rest[1..5]) ==>
      ReadFrame(rest, maxFrameSize, parse).result == Err(IllegalState("Couldn't read message bytes"))
  {
  }

  /** A frame is read whole: exactly 1 + 4 + size bytes are consumed and the
      marshaller sees exactly the payload. */
  lemma {:induction false} SuccessConsumesWholeFrame<T>(rest: seq<byte>, maxFrameSize: int,
                                                       parse: seq<byte> -> Result<T>)
    requires IsJavaInt(maxFrameSize)
    requires ReadFrame(rest, maxFrameSize, parse).result.Ok?
    requires ReadFrame(rest, maxFrameSize, parse).result.value.Some?
    ensures |rest| >= 5 && FlagsOfByte(rest[0]) == {}
    ensures var size := Uint32(rest[1..5]);
            size <= maxFrameSize && 5 + size <= |rest|
            && ReadFrame(rest, maxFrameSize, parse).consumed == 5 + size
            && parse(rest[5..5 + size]) == Ok(ReadFrame(rest, maxFrameSize, parse).result.value.value)
  {
    var flags := FlagsOfByte(rest[0]);
    assert flags <= {Compressed, Trailers};
  }
}
