# gRPC-Web gateway, modelled in Dafny

This project models the core of a Java gRPC-Web gateway. The gateway is a
servlet filter and servlet pair. It accepts browser gRPC-Web requests over
HTTP/1.1 and runs each unary or server-streaming call against an in-process
gRPC service. It writes the answer back as gRPC-Web frames:

- each frame is one flag byte, a four-byte big-endian length and the payload;
- trailers are a final frame with the `TRAILERS` flag and a `name: value` text block;
- in the `-text` content types the body is base64.

The model covers these parts of the gateway:

- **Frame flags** (`FrameFlags`): bit encoding and decoding of the flags.
- **Frame decoder** (`FrameDecoding`): a class over an input stream that reads one data frame at a time.
- **Response writers** (`ResponseWriting`), two classes that record what they do to the servlet response:
  - the default writer: headers once, frames, trailers closing the response;
  - the message writer: it serializes each response message into one frame and delegates the rest.
- **Header conversion** (`HeaderConverter`, `DefaultHeaderConverter`):
  - servlet headers to gRPC metadata, including `-bin` keys in base64;
  - metadata back to response headers;
  - parsing of the `grpc-timeout` header.
- **Content types** (`ContentTypes`): the content-type table and the gRPC-Web test on a request.
- **Service lookup** (`ServiceLocation`): finding a method by its full name.
- **Servlet filter** (`Filtering`): its path validation and its forwarding decision.
- **Handler builder** (`HandlerBuilding`): the builder and its defaults.
- **Request handler** (`RequestHandling`): the handler's decision from request to call or error trailers.
- **Conformance side**:
  - the runner handshake (`ConformanceEntry`);
  - the two conformance service methods (`ConformanceServing`);
  - the interceptor that sends captured headers before a call closes (`HeaderSending`).

Library behaviour that the core depends on is written out in full:

- `java.util.Base64`, modelled in `Base64`;
- `URLEncoder` with UTF-8, modelled in `TextEncoding`;
- the ordered multimap `io.grpc.Metadata`, modelled in `MetadataModel`;
- byte streams, modelled in `Streams`;
- the servlet request and the recorded response, modelled in `Servlet`.

Java exceptions become an `Exception` datatype carried by `Result`. A
`StatusRuntimeException` carries a status code, a description and trailer
metadata. Java `int` and `long` bounds are explicit wherever the code
depends on them: `Math.toIntExact`, `Duration.toNanos` overflow and
`Integer.parseInt`.

The methods that change state are proved against specification functions.
`ReadDataFrame` is proved against `ReadFrame`, and the writers against
`FrameEvents`, `HeaderEvents` and `TrailerText`. Lemmas then prove the
protocol properties about those functions:

- in the binary content types, a written frame reads back; in the `-text`
  types, as written, only the frame's whole three-byte groups reach the
  body (see Findings);
- a trailer frame is never taken for a message;
- trailer lines parse back to the status;
- header conversion round-trips;
- the request handler only calls a method after every check has passed.

The timeout unit `m` means minutes, as in the code at
`HeaderConverter.java:91-99`. The gRPC protocol itself uses `m` for
milliseconds. The model follows the code.

## Model

Paths below are abbreviated:

- `P/` stands for `grpc-web-proxy/src/main/java/com/radixiot/grpcweb/`;
- `C/` stands for `grpc-web-conformance/src/main/java/com/radixiot/grpcweb/conformance/`.

The table itself uses the full paths.

| member | source | states |
|---|---|---|
| FrameFlags.Decode | grpc-web-proxy/src/main/java/com/radixiot/grpcweb/FrameFlag.java:35-43 | a flag is in the decoded set exactly when its bit is set in the flag byte |
| FrameFlags.Encode | grpc-web-proxy/src/main/java/com/radixiot/grpcweb/FrameFlag.java:45-51 | the encoded byte is the OR of the bitmasks of the flags in the set |
| FrameFlags.BitsOfAdd | grpc-web-proxy/src/main/java/com/radixiot/grpcweb/FrameFlag.java:47-49 | adding one flag to the set ORs in exactly its bitmask |
| FrameFlags.BitmaskSelects | grpc-web-proxy/src/main/java/com/radixiot/grpcweb/FrameFlag.java:25-27 | the two bitmasks are disjoint single bits, so each flag's bit is set only by that flag |
| FrameFlags.EncodingFitsFlagByte | grpc-web-proxy/src/main/java/com/radixiot/grpcweb/FrameFlag.java:45-51 | every flag set encodes to one of 0, 1, 0x80, 0x81, so below 0x100; the empty set encodes to 0 |
| FrameFlags.DecodeEncode | grpc-web-proxy/src/main/java/com/radixiot/grpcweb/FrameFlag.java:35-51 | decoding an encoded flag set gives the set back |
| FrameFlags.DecodeIgnoresOtherBits | grpc-web-proxy/src/main/java/com/radixiot/grpcweb/FrameFlag.java:37-41 | bits other than 0x01 and 0x80 do not change the decoded set |
| Streams.ByteInput.constructor | grpc-web-proxy/src/main/java/com/radixiot/grpcweb/FrameDecoder.java:36-40 | a stream positioned at the start of its bytes |
| Streams.ByteInput.Read | grpc-web-proxy/src/main/java/com/radixiot/grpcweb/FrameDecoder.java:43-44 | `read()` returns the next byte and advances by one, or -1 at the end without moving |
| Streams.ByteInput.ReadArray | grpc-web-proxy/src/main/java/com/radixiot/grpcweb/FrameDecoder.java:58-61 | `read(byte[n])` takes the next bytes, up to n, and advances by their count; the count is -1 when the stream is at its end |
| Streams.ByteInput.ReadNBytes | grpc-web-proxy/src/main/java/com/radixiot/grpcweb/FrameDecoder.java:63-67 | `readNBytes(n)` returns the next n bytes, or all that remain when fewer are left |
| Streams.ByteOutput.constructor | grpc-web-conformance/src/main/java/com/radixiot/grpcweb/conformance/ConformanceMain.java:57-66 | an output with nothing written |
| Streams.ByteOutput.Write | grpc-web-conformance/src/main/java/com/radixiot/grpcweb/conformance/ConformanceMain.java:109-110 | written bytes are appended to the output |
| Streams.ByteOutput.Flush | grpc-web-conformance/src/main/java/com/radixiot/grpcweb/conformance/ConformanceMain.java:111 | a flush is recorded and the written bytes are unchanged |
| Streams.Uint32 | grpc-web-proxy/src/main/java/com/radixiot/grpcweb/FrameDecoder.java:72 | four big-endian bytes read as an unsigned value below 2^32 |
| Streams.Uint32Bytes | grpc-web-proxy/src/main/java/com/radixiot/grpcweb/DefaultResponseWriter.java:104 | `putInt` of a length gives four bytes |
| Streams.Uint32RoundTrip | grpc-web-proxy/src/main/java/com/radixiot/grpcweb/DefaultResponseWriter.java:104-105 | the length bytes written for a frame read back as that length |
| Streams.Uint32BytesRoundTrip | grpc-web-proxy/src/main/java/com/radixiot/grpcweb/FrameDecoder.java:72 | any four bytes are the `putInt` encoding of the value they are read as |
| FrameDecoding.GetFrameSize | grpc-web-proxy/src/main/java/com/radixiot/grpcweb/FrameDecoder.java:71-86 | the unsigned size is accepted exactly when it is at most the limit, and then fits an `int`; otherwise RESOURCE_EXHAUSTED "Frame size of exceeds limit" |
| FrameDecoding.ReadFrame | grpc-web-proxy/src/main/java/com/radixiot/grpcweb/FrameDecoder.java:42-69 | `readDataFrame` on the unread bytes: no frame exactly at the end of the stream; otherwise at least the flag byte is consumed, and never more bytes than remain |
| FrameDecoding.FrameDecoder.constructor | grpc-web-proxy/src/main/java/com/radixiot/grpcweb/FrameDecoder.java:36-40 | a decoder over the stream with the given frame limit |
| FrameDecoding.FrameDecoder.ReadDataFrame | grpc-web-proxy/src/main/java/com/radixiot/grpcweb/FrameDecoder.java:42-69 | the result and the new stream position are those of `ReadFrame` on the remaining bytes |
| FrameDecoding.FrameDecoder.HasFrame | grpc-web-proxy/src/main/java/com/radixiot/grpcweb/FrameDecoder.java:88-91 | true exactly when a byte remains; `hasFrame` reads that byte, so the stream advances by one |
| FrameDecoding.NoFrameAtEnd | grpc-web-proxy/src/main/java/com/radixiot/grpcweb/FrameDecoder.java:43-45 | at the end of the stream no frame is read and nothing is consumed |
| FrameDecoding.FlagByteRejections | grpc-web-proxy/src/main/java/com/radixiot/grpcweb/FrameDecoder.java:46-56 | after one byte: a flag byte with the trailers bit is UNIMPLEMENTED "No message received"; otherwise one with the compressed bit is INTERNAL "Compressed frames are not supported" |
| FrameDecoding.OversizedFrameRejected | grpc-web-proxy/src/main/java/com/radixiot/grpcweb/FrameDecoder.java:58-76 | a declared length above the limit is RESOURCE_EXHAUSTED after the five header bytes, before any payload is read |
| FrameDecoding.TruncatedFrameRejected | grpc-web-proxy/src/main/java/com/radixiot/grpcweb/FrameDecoder.java:58-67 | fewer than four length bytes, or fewer payload bytes than declared, is an IllegalStateException |
| FrameDecoding.SuccessConsumesWholeFrame | grpc-web-proxy/src/main/java/com/radixiot/grpcweb/FrameDecoder.java:42-68 | a frame that reads as a message had no flags, a length within the limit and at least that many payload bytes |
| ResponseWriting.FlagByte | grpc-web-proxy/src/main/java/com/radixiot/grpcweb/DefaultResponseWriter.java:103 | the frame's first byte is the flag encoding, and it decodes back to the flags |
| ResponseWriting.FrameBytes | grpc-web-proxy/src/main/java/com/radixiot/grpcweb/DefaultResponseWriter.java:103-106 | a frame is 5 + n bytes: the flag byte decoding to the flags, the length n as four bytes (modulo 2^32), then the payload |
| ResponseWriting.EncodeFlushed | grpc-web-proxy/src/main/java/com/radixiot/grpcweb/DefaultResponseWriter.java:100-107 | as written: the flushed but unclosed base64 wrapper emits text that decodes to only the whole three-byte groups of the frame |
| ResponseWriting.FrameEvents | grpc-web-proxy/src/main/java/com/radixiot/grpcweb/DefaultResponseWriter.java:98-108 | `writeFrame` only writes to the body and flushes it: every event is a body write or a body flush, and the last is the flush |
| ResponseWriting.HeaderEvents | grpc-web-proxy/src/main/java/com/radixiot/grpcweb/DefaultResponseWriter.java:57-70 | `writeHeaders`: status 200 first, `flushBuffer` last, 4 + n calls for the n converted headers, and nothing written to, flushed on or closed in the body |
| ResponseWriting.AddHeaders | grpc-web-proxy/src/main/java/com/radixiot/grpcweb/DefaultResponseWriter.java:65-66 | one `addHeader` per header, in order, with its name and value |
| ResponseWriting.TrailerText | grpc-web-proxy/src/main/java/com/radixiot/grpcweb/DefaultResponseWriter.java:77-84 | the trailer frame text ends with the status lines, after the metadata lines, and ends a line with CRLF |
| ResponseWriting.BuildTrailerText | grpc-web-proxy/src/main/java/com/radixiot/grpcweb/DefaultResponseWriter.java:77-84 | the StringBuilder loop builds the trailer text: the metadata lines, then grpc-status, then grpc-message when there is a description |
| ResponseWriting.DefaultResponseWriter.constructor | grpc-web-proxy/src/main/java/com/radixiot/grpcweb/DefaultResponseWriter.java:50-54 | a writer that has sent no headers and has not closed the response |
| ResponseWriting.DefaultResponseWriter.WriteHeaders | grpc-web-proxy/src/main/java/com/radixiot/grpcweb/DefaultResponseWriter.java:57-70 | after trailers or headers were written it fails with IllegalStateException and changes nothing; otherwise it records status 200, the content type, the converted headers and a flush, and marks headers written |
| ResponseWriting.DefaultResponseWriter.EmitHeaders | grpc-web-proxy/src/main/java/com/radixiot/grpcweb/DefaultResponseWriter.java:61-68 | appends status 200, the content type, one event per header and a flush to the response |
| ResponseWriting.DefaultResponseWriter.AddAll | grpc-web-proxy/src/main/java/com/radixiot/grpcweb/DefaultResponseWriter.java:65-66 | appends one `addHeader` event per header, in order |
| ResponseWriting.DefaultResponseWriter.WriteEmptyHeaders | grpc-web-proxy/src/main/java/com/radixiot/grpcweb/ResponseWriter.java:29-31 | `writeHeaders()` behaves as `writeHeaders` with empty metadata, errors included |
| ResponseWriting.DefaultResponseWriter.WriteFrame | grpc-web-proxy/src/main/java/com/radixiot/grpcweb/DefaultResponseWriter.java:98-108 | appends the frame, then a flush. The binary types get flag byte, length and payload as three writes. The text types get one write of the flushed base64 text, which holds only the frame's whole three-byte groups (see Findings) |
| ResponseWriting.DefaultResponseWriter.WriteTrailers | grpc-web-proxy/src/main/java/com/radixiot/grpcweb/DefaultResponseWriter.java:73-91 | after trailers were written it fails with IllegalStateException and changes nothing. Otherwise it sends the headers if still pending, then one trailers frame holding the ASCII trailer text, then the close, and sets both flags. The frame is written as `WriteFrame` writes it, so in the text types its last `|frame| % 3` bytes are lost |
| ResponseWriting.DefaultResponseWriter.WriteStatusTrailers | grpc-web-proxy/src/main/java/com/radixiot/grpcweb/ResponseWriter.java:35-37 | `writeTrailers(status)` behaves as `writeTrailers` with empty metadata |
| ResponseWriting.MessageResponseWriter.constructor | grpc-web-proxy/src/main/java/com/radixiot/grpcweb/MessageResponseWriter.java:32-35 | wraps a writer and the marshaller |
| ResponseWriting.MessageResponseWriter.WriteMessage | grpc-web-proxy/src/main/java/com/radixiot/grpcweb/MessageResponseWriter.java:37-44 | the serialized message is written as one frame with no flags, exactly as `WriteFrame` writes it (truncated in the text types) |
| ResponseWriting.MessageResponseWriter.WriteHeaders | grpc-web-proxy/src/main/java/com/radixiot/grpcweb/MessageResponseWriter.java:47-49 | delegates: the wrapped writer's errors and events |
| ResponseWriting.MessageResponseWriter.WriteTrailers | grpc-web-proxy/src/main/java/com/radixiot/grpcweb/MessageResponseWriter.java:52-54 | delegates: the wrapped writer's errors and events |
| ResponseWriting.MessageResponseWriter.WriteFrame | grpc-web-proxy/src/main/java/com/radixiot/grpcweb/MessageResponseWriter.java:58-60 | delegates: the wrapped writer's frame events |
| ResponseWriting.EmptyTrailerText | grpc-web-proxy/src/main/java/com/radixiot/grpcweb/DefaultResponseWriter.java:77-80 | with no metadata and no description, the trailer text is the grpc-status line alone |
| ResponseWriting.FrameEventsOnlyBody | grpc-web-proxy/src/main/java/com/radixiot/grpcweb/DefaultResponseWriter.java:98-108 | writing a frame only appends body bytes and flushes; no header or status is touched |
| ResponseWriting.FrameBody | grpc-web-proxy/src/main/java/com/radixiot/grpcweb/DefaultResponseWriter.java:100-107 | in the binary content types the body gains exactly the frame bytes. In the text types it gains the ASCII of the flushed base64 text, which decodes to only the frame's first `|frame| / 3 * 3` bytes |
| ResponseWriting.WrittenFrameReadsBack | grpc-web-proxy/src/main/java/com/radixiot/grpcweb/DefaultResponseWriter.java:103-106 | the frame bytes with no flags and a payload within the limit are read by the frame decoder as the parsed payload, consuming exactly 5 + n bytes whatever follows. This is what a binary-type body carries |
| ResponseWriting.TrailerFrameNotAMessage | grpc-web-proxy/src/main/java/com/radixiot/grpcweb/DefaultResponseWriter.java:86-87 | a trailers frame fed to the frame decoder is refused as UNIMPLEMENTED "No message received", never parsed as a message |
| ResponseWriting.StatusLinesReadBack | grpc-web-proxy/src/main/java/com/radixiot/grpcweb/DefaultResponseWriter.java:80-84 | the grpc-status digits read back as the status code, and the grpc-message text percent-decodes back to the UTF-8 bytes of the description |
| ResponseWriting.MissingIdTrailer | grpc-web-proxy/src/main/java/com/radixiot/grpcweb/DefaultResponseWriter.java:80-84 | a NOT_FOUND status "missing id" without metadata gives `grpc-status: 5`, CRLF, `grpc-message: missing%20id`, CRLF |
| ResponseWriting.DescribedTrailer | grpc-web-proxy/src/main/java/com/radixiot/grpcweb/DefaultResponseWriter.java:80-84 | without metadata, a described status gives exactly the grpc-status line then the grpc-message line with the percent-encoded description, each ending in CRLF |
| ResponseWriting.TrailerLinesAppend | grpc-web-proxy/src/main/java/com/radixiot/grpcweb/DefaultResponseWriter.java:77-79 | trailer lines of concatenated metadata are the concatenated lines, so order is kept |
| ResponseWriting.FlushedFrameLosesTail | grpc-web-proxy/src/main/java/com/radixiot/grpcweb/DefaultResponseWriter.java:100-107 | as written: a frame whose length is not a multiple of three does not decode back to itself |
| ResponseWriting.EmptyMessageFrameTruncated | grpc-web-proxy/src/main/java/com/radixiot/grpcweb/DefaultResponseWriter.java:100-107 | as written: the five-byte frame of an empty message decodes back to only its first three bytes |
| ResponseWriting.PaddedFrameReadsBack | grpc-web-proxy/src/main/java/com/radixiot/grpcweb/DefaultResponseWriter.java:100-107 | corrected: the padded base64 of a frame decodes back to the frame, which the frame decoder reads whole |
| TextEncoding.ReplacePlus | grpc-web-proxy/src/main/java/com/radixiot/grpcweb/DefaultResponseWriter.java:94 | `replace("+", "%20")`: no `+` is left and every other character of the input remains |
| TextEncoding.PercentEncode | grpc-web-proxy/src/main/java/com/radixiot/grpcweb/DefaultResponseWriter.java:93-95 | the percent-encoded description is printable ASCII with no space and no `+` |
| TextEncoding.PercentDecodeEncode | grpc-web-proxy/src/main/java/com/radixiot/grpcweb/DefaultResponseWriter.java:93-95 | percent-decoding an encoded description gives back its UTF-8 bytes |
| TextEncoding.PercentEncodeAppend | grpc-web-proxy/src/main/java/com/radixiot/grpcweb/DefaultResponseWriter.java:93-95 | encoding is character by character: encoding a concatenation concatenates the encodings |
| TextEncoding.UnreservedUnchanged | grpc-web-proxy/src/main/java/com/radixiot/grpcweb/DefaultResponseWriter.java:94 | letters, digits and `.-*_` pass through unchanged |
| TextEncoding.SpaceAndPlus | grpc-web-proxy/src/main/java/com/radixiot/grpcweb/DefaultResponseWriter.java:94 | a space becomes `%20` and a `+` becomes `%2B` |
| TextEncoding.JoinedBySpace | grpc-web-proxy/src/main/java/com/radixiot/grpcweb/DefaultResponseWriter.java:94 | two words joined by a space are encoded as the two encodings joined by `%20` |
| TextEncoding.MissingIdExample | grpc-web-proxy/src/main/java/com/radixiot/grpcweb/DefaultResponseWriter.java:93-95 | "missing id" encodes to "missing%20id" |
| TextEncoding.AsciiBytes | grpc-web-proxy/src/main/java/com/radixiot/grpcweb/DefaultResponseWriter.java:86 | `getBytes(US_ASCII)` gives one byte per character: its code below 0x80, `?` otherwise |
| TextEncoding.AsciiIsUtf8 | grpc-web-proxy/src/main/java/com/radixiot/grpcweb/DefaultResponseWriter.java:86 | for ASCII text the US-ASCII bytes are the UTF-8 bytes |
| Base64.Encode | grpc-web-proxy/src/main/java/com/radixiot/grpcweb/DefaultHeaderConverter.java:45-50 | the unpadded encoder emits (4n + 2) / 3 characters, all from the base64 alphabet |
| Base64.Decode | grpc-web-proxy/src/main/java/com/radixiot/grpcweb/DefaultHeaderConverter.java:35 | a decode failure is an IllegalArgumentException |
| Base64.DecodeEncode | grpc-web-proxy/src/main/java/com/radixiot/grpcweb/DefaultHeaderConverter.java:29-58 | decoding the encoder's output gives the original bytes |
| Base64.PaddingOptional | grpc-web-proxy/src/main/java/com/radixiot/grpcweb/DefaultHeaderConverter.java:35 | the decoder reads unpadded text and the same text with its `=` padding alike |
| Base64.EncodeHasNoPadding | grpc-web-proxy/src/main/java/com/radixiot/grpcweb/DefaultHeaderConverter.java:45-50 | the encoder used for `-bin` values never emits `=` |
| Base64.EncodePadded | grpc-web-proxy/src/main/java/com/radixiot/grpcweb/DefaultResponseWriter.java:100-107 | corrected frame encoding: its text is a multiple of four characters and decodes back to exactly the bytes |
| Base64.PaddedRoundTrip | grpc-web-proxy/src/main/java/com/radixiot/grpcweb/DefaultResponseWriter.java:100-107 | the encoding with its padding added is a multiple of four characters and decodes back to the bytes |
| HeaderConverter.ParseTimeout | grpc-web-proxy/src/main/java/com/radixiot/grpcweb/HeaderConverter.java:84-102 | succeeds exactly when the value matches 1 to 8 digits and one of `HMSmun`; otherwise an IllegalArgumentException |
| HeaderConverter.TimeoutValueFitsInt | grpc-web-proxy/src/main/java/com/radixiot/grpcweb/HeaderConverter.java:90 | at most eight digits always fit an `int` |
| HeaderConverter.ParseTimeoutValue | grpc-web-proxy/src/main/java/com/radixiot/grpcweb/HeaderConverter.java:90-101 | the parsed duration in nanoseconds is the digits' value times the unit: H hours, M and m minutes, S seconds, u microseconds, n nanoseconds |
| HeaderConverter.TimeoutExamples | grpc-web-proxy/src/main/java/com/radixiot/grpcweb/HeaderConverter.java:91-101 | 10S is ten seconds, and 3m and 3M are both three minutes |
| HeaderConverter.TimeoutRejections | grpc-web-proxy/src/main/java/com/radixiot/grpcweb/HeaderConverter.java:84-88 | nine digits, an unknown unit, a missing number and trailing text are all refused |
| HeaderConverter.ToStream | grpc-web-proxy/src/main/java/com/radixiot/grpcweb/HeaderConverter.java:63-65 | a missing enumeration gives no elements; otherwise its elements in order |
| HeaderConverter.HeadersFor | grpc-web-proxy/src/main/java/com/radixiot/grpcweb/HeaderConverter.java:75-76 | the stream of a request's headers: each name's values under that name |
| HeaderConverter.KeptHeaders | grpc-web-proxy/src/main/java/com/radixiot/grpcweb/HeaderConverter.java:71-78 | every converted header has one of the request's names, and no name in the HTTP strip list, compared in lower case |
| HeaderConverter.KeptHeadersNamed | grpc-web-proxy/src/main/java/com/radixiot/grpcweb/HeaderConverter.java:71-78 | a name not in the strip list keeps all its values, in order |
| HeaderConverter.NoHeaderNames | grpc-web-proxy/src/main/java/com/radixiot/grpcweb/HeaderConverter.java:63-65 | a request without header names has no header entries |
| DefaultHeaderConverter.ConvertHeader | grpc-web-proxy/src/main/java/com/radixiot/grpcweb/DefaultHeaderConverter.java:32-38 | a failure is an IllegalArgumentException. A success has the lower-cased name as key. Under a `-bin` name the value is the base64-decoded bytes; under any other name it is what the ASCII marshaller stores of the value |
| DefaultHeaderConverter.ConvertHeaderFails | grpc-web-proxy/src/main/java/com/radixiot/grpcweb/DefaultHeaderConverter.java:34-37 | a header is refused exactly when `Metadata.Key.of` rejects its name or its binary value is not base64. Rejected names: not a valid key name once lower-cased, or lower-casing to a `-bin` name that does not end in `-bin` as given or is only the suffix |
| DefaultHeaderConverter.ConvertedEntryValid | grpc-web-proxy/src/main/java/com/radixiot/grpcweb/DefaultHeaderConverter.java:34-37 | every converted entry is one `Metadata` accepts: a valid key name, binary exactly under a `-bin` key longer than the suffix, ASCII-only text |
| DefaultHeaderConverter.HeadersToMetadata | grpc-web-proxy/src/main/java/com/radixiot/grpcweb/DefaultHeaderConverter.java:29-41 | a failure is an IllegalArgumentException; a success has one entry per header |
| DefaultHeaderConverter.HeadersToMetadataPointwise | grpc-web-proxy/src/main/java/com/radixiot/grpcweb/DefaultHeaderConverter.java:31-39 | conversion succeeds exactly when every header converts, and then entry i is the conversion of header i |
| DefaultHeaderConverter.HeadersToMetadataWellFormed | grpc-web-proxy/src/main/java/com/radixiot/grpcweb/DefaultHeaderConverter.java:34-38 | every converted entry is valid: a valid lower-case key name, binary values exactly under `-bin` keys longer than the suffix, and ASCII-only text values |
| DefaultHeaderConverter.ToMetadata | grpc-web-proxy/src/main/java/com/radixiot/grpcweb/DefaultHeaderConverter.java:29-41 | the `forEach` loop gives what the conversion function gives, and its result is well-formed |
| DefaultHeaderConverter.RequestToMetadata | grpc-web-proxy/src/main/java/com/radixiot/grpcweb/HeaderConverter.java:71-78 | the metadata of a request converts its kept headers, one entry each, well-formed, with no stripped key |
| DefaultHeaderConverter.RenderAll | grpc-web-proxy/src/main/java/com/radixiot/grpcweb/DefaultHeaderConverter.java:46-56 | one header per value, in order: binary values base64-encoded, ASCII values as they are |
| DefaultHeaderConverter.ToHeaders | grpc-web-proxy/src/main/java/com/radixiot/grpcweb/DefaultHeaderConverter.java:44-58 | every header `toHeaders` produces is named by a key that has a stored value |
| DefaultHeaderConverter.ToHeadersEmpty | grpc-web-proxy/src/main/java/com/radixiot/grpcweb/DefaultHeaderConverter.java:44-58 | metadata yields no header exactly when it has no entry |
| DefaultHeaderConverter.ToHeadersNamed | grpc-web-proxy/src/main/java/com/radixiot/grpcweb/DefaultHeaderConverter.java:44-58 | the headers named k are the rendered values of key k, in order |
| DefaultHeaderConverter.RenderAllRoundTrip | grpc-web-proxy/src/main/java/com/radixiot/grpcweb/DefaultHeaderConverter.java:29-58 | the rendered values of a key convert back to exactly those entries, for values that form valid entries with the key |
| DefaultHeaderConverter.ToHeadersRoundTrip | grpc-web-proxy/src/main/java/com/radixiot/grpcweb/DefaultHeaderConverter.java:29-58 | converting the headers of well-formed metadata back gives that metadata grouped by key, with every key's values in order |
| MetadataModel.Keys | grpc-web-proxy/src/main/java/com/radixiot/grpcweb/DefaultHeaderConverter.java:46 | `keys()` lists each key once, and exactly the keys that have values |
| MetadataModel.ValuesOfRegroup | grpc-web-proxy/src/main/java/com/radixiot/grpcweb/DefaultHeaderConverter.java:46-56 | grouping entries by a list of distinct keys keeps every listed key's values in order and drops the others |
| MetadataModel.RegroupKeepsValues | grpc-web-proxy/src/main/java/com/radixiot/grpcweb/DefaultHeaderConverter.java:46-56 | the grouped entries have the same values under every key |
| MetadataModel.WellFormedValues | grpc-web-proxy/src/main/java/com/radixiot/grpcweb/DefaultHeaderConverter.java:34-38 | in well-formed metadata every value a key holds forms a valid entry with it: a valid key name, binary exactly under `-bin`, ASCII-only text |
| MetadataModel.AsciiStoredMasks | grpc-web-proxy/src/main/java/com/radixiot/grpcweb/DefaultHeaderConverter.java:37 | the stored value is all ASCII: each ASCII character is kept and each other one becomes `?`, so ASCII text is stored unchanged |
| MetadataModel.ValidKeyIsLower | grpc-web-proxy/src/main/java/com/radixiot/grpcweb/DefaultHeaderConverter.java:34-37 | a name that passes the key check is already lower case |
| ContentTypes.Lookup | grpc-web-proxy/src/main/java/com/radixiot/grpcweb/DefaultContentTypeLookup.java:40-46 | succeeds exactly for the four gRPC-Web content types, giving that type, base64 exactly for the two `-text` types; any other or a missing type is a NoSuchElementException |
| ContentTypes.IsGrpcWebRequest | grpc-web-proxy/src/main/java/com/radixiot/grpcweb/ContentTypeLookup.java:41-49 | true exactly when the lookup succeeds, false when it throws NoSuchElementException; any other exception propagates |
| ContentTypes.DefaultIsGrpcWebRequest | grpc-web-proxy/src/main/java/com/radixiot/grpcweb/DefaultContentTypeLookup.java:32-37 | with the default table, exactly the four gRPC-Web content types are accepted |
| ContentTypes.NoContentTypeIsNotGrpcWeb | grpc-web-proxy/src/main/java/com/radixiot/grpcweb/ContentTypeLookup.java:42-46 | a request without a content type is not gRPC-Web |
| ContentTypes.SuffixedContentTypeRefused | grpc-web-proxy/src/main/java/com/radixiot/grpcweb/DefaultContentTypeLookup.java:40-46 | content types match exactly; a parameter such as `;charset` is refused |
| ServiceLocation.IndexOf | grpc-web-proxy/src/main/java/com/radixiot/grpcweb/ServiceLocator.java:47 | `indexOf`: the position of the first occurrence, or -1 when there is none |
| ServiceLocation.FirstNamed | grpc-web-proxy/src/main/java/com/radixiot/grpcweb/ServiceLocator.java:50-53 | the first method whose full name matches, or none |
| ServiceLocation.LocateMethod | grpc-web-proxy/src/main/java/com/radixiot/grpcweb/ServiceLocator.java:46-54 | a name without `/` is out of bounds; otherwise the service named before the first `/` is searched, and a found method has the requested full name |
| ServiceLocation.OnlyPrefixServiceSearched | grpc-web-proxy/src/main/java/com/radixiot/grpcweb/ServiceLocator.java:47-52 | only the service named before the first slash matters, and a found method is one of its methods |
| ServiceLocation.ServiceNameIsPrefix | grpc-web-proxy/src/main/java/com/radixiot/grpcweb/ServiceLocator.java:47 | for `service/method` with no slash in the service name, the text before the first slash is the service name |
| Filtering.NewFilter | grpc-web-proxy/src/main/java/com/radixiot/grpcweb/GrpcWebFilter.java:44-53 | a destination is accepted exactly when it starts with `/` and does not end with `/` |
| Filtering.DefaultFilter | grpc-web-proxy/src/main/java/com/radixiot/grpcweb/GrpcWebFilter.java:31-42 | the default filter forwards to `/grpc-web` with the default lookup |
| Filtering.DoFilter | grpc-web-proxy/src/main/java/com/radixiot/grpcweb/GrpcWebFilter.java:56-68 | a URI under the destination passes down the chain; otherwise a gRPC-Web request is forwarded to the destination plus the URI, and a lookup exception other than NoSuchElementException propagates |
| Filtering.DestinationRejections | grpc-web-proxy/src/main/java/com/radixiot/grpcweb/GrpcWebFilter.java:45-50 | `/` (it ends with a slash) and `grpc-web` (it does not start with one) are refused |
| Filtering.DefaultForwarding | grpc-web-proxy/src/main/java/com/radixiot/grpcweb/GrpcWebFilter.java:63-67 | with the default lookup the filter never fails; it forwards exactly the gRPC-Web requests not already under the destination, to the destination plus the URI |
| Filtering.NoDoubleForward | grpc-web-proxy/src/main/java/com/radixiot/grpcweb/GrpcWebFilter.java:63-64 | a forwarded request, arriving at its new URI, passes down the chain |
| HandlerBuilding.OrDefault | grpc-web-proxy/src/main/java/com/radixiot/grpcweb/RequestHandlerBuilder.java:58-62 | an unset setting takes its default; a set one is kept |
| HandlerBuilding.RequestHandlerBuilder.constructor | grpc-web-proxy/src/main/java/com/radixiot/grpcweb/RequestHandlerBuilder.java:28-29 | a builder with nothing set |
| HandlerBuilding.RequestHandlerBuilder.SetServiceLocator | grpc-web-proxy/src/main/java/com/radixiot/grpcweb/RequestHandlerBuilder.java:36-39 | sets the locator only and returns the same builder |
| HandlerBuilding.RequestHandlerBuilder.SetContentTypeLookup | grpc-web-proxy/src/main/java/com/radixiot/grpcweb/RequestHandlerBuilder.java:41-44 | sets the lookup only and returns the same builder |
| HandlerBuilding.RequestHandlerBuilder.SetMaxFrameSize | grpc-web-proxy/src/main/java/com/radixiot/grpcweb/RequestHandlerBuilder.java:46-49 | sets the frame limit only and returns the same builder |
| HandlerBuilding.RequestHandlerBuilder.Build | grpc-web-proxy/src/main/java/com/radixiot/grpcweb/RequestHandlerBuilder.java:56-64 | a fresh handler with each setting that was set, and the default for each that was not |
| HandlerBuilding.DefaultsAndOverrides | grpc-web-proxy/src/main/java/com/radixiot/grpcweb/RequestHandlerBuilder.java:56-64 | a fresh builder builds a 204800-byte frame limit, the default lookup and the given locator; a set frame limit reaches the handler while the lookup stays the default |
| RequestHandling.FullMethodName | grpc-web-proxy/src/main/java/com/radixiot/grpcweb/RequestHandler.java:74-76 | the path without its first character; a missing path is a NullPointerException and an empty one is out of bounds |
| RequestHandling.GetMethodDescriptor | grpc-web-proxy/src/main/java/com/radixiot/grpcweb/RequestHandler.java:90-99 | a located method is returned; NoSuchElementException becomes UNIMPLEMENTED with no description; other exceptions pass through |
| RequestHandling.AddTimeout | grpc-web-proxy/src/main/java/com/radixiot/grpcweb/RequestHandler.java:144-154 | succeeds exactly when the timeout parses, adding a deadline interceptor of the parsed nanoseconds; otherwise UNIMPLEMENTED "Unknown timeout value" |
| RequestHandling.AttachHeadersIfAny | grpc-web-proxy/src/main/java/com/radixiot/grpcweb/RequestHandler.java:121-124 | a header-attaching interceptor is added exactly when the metadata is non-empty |
| RequestHandling.ReadUnaryRequest | grpc-web-proxy/src/main/java/com/radixiot/grpcweb/RequestHandler.java:127-136 | succeeds exactly when the body begins with a message frame; read errors pass through; no frame, or bytes after the frame, is UNIMPLEMENTED "Only unary requests are supported" |
| RequestHandling.NewCall | grpc-web-proxy/src/main/java/com/radixiot/grpcweb/RequestHandler.java:152-153 | a call fails with ArithmeticException exactly when some deadline's nanoseconds exceed `Long.MAX_VALUE` |
| RequestHandling.Dispatch | grpc-web-proxy/src/main/java/com/radixiot/grpcweb/RequestHandler.java:156-164 | unary and server-streaming methods are called through the channel; any other method type is an IllegalArgumentException |
| RequestHandling.Catch | grpc-web-proxy/src/main/java/com/radixiot/grpcweb/RequestHandler.java:79-87 | an IOException is rethrown; a status exception becomes its status and trailers; anything else becomes UNKNOWN |
| RequestHandling.RequestHandler.constructor | grpc-web-proxy/src/main/java/com/radixiot/grpcweb/RequestHandler.java:58-68 | a handler holding the locator, the lookup, the parsers and the frame limit |
| RequestHandling.HandleSpec | grpc-web-proxy/src/main/java/com/radixiot/grpcweb/RequestHandler.java:70-88 | `handle`: a failed content-type lookup is rethrown uncaught; the call goes ahead exactly when the lookup and the `try` block succeed; only the lookup failure or an IOException is rethrown |
| RequestHandling.AttemptSpec | grpc-web-proxy/src/main/java/com/radixiot/grpcweb/RequestHandler.java:73-78 | the `try` block: a bad path fails with its own error, and a call that goes ahead is for the method the locator finds under the path |
| RequestHandling.HandleMethodSpec | grpc-web-proxy/src/main/java/com/radixiot/grpcweb/RequestHandler.java:101-142 | `handleMethod`: an encoding other than identity is UNIMPLEMENTED "Unsupported encoding"; a call that goes ahead is for the given method, with a known content type and a readable body |
| RequestHandling.RequestHandler.Handle | grpc-web-proxy/src/main/java/com/radixiot/grpcweb/RequestHandler.java:70-88 | the response events are `HandleEvents` and the outcome is `HandleSpec` |
| RequestHandling.RequestHandler.WriteTrailersOnly | grpc-web-proxy/src/main/java/com/radixiot/grpcweb/RequestHandler.java:81-83 | a caught status is written as headers, then one trailers frame (truncated in the text types, as `WriteFrame` writes it), and the response is closed |
| RequestHandling.RequestHandler.WriteStatusOnly | grpc-web-proxy/src/main/java/com/radixiot/grpcweb/RequestHandler.java:84-86 | a caught non-status exception is written as UNKNOWN trailers |
| RequestHandling.StatusOnlyEvents | grpc-web-proxy/src/main/java/com/radixiot/grpcweb/ResponseWriter.java:35-37 | with empty metadata, the trailers-only events are the empty headers, one trailers frame of just the status lines, and the close |
| RequestHandling.RequestHandler.Attempt | grpc-web-proxy/src/main/java/com/radixiot/grpcweb/RequestHandler.java:73-78 | the try block: path, method lookup, then handleMethod, with the result of `AttemptSpec` |
| RequestHandling.RequestHandler.HandleMethod | grpc-web-proxy/src/main/java/com/radixiot/grpcweb/RequestHandler.java:101-142 | the encoding, timeout, header and body checks in source order, reading frames through the decoder, with the result of `HandleMethodSpec` |
| RequestHandling.RequestHandler.CallMethod | grpc-web-proxy/src/main/java/com/radixiot/grpcweb/RequestHandler.java:156-164 | the call is made only for unary and server-streaming methods |
| RequestHandling.OneFrameRead | grpc-web-proxy/src/main/java/com/radixiot/grpcweb/RequestHandler.java:127-136 | a body of exactly one unflagged frame within the limit yields the parse of its payload |
| RequestHandling.TrailingBytesRefused | grpc-web-proxy/src/main/java/com/radixiot/grpcweb/RequestHandler.java:131-136 | anything after the first frame, even a partial frame, is UNIMPLEMENTED |
| RequestHandling.EmptyBodyRefused | grpc-web-proxy/src/main/java/com/radixiot/grpcweb/RequestHandler.java:131-136 | an empty body is UNIMPLEMENTED "Only unary requests are supported" |
| RequestHandling.PendingOnlyAfterChecks | grpc-web-proxy/src/main/java/com/radixiot/grpcweb/RequestHandler.java:101-141 | a call is issued only after every check passes: the content type is known, the method is located and of a callable type, the encoding is identity, the timeout parses and fits, the headers convert, and the body is exactly one frame |
| RequestHandling.HandleMethodChecks | grpc-web-proxy/src/main/java/com/radixiot/grpcweb/RequestHandler.java:101-141 | `handleMethod` calls the method it was given only past its own checks: the identity encoding, a parseable timeout that fits a `long` and becomes the first interceptor (the response bridge otherwise), convertible headers, a body of exactly one readable frame, and a unary or server-streaming type |
| RequestHandling.UnaryRequestCalled | grpc-web-proxy/src/main/java/com/radixiot/grpcweb/RequestHandler.java:70-141 | a well-formed unary request is called with its parsed message, through the response bridge and its headers |
| RequestHandling.UnaryMethodCalled | grpc-web-proxy/src/main/java/com/radixiot/grpcweb/RequestHandler.java:101-141 | `handleMethod` issues the call for such a request |
| RequestHandling.UnknownMethodUnimplemented | grpc-web-proxy/src/main/java/com/radixiot/grpcweb/RequestHandler.java:90-98 | a path naming no method is answered UNIMPLEMENTED with no description and no trailer metadata |
| RequestHandling.UnknownContentTypeRethrown | grpc-web-proxy/src/main/java/com/radixiot/grpcweb/RequestHandler.java:71-72 | a content-type lookup failure escapes `handle`, and nothing is written |
| RequestHandling.TrailersOnlyBody | grpc-web-proxy/src/main/java/com/radixiot/grpcweb/RequestHandler.java:81-86 | after an error the body is one trailers frame whose text is the trailer text of the status. The binary types carry the frame's bytes exactly; the text types carry flushed base64 that decodes to only its first `|frame| / 3 * 3` bytes |
| RequestHandling.KeysEmpty | grpc-web-proxy/src/main/java/com/radixiot/grpcweb/RequestHandler.java:122 | metadata has no keys exactly when it is empty |
| ConformanceEntry.ParseInt | grpc-web-conformance/src/main/java/com/radixiot/grpcweb/conformance/ConformanceMain.java:42 | succeeds exactly on an optional `-` or `+` followed by at least one ASCII digit whose signed value fits an `int`, giving that value. The empty string, a lone sign, any other character or an out-of-range value is a NumberFormatException |
| ConformanceEntry.MainArguments | grpc-web-conformance/src/main/java/com/radixiot/grpcweb/conformance/ConformanceMain.java:37-50 | with fewer than two arguments the host is unset and the port 0; otherwise the host and parsed port |
| ConformanceEntry.ReadRequestSpec | grpc-web-conformance/src/main/java/com/radixiot/grpcweb/conformance/ConformanceMain.java:91-104 | fewer than four bytes is an error; a size above `Integer.MAX_VALUE` is an ArithmeticException; otherwise that many bytes are parsed |
| ConformanceEntry.InitSpec | grpc-web-conformance/src/main/java/com/radixiot/grpcweb/conformance/ConformanceMain.java:68-89 | succeeds exactly when the request is read and asks for plain HTTP/1 gRPC-Web, otherwise IllegalStateException; the answer names the given host and port, or localhost and the bound port |
| ConformanceEntry.Framed | grpc-web-conformance/src/main/java/com/radixiot/grpcweb/conformance/ConformanceMain.java:106-112 | the response is four length bytes, then the message |
| ConformanceEntry.ConformanceMain.constructor | grpc-web-conformance/src/main/java/com/radixiot/grpcweb/conformance/ConformanceMain.java:57-66 | the runner with its host, port and streams |
| ConformanceEntry.ConformanceMain.ReadRequest | grpc-web-conformance/src/main/java/com/radixiot/grpcweb/conformance/ConformanceMain.java:91-104 | reads stdin as the request-reading specification describes |
| ConformanceEntry.ConformanceMain.WriteResponse | grpc-web-conformance/src/main/java/com/radixiot/grpcweb/conformance/ConformanceMain.java:106-112 | the framed message is appended to the output, followed by one flush |
| ConformanceEntry.ConformanceMain.Init | grpc-web-conformance/src/main/java/com/radixiot/grpcweb/conformance/ConformanceMain.java:68-89 | the result is the handshake specification's; on success the framed response is written, on failure nothing is |
| ConformanceEntry.FramedReadsBack | grpc-web-conformance/src/main/java/com/radixiot/grpcweb/conformance/ConformanceMain.java:91-112 | what `writeResponse` frames, `readRequest`'s framing reads back |
| ConformanceEntry.OversizedRequestRefused | grpc-web-conformance/src/main/java/com/radixiot/grpcweb/conformance/ConformanceMain.java:93-96 | a declared size above `Integer.MAX_VALUE` is refused, however many bytes follow |
| ConformanceEntry.ParseIntText | grpc-web-conformance/src/main/java/com/radixiot/grpcweb/conformance/ConformanceMain.java:42 | every `int` printed by `Integer.toString` parses back to itself, negatives and `Integer.MIN_VALUE` included |
| ConformanceEntry.HostAndPortArguments | grpc-web-conformance/src/main/java/com/radixiot/grpcweb/conformance/ConformanceMain.java:38-43 | a host and a printed port are passed on |
| ConformanceServing.ResponseObserver.constructor | grpc-web-conformance/src/main/java/com/radixiot/grpcweb/conformance/ConformanceService.java:56 | an observer with no events |
| ConformanceServing.ResponseObserver.OnNext | grpc-web-conformance/src/main/java/com/radixiot/grpcweb/conformance/ConformanceService.java:79 | records the message after the earlier events |
| ConformanceServing.ResponseObserver.OnError | grpc-web-conformance/src/main/java/com/radixiot/grpcweb/conformance/ConformanceService.java:71 | records the termination after the earlier events |
| ConformanceServing.ResponseObserver.OnCompleted | grpc-web-conformance/src/main/java/com/radixiot/grpcweb/conformance/ConformanceService.java:80 | records the completion after the earlier events |
| ConformanceServing.SleepForDelay | grpc-web-conformance/src/main/java/com/radixiot/grpcweb/conformance/ConformanceService.java:121-130 | fails with UNAVAILABLE exactly when there is a positive delay and the sleep is interrupted |
| ConformanceServing.GetErrorResponse | grpc-web-conformance/src/main/java/com/radixiot/grpcweb/conformance/ConformanceService.java:132-140 | the status carries the defined code and message, and request info as a detail exactly when given |
| ConformanceServing.GetPayload | grpc-web-conformance/src/main/java/com/radixiot/grpcweb/conformance/ConformanceService.java:142-151 | only the given request info and data are set |
| ConformanceServing.HeaderNames | grpc-web-conformance/src/main/java/com/radixiot/grpcweb/conformance/ConformanceService.java:184-194 | the distinct header names, exactly those occurring |
| ConformanceServing.ValuesIn | grpc-web-conformance/src/main/java/com/radixiot/grpcweb/conformance/ConformanceService.java:184-194 | the values of a list of headers, in order |
| ConformanceServing.ToHeadersList | grpc-web-conformance/src/main/java/com/radixiot/grpcweb/conformance/ConformanceService.java:184-194 | one group per distinct name, holding that name's values in order |
| ConformanceServing.ToMetadata | grpc-web-conformance/src/main/java/com/radixiot/grpcweb/conformance/ConformanceService.java:196-201 | succeeds exactly when every flattened header converts; a failure is IllegalArgumentException |
| ConformanceServing.LastValue | grpc-web-conformance/src/main/java/com/radixiot/grpcweb/conformance/ConformanceService.java:167-182 | `Metadata.get` gives the last value of the key, or none when it has none |
| ConformanceServing.GetRequestInfo | grpc-web-conformance/src/main/java/com/radixiot/grpcweb/conformance/ConformanceService.java:167-182 | fails exactly when a timeout header is present and does not parse |
| ConformanceServing.Delivered | grpc-web-conformance/src/main/java/com/radixiot/grpcweb/conformance/ConformanceService.java:96-108 | fewer messages than defined are sent exactly when a positive delay is interrupted before the end |
| ConformanceServing.StreamMessages | grpc-web-conformance/src/main/java/com/radixiot/grpcweb/conformance/ConformanceService.java:96-108 | the first n stream messages, one per defined data |
| ConformanceServing.UnarySpec | grpc-web-conformance/src/main/java/com/radixiot/grpcweb/conformance/ConformanceService.java:56-82 | `unary`: a bad `grpc-timeout` throws IllegalArgument with no effect; it throws only IllegalArgument or UNAVAILABLE on interruption; headers handed over are the converted defined headers |
| ConformanceServing.Unary | grpc-web-conformance/src/main/java/com/radixiot/grpcweb/conformance/ConformanceService.java:56-82 | the observer events, the result and the headers handed to `SET_HEADERS` are those of `UnarySpec` |
| ConformanceServing.SendMessages | grpc-web-conformance/src/main/java/com/radixiot/grpcweb/conformance/ConformanceService.java:96-108 | the loop sends the delivered prefix of messages, or stops interrupted |
| ConformanceServing.ServerStreamSpec | grpc-web-conformance/src/main/java/com/radixiot/grpcweb/conformance/ConformanceService.java:85-119 | `serverStream`: a bad `grpc-timeout` throws IllegalArgument with no effect; it throws only IllegalArgument or UNAVAILABLE on interruption; headers handed over are the converted defined headers |
| ConformanceServing.ServerStream | grpc-web-conformance/src/main/java/com/radixiot/grpcweb/conformance/ConformanceService.java:85-119 | the observer events, the result and the headers handed to `SET_HEADERS` are those of `ServerStreamSpec` |
| ConformanceServing.RunStream | grpc-web-conformance/src/main/java/com/radixiot/grpcweb/conformance/ConformanceService.java:96-115 | the loop, then the defined error or completion |
| ConformanceServing.Messages | grpc-web-conformance/src/main/java/com/radixiot/grpcweb/conformance/ConformanceService.java:56-119 | the message count is at most the number of events |
| ConformanceServing.UnaryShape | grpc-web-conformance/src/main/java/com/radixiot/grpcweb/conformance/ConformanceService.java:56-82 | `unary` sends at most one message; a call that returns ends exactly once, and one that throws has sent nothing |
| ConformanceServing.UnaryWithoutDefinition | grpc-web-conformance/src/main/java/com/radixiot/grpcweb/conformance/ConformanceService.java:77-81 | without a definition, one message holding the request info, then completion |
| ConformanceServing.UnaryDefinedError | grpc-web-conformance/src/main/java/com/radixiot/grpcweb/conformance/ConformanceService.java:69-71 | with a defined error, no message: only that error, with request info and trailers |
| ConformanceServing.UnaryDefinedData | grpc-web-conformance/src/main/java/com/radixiot/grpcweb/conformance/ConformanceService.java:72-76 | without a defined error, the defined data, then an OK status carrying the trailers |
| ConformanceServing.UnaryInterrupted | grpc-web-conformance/src/main/java/com/radixiot/grpcweb/conformance/ConformanceService.java:64-67 | an interrupted positive delay makes `unary` fail with UNAVAILABLE after the headers are handed over |
| ConformanceServing.StreamMessagesInOrder | grpc-web-conformance/src/main/java/com/radixiot/grpcweb/conformance/ConformanceService.java:96-108 | message k carries the k-th data, and only the first carries request info |
| ConformanceServing.StreamErrorDetails | grpc-web-conformance/src/main/java/com/radixiot/grpcweb/conformance/ConformanceService.java:110-115 | a stream's error carries request info exactly when no message was sent |
| ConformanceServing.StreamOkEvents | grpc-web-conformance/src/main/java/com/radixiot/grpcweb/conformance/ConformanceService.java:96-115 | a stream that does not fail sends every message, then its ending |
| ConformanceServing.MessagesOfEmitted | grpc-web-conformance/src/main/java/com/radixiot/grpcweb/conformance/ConformanceService.java:96-108 | every event of the loop is a message |
| ConformanceServing.StreamShape | grpc-web-conformance/src/main/java/com/radixiot/grpcweb/conformance/ConformanceService.java:85-119 | an uninterrupted stream sends every defined message and ends exactly once |
| ConformanceServing.StreamWithoutDefinition | grpc-web-conformance/src/main/java/com/radixiot/grpcweb/conformance/ConformanceService.java:116-118 | without a definition a stream only completes |
| ConformanceServing.FlattenNamed | grpc-web-conformance/src/main/java/com/radixiot/grpcweb/conformance/ConformanceService.java:196-201 | with distinct names, the flattened headers of a name are its group's values |
| ConformanceServing.RegroupKeepsOrder | grpc-web-conformance/src/main/java/com/radixiot/grpcweb/conformance/ConformanceService.java:184-201 | grouping then flattening keeps each name's values in order |
| HeaderSending.Sends | grpc-web-conformance/src/main/java/com/radixiot/grpcweb/conformance/HeaderSendingInterceptor.java:62-66 | the number of header sends, at most the number of events |
| HeaderSending.HeaderSendingServerCall.constructor | grpc-web-conformance/src/main/java/com/radixiot/grpcweb/conformance/HeaderSendingInterceptor.java:41-59 | a call with empty stored headers that has sent and forwarded nothing |
| HeaderSending.HeaderSendingServerCall.SetHeaders | grpc-web-conformance/src/main/java/com/radixiot/grpcweb/conformance/HeaderSendingInterceptor.java:45 | `SET_HEADERS` replaces the stored headers |
| HeaderSending.HeaderSendingServerCall.SendHeaders | grpc-web-conformance/src/main/java/com/radixiot/grpcweb/conformance/HeaderSendingInterceptor.java:62-66 | marks headers sent and forwards the response headers merged with the stored ones |
| HeaderSending.HeaderSendingServerCall.Close | grpc-web-conformance/src/main/java/com/radixiot/grpcweb/conformance/HeaderSendingInterceptor.java:69-74 | when no headers were sent, the stored headers are sent first, then the close; otherwise only the close |
| HeaderSending.SendsAppend | grpc-web-conformance/src/main/java/com/radixiot/grpcweb/conformance/HeaderSendingInterceptor.java:62-66 | appending an event adds one send exactly when it is a send |
| HeaderSending.AppendKeepsOrder | grpc-web-conformance/src/main/java/com/radixiot/grpcweb/conformance/HeaderSendingInterceptor.java:62-74 | appending a send, or a close after a send, keeps every close after a send |
| HeaderSending.SentIffCounted | grpc-web-conformance/src/main/java/com/radixiot/grpcweb/conformance/HeaderSendingInterceptor.java:62-72 | some send happened exactly when the send count is positive |
| HeaderSending.CloseOnly | grpc-web-conformance/src/main/java/com/radixiot/grpcweb/conformance/HeaderSendingInterceptor.java:69-74 | a call only closed still sends the stored headers, then closes |
| HeaderSending.SendThenClose | grpc-web-conformance/src/main/java/com/radixiot/grpcweb/conformance/HeaderSendingInterceptor.java:62-74 | headers sent by the service are merged with the last stored headers and not sent again by close: exactly one send, then the close |
| HeaderSending.OneSendThenClose | grpc-web-conformance/src/main/java/com/radixiot/grpcweb/conformance/HeaderSendingInterceptor.java:62-74 | a send then a close gives exactly one header send, before the close |
| Servlet.GetHeader | grpc-web-proxy/src/main/java/com/radixiot/grpcweb/RequestHandler.java:104 | `getHeader` gives the first value of a header, or none |

## Left out

- `GrpcWebServlet` and `GrpcWebClientInterceptor`: the asynchronous servlet plumbing and the client call bridge are not modelled. The model records the call that `handleMethod` issues, not the responses that stream back through the bridge.
- Channel managers and `CallOptions`: the in-process channel is represented by the list of interceptors a call is made through.
- `ClassServiceLocator`: it locates services by reflection. The service locator is a parameter (a function from service name to descriptor).
- `HeaderCapturingInterceptor` and `ConformanceServer` are not part of this model.
- Base64 request bodies: the `-text` request body's base64 decoding stream is not modelled. The model takes the decoded body bytes, or an IOException.
- Protobuf marshalling: parsing and serialization are opaque function parameters.
- `synchronized` methods: locking is not modelled. Each writer method is atomic in the model.
- Logging, `Thread.sleep` and `LockSupport.park`: sleeps are modelled by an `interrupted` parameter, or by the index at which an interruption happens. Logging and parking are left out.
- HandlerBuilding.RequestHandlerBuilder: `setChannelManager` and `setHeaderConverter` are not modelled. The header converter is always the default one, and the channel is not modelled.
- MetadataModel.Keys: grpc-java's `keys()` iterates a HashSet. The model uses first-insertion order, so the properties about key order hold per key and not for the order of the keys.
- TextEncoding.PercentEncode: `URLEncoder` is modelled over Unicode scalar values (`char`). Lone UTF-16 surrogates, which Java replaces with `?`, are not modelled.
- RequestHandling.NewCall: what the in-process channel does with the deadline is not modelled. Only the `toNanos` overflow of `Duration` is.
- ConformanceEntry.ConformanceMain.Init: starting the server is not modelled. The bound port is a parameter.
- Streams.ByteInput.ReadArray: a read always takes min(n, remaining) bytes. Java's `InputStream.read(byte[])` may return fewer even before the end of the stream. That short read is not modelled, so the model does not capture its failure.
- FrameDecoding.FrameDecoder.ReadDataFrame: inherits the full reads of `ReadArray`. A short read of the length or the payload, which the code reports as IllegalStateException "Couldn't read length bytes", happens in the model only at the end of the stream.
- ConformanceEntry.ConformanceMain.ReadRequest: inherits the full reads of `ReadArray`, as `ReadDataFrame` does.
- ResponseWriting.DefaultResponseWriter.WriteHeaders: `flushBuffer` cannot fail in the model. Its IOException, which leaves `headersWritten` false, is not modelled.
- ResponseWriting.DefaultResponseWriter.WriteFrame: writes and flushes on the output stream cannot fail in the model. Their IOException is not modelled.
- ResponseWriting.DefaultResponseWriter.WriteTrailers: writing the trailer frame and closing the output stream cannot fail in the model. The IOException, after which `trailersWritten` stays false, is not modelled.
- RequestHandling.RequestHandler.Handle: since the writers never fail with IOException, the catch clauses never see one from a writer. The second `writeTrailers` that the code would then attempt is not modelled.
- Streams.ByteOutput.Write: a write to standard output cannot fail in the model. Its IOException is not modelled.
- Streams.ByteOutput.Flush: a flush cannot fail in the model. Its IOException is not modelled.
- DefaultHeaderConverter.ConvertHeader: lower-casing is modelled over ASCII. `toLowerCase(Locale.ROOT)` also maps a few non-ASCII characters into ASCII; for example the Kelvin sign U+212A becomes `k`. A name holding one is rejected in the model, but Java accepts it.
- ConformanceEntry.ParseInt: only ASCII digits are modelled. `Integer.parseInt` also accepts other Unicode decimal digits through `Character.digit`, such as the Arabic-Indic ones. The model gives NumberFormatException for them.
- ConformanceServing.ToHeadersList: `Collectors.groupingBy` collects into a HashMap, whose iteration order is unspecified. The model lists the groups in order of first appearance. What it promises holds group by group, and not for the order of the groups.

## Findings

| source | as written | input that shows it | evidently intended | confidence | as-written member | corrected member |
|---|---|---|---|---|---|---|
| grpc-web-proxy/src/main/java/com/radixiot/grpcweb/DefaultResponseWriter.java:98-108 | in base64 mode each frame is written through a fresh `Base64.getEncoder().wrap(...)` stream that is flushed but never closed. The encoder emits only complete three-byte groups on flush, so the last (5 + n) % 3 bytes of each frame are lost | the frame of an empty message (5 bytes) comes out as 4 characters, which decode to 3 bytes | each frame encoded whole, with padding, before writing | not executed | ResponseWriting.EmptyMessageFrameTruncated | ResponseWriting.PaddedFrameReadsBack |
