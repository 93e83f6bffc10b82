/** Values shared by every part of the gateway model: Java's exceptions as data,
    gRPC status codes, metadata, HTTP headers and a few string helpers. */
module Common {

  datatype Option<+T> = None | Some(value: T)

  /** The gRPC status codes, numbered as in the gRPC status code enumeration. */
  datatype Code =
    | OK | CANCELLED | UNKNOWN | INVALID_ARGUMENT | DEADLINE_EXCEEDED | NOT_FOUND
    | ALREADY_EXISTS | PERMISSION_DENIED | RESOURCE_EXHAUSTED | FAILED_PRECONDITION
    | ABORTED | OUT_OF_RANGE | UNIMPLEMENTED | INTERNAL | UNAVAILABLE | DATA_LOSS
    | UNAUTHENTICATED
  {
    /** `Status.Code.value()` */
    function Value(): (v: nat)
      ensures v <= 16
    {
      match this
      case OK => 0
      case CANCELLED => 1
      case UNKNOWN => 2
      case INVALID_ARGUMENT => 3
      case DEADLINE_EXCEEDED => 4
      case NOT_FOUND => 5
      case ALREADY_EXISTS => 6
      case PERMISSION_DENIED => 7
      case RESOURCE_EXHAUSTED => 8
      case FAILED_PRECONDITION => 9
      case ABORTED => 10
      case OUT_OF_RANGE => 11
      case UNIMPLEMENTED => 12
      case INTERNAL => 13
      case UNAVAILABLE => 14
      case DATA_LOSS => 15
      case UNAUTHENTICATED => 16
    }
  }

  /** An `io.grpc.Status`: a code and an optional (nullable) description. */
  datatype Status = Status(code: Code, description: Option<string>)

  /** `Status.X` with no description, and `Status.X.withDescription(d)`. */
  function Plain(code: Code): Status { Status(code, None) }
  function Described(code: Code, d: string): Status { Status(code, Some(d)) }

  /** One metadata value: gRPC keeps ASCII and binary ("-bin") values apart. */
  datatype MetaValue = Ascii(text: string) | Binary(bytes: seq<byte>)

  /** `io.grpc.Metadata`: entries in insertion order; keys are lower case. */
  type Metadata = seq<(string, MetaValue)>

  /** An HTTP header line (`com.radixiot.grpcweb.Header`). */
  datatype Header = Header(name: string, value: string)

  /** The unsigned value of one octet of a byte stream. */
  newtype byte = b: int | 0 <= b < 256

  /** The Java exceptions the gateway throws or catches, as data. */
  datatype Exception =
    | StatusException(status: Status, trailers: Option<Metadata>)  // StatusRuntimeException
    | IllegalState(message: string)
    | IllegalArgument
    | NoSuchElement
    | IndexOutOfBounds         // StringIndexOutOfBoundsException
    | NullPointer
    | Arithmetic               // ArithmeticException from an exact conversion
    | NumberFormat
    | IOError                  // IOException

  /** A computation that returns a value or throws; `:-` propagates the
      exception, as an uncaught Java exception would. */
  datatype Result<+T> = Ok(value: T) | Err(error: Exception) {
    predicate IsFailure() { Err? }
    function PropagateFailure<U>(): Result<U> requires Err? { Err(error) }
    function Extract(): T requires Ok? { value }
  }

  /** `Status.X.withDescription(d).asRuntimeException()` */
  function StatusError(code: Code, d: string): Exception {
    StatusException(Described(code, d), None)
  }

  const INT_MIN: int := -0x8000_0000
  const INT_MAX: int := 0x7fff_ffff
  const LONG_MAX: int := 0x7fff_ffff_ffff_ffff

  /** A value that fits a Java `int`. */
  predicate IsJavaInt(x: int) { INT_MIN <= x <= INT_MAX }

  /** A Java `int` field or parameter. */
  type JavaInt = x: int | IsJavaInt(x)

  // ---------------------------------------------------------------- strings

  predicate StartsWith(s: string, prefix: string) {
    |prefix| <= |s| && s[..|prefix|] == prefix
  }

  predicate EndsWith(s: string, suffix: string) {
    |suffix| <= |s| && s[|s| - |suffix|..] == suffix
  }

  /** `Character.toLowerCase` restricted to ASCII letters (`Locale.ROOT`). */
  function LowerChar(c: char): char {
    if 'A' <= c <= 'Z' then (c as int + 32) as char else c
  }

  /** `String.toLowerCase(Locale.ROOT)` over ASCII. */
  function Lower(s: string): (r: string)
    ensures |r| == |s|
    ensures forall i :: 0 <= i < |s| ==> r[i] == LowerChar(s[i])
  {
    seq(|s|, i requires 0 <= i < |s| => LowerChar(s[i]))
  }

  predicate IsLower(s: string) { Lower(s) == s }

  predicate IsDigit(c: char) { '0' <= c <= '9' }

  /** The value of a non-empty run of ASCII decimal digits (`Integer.parseInt`). */
  function DigitsValue(s: string): (n: nat)
    requires forall i :: 0 <= i < |s| ==> IsDigit(s[i])
    decreases |s|
  {
    if s == [] then 0
    else
      assert IsDigit(s[|s| - 1]);
      DigitsValue(s[..|s| - 1]) * 10 + (s[|s| - 1] as int - '0' as int)
  }

  /** `String.valueOf(n)` for a non-negative int. */
  function Decimal(n: nat): (s: string)
    ensures |s| > 0
    ensures forall i :: 0 <= i < |s| ==> IsDigit(s[i])
    decreases n
  {
    if n < 10 then [('0' as int + n) as char]
    else Decimal(n / 10) + [('0' as int + n % 10) as char]
  }

  /** Reading a number back from its decimal text gives the number. */
  lemma {:induction false} DecimalRoundTrip(n: nat)
    ensures DigitsValue(Decimal(n)) == n
  {
    var s := Decimal(n);
    if n >= 10 {
      DecimalRoundTrip(n / 10);
      assert s[..|s| - 1] == Decimal(n / 10);
    }
  }
}
