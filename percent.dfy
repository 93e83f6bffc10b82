/** Text encodings used on the response path: UTF-8, the form encoding of
    `java.net.URLEncoder.encode(value, UTF_8)` followed by
    `replace("+", "%20")` (the `grpc-message` trailer), and the US-ASCII
    conversion of the trailer block. Strings are sequences of Unicode scalar
    values. */
module TextEncoding {
  import opened Common

  // ------------------------------------------------------------------ UTF-8

  /** The UTF-8 bytes of one scalar value. */
  function Utf8Char(c: char): (b: seq<byte>)
    ensures 1 <= |b| <= 4
    ensures |b| == 1 <==> c as int < 0x80
    ensures |b| == 1 ==> b[0] as int == c as int
  {
    var v := c as int;
    if v < 0x80 then [v as byte]
    else if v < 0x800 then [(0xC0 + v / 0x40) as byte, (0x80 + v % 0x40) as byte]
    else if v < 0x1_0000 then
      [(0xE0 + v / 0x1000) as byte, (0x80 + v / 0x40 % 0x40) as byte, (0x80 + v % 0x40) as byte]
    else
      [(0xF0 + v / 0x4_0000) as byte, (0x80 + v / 0x1000 % 0x40) as byte,
       (0x80 + v / 0x40 % 0x40) as byte, (0x80 + v % 0x40) as byte]
  }

  /** `s.getBytes(UTF_8)` */
  function Utf8(s: string): (b: seq<byte>)
    ensures |b| >= |s|
  {
    if s == [] then [] else Utf8Char(s[0]) + Utf8(s[1..])
  }

  // --------------------------------------------------------- form encoding

  /** The characters `URLEncoder` leaves as they are. */
  predicate Unreserved(c: char) {
    ('a' <= c <= 'z') || ('A' <= c <= 'Z') || ('0' <= c <= '9')
    || c == '.' || c == '-' || c == '*' || c == '_'
  }

  /** An upper-case hexadecimal digit, as `URLEncoder` writes it. */
  function HexDigit(n: nat): (c: char)
    requires n < 16
  {
    if n < 10 then ('0' as int + n) as char else ('A' as int + n - 10) as char
  }

  predicate IsHexDigit(c: char) {
    ('0' <= c <= '9') || ('A' <= c <= 'F') || ('a' <= c <= 'f')
  }

  function HexValue(c: char): (n: nat)
    requires IsHexDigit(c)
    ensures n < 16
  {
    if '0' <= c <= '9' then c as int - '0' as int
    else if 'A' <= c <= 'F' then c as int - 'A' as int + 10
    else c as int - 'a' as int + 10
  }

  /** Each byte as `%XX`. */
  function Escape(b: seq<byte>): (s: string)
    ensures |s| == 3 * |b|
  {
    if b == [] then [] else ['%', HexDigit(b[0] as int / 16), HexDigit(b[0] as int % 16)] + Escape(b[1..])
  }

  /** One character of `URLEncoder.encode(_, UTF_8)`. A run of characters
      that need escaping is escaped as the UTF-8 of the run, which is the same
      as escaping them one by one. */
  function FormEncodeChar(c: char): string {
    if Unreserved(c) then [c]
    else if c == ' ' then "+"
    else Escape(Utf8Char(c))
  }

  /** `URLEncoder.encode(s, UTF_8)` */
  function FormEncode(s: string): string {
    if s == [] then [] else FormEncodeChar(s[0]) + FormEncode(s[1..])
  }

  /** `t.replace("+", "%20")` */
  function ReplacePlus(t: string): (r: string)
    ensures '+' !in r
    ensures forall i :: 0 <= i < |t| && t[i] != '+' ==> t[i] in r
  {
    if t == [] then []
    else
      var rest := ReplacePlus(t[1..]);
      var head := if t[0] == '+' then "%20" else [t[0]];
      assert forall i :: 1 <= i < |t| ==> t[i] == t[1..][i - 1];
      head + rest
  }

  /** `percentEncode` in DefaultResponseWriter: a form encoding in which a
      space is written `%20` instead of `+`. Its output is printable ASCII
      with neither `+` nor a space. */
  function PercentEncode(s: string): (r: string)
    ensures '+' !in r && ' ' !in r
    ensures forall i :: 0 <= i < |r| ==> IsSafeAscii(r[i])
  {
    FormEncodeSafe(s);
    ReplacePlusSafe(FormEncode(s));
    ReplacePlus(FormEncode(s))
  }

  /** A character of the encoder's output alphabet: unreserved, `%` or `+`. */
  predicate IsSafeAscii(c: char) {
    Unreserved(c) || c == '%' || c == '+'
  }

  lemma {:induction false} EscapeSafe(b: seq<byte>)
    ensures forall i :: 0 <= i < |Escape(b)| ==> IsSafeAscii(Escape(b)[i]) && Escape(b)[i] != '+'
  {
    if b != [] {
      EscapeSafe(b[1..]);
      var head := ['%', HexDigit(b[0] as int / 16), HexDigit(b[0] as int % 16)];
      assert Escape(b) == head + Escape(b[1..]);
      assert forall i :: 0 <= i < |Escape(b)| ==>
        Escape(b)[i] == if i < 3 then head[i] else Escape(b[1..])[i - 3];
    }
  }

  lemma {:induction false} FormEncodeSafe(s: string)
    ensures forall i :: 0 <= i < |FormEncode(s)| ==> IsSafeAscii(FormEncode(s)[i])
  {
    if s != [] {
      FormEncodeSafe(s[1..]);
      var head := FormEncodeChar(s[0]);
      EscapeSafe(Utf8Char(s[0]));
      assert forall i :: 0 <= i < |head| ==> IsSafeAscii(head[i]);
      assert forall i :: 0 <= i < |FormEncode(s)| ==>
        FormEncode(s)[i] == if i < |head| then head[i] else FormEncode(s[1..])[i - |head|];
    }
  }

  lemma {:induction false} ReplacePlusSafe(t: string)
    requires forall i :: 0 <= i < |t| ==> IsSafeAscii(t[i])
    ensures forall i :: 0 <= i < |ReplacePlus(t)| ==> IsSafeAscii(ReplacePlus(t)[i])
  {
    if t != [] {
      ReplacePlusSafe(t[1..]);
      var head := if t[0] == '+' then "%20" else [t[0]];
      assert ReplacePlus(t) == head + ReplacePlus(t[1..]);
      assert forall i :: 0 <= i < |ReplacePlus(t)| ==>
        ReplacePlus(t)[i] == if i < |head| then head[i] else ReplacePlus(t[1..])[i - |head|];
    }
  }

  // ------------------------------------------------------- percent decoding

  /** Reading percent-encoded text back to bytes: `%XX` is one byte, any
      other ASCII character stands for itself. */
  function PercentDecode(t: string): Option<seq<byte>> {
    if t == [] then Some([])
    else if t[0] == '%' then
      if |t| >= 3 && IsHexDigit(t[1]) && IsHexDigit(t[2]) then
        match PercentDecode(t[3..])
        case Some(rest) => Some([(HexValue(t[1]) * 16 + HexValue(t[2])) as byte] + rest)
        case None => None
      else None
    else if t[0] as int < 0x80 then
      match PercentDecode(t[1..])
      case Some(rest) => Some([t[0] as int as byte] + rest)
      case None => None
    else None
  }

  lemma HexDigitValue(n: nat)
    requires n < 16
    ensures IsHexDigit(HexDigit(n)) && HexValue(HexDigit(n)) == n
  {
  }

  /** Escaped bytes decode to themselves, whatever follows. */
  lemma {:induction false} DecodeEscape(b: seq<byte>, rest: string)
    ensures PercentDecode(Escape(b) + rest) ==
            match PercentDecode(rest) case Some(r) => Some(b + r) case None => None
  {
    if b != [] {
      var x := b[0] as int;
      HexDigitValue(x / 16);
      HexDigitValue(x % 16);
      var t := Escape(b) + rest;
      var tail := Escape(b[1..]) + rest;
      assert t == ['%', HexDigit(x / 16), HexDigit(x % 16)] + tail;
      assert t[0] == '%' && t[1] == HexDigit(x / 16) && t[2] == HexDigit(x % 16) && t[3..] == tail;
      assert (HexValue(t[1]) * 16 + HexValue(t[2])) as byte == b[0];
      DecodeEscape(b[1..], rest);
      match PercentDecode(rest)
      case Some(r) =>
        assert PercentDecode(tail) == Some(b[1..] + r);
        assert [b[0]] + (b[1..] + r) == b + r;
      case None =>
    } else {
      assert Escape(b) + rest == rest;
      match PercentDecode(rest)
      case Some(r) => assert b + r == r;
      case None =>
    }
  }

  /** Decoding one encoded character, whatever follows. */
  lemma DecodeEncodedChar(c: char, rest: string)
    ensures PercentDecode(ReplacePlus(FormEncodeChar(c)) + rest) ==
            match PercentDecode(rest) case Some(r) => Some(Utf8Char(c) + r) case None => None
  {
    if Unreserved(c) {
      assert ReplacePlus([c]) == [c];
      assert ([c] + rest)[1..] == rest;
    } else if c == ' ' {
      assert ReplacePlus("+") == "%20";
      assert Escape([0x20]) == "%20" by {
        assert HexDigit(2) == '2' && HexDigit(0) == '0';
      }
      DecodeEscape([0x20], rest);
    } else {
      EscapeSafe(Utf8Char(c));
      ReplacePlusIdentity(Escape(Utf8Char(c)));
      DecodeEscape(Utf8Char(c), rest);
    }
  }

  /** Replacing distributes over concatenation. */
  lemma {:induction false} ReplacePlusAppend(a: string, b: string)
    ensures ReplacePlus(a + b) == ReplacePlus(a) + ReplacePlus(b)
  {
    if a != [] {
      var head := if a[0] == '+' then "%20" else [a[0]];
      assert (a + b)[0] == a[0];
      assert (a + b)[1..] == a[1..] + b;
      ReplacePlusAppend(a[1..], b);
      assert ReplacePlus(a + b) == head + ReplacePlus(a[1..] + b);
      assert ReplacePlus(a) == head + ReplacePlus(a[1..]);
    } else {
      assert a + b == b;
    }
  }

  /** Text without `+` is left as it is. */
  lemma {:induction false} ReplacePlusIdentity(t: string)
    requires forall i :: 0 <= i < |t| ==> t[i] != '+'
    ensures ReplacePlus(t) == t
  {
    if t != [] {
      ReplacePlusIdentity(t[1..]);
    }
  }

  /** Percent-decoding the encoded message gives its UTF-8 bytes: the
      encoding loses nothing. */
  lemma {:induction false} PercentDecodeEncode(s: string)
    ensures PercentDecode(PercentEncode(s)) == Some(Utf8(s))
  {
    if s == [] {
    } else {
      ReplacePlusAppend(FormEncodeChar(s[0]), FormEncode(s[1..]));
      PercentDecodeEncode(s[1..]);
      DecodeEncodedChar(s[0], PercentEncode(s[1..]));
    }
  }

  /** Encoding distributes over concatenation. */
  lemma {:induction false} FormEncodeAppend(a: string, b: string)
    ensures FormEncode(a + b) == FormEncode(a) + FormEncode(b)
  {
    if a != [] {
      assert (a + b)[1..] == a[1..] + b;
      FormEncodeAppend(a[1..], b);
    } else {
      assert a + b == b;
    }
  }

  lemma PercentEncodeAppend(a: string, b: string)
    ensures PercentEncode(a + b) == PercentEncode(a) + PercentEncode(b)
  {
    FormEncodeAppend(a, b);
    ReplacePlusAppend(FormEncode(a), FormEncode(b));
  }

  /** Letters, digits and `.-*_` pass through unchanged. */
  lemma {:induction false} UnreservedUnchanged(s: string)
    requires forall i :: 0 <= i < |s| ==> Unreserved(s[i])
    ensures PercentEncode(s) == s
  {
    if s != [] {
      UnreservedUnchanged(s[1..]);
      PercentEncodeAppend([s[0]], s[1..]);
      assert [s[0]] + s[1..] == s;
      assert ReplacePlus([s[0]]) == [s[0]];
    }
  }

  /** A space becomes `%20` and a literal `+` becomes `%2B`, so the two stay
      apart after the replacement. */
  lemma SpaceAndPlus()
    ensures PercentEncode(" ") == "%20"
    ensures PercentEncode("+") == "%2B"
  {
    assert FormEncode(" ") == "+";
    assert ReplacePlus("+") == "%20";
    assert Utf8Char('+') == [0x2B];
    assert Escape([0x2B]) == "%2B";
    assert FormEncode("+") == "%2B";
    assert ReplacePlus("%2B") == "%2B";
  }

  /** Two words joined by a space travel joined by `%20`. */
  lemma JoinedBySpace(a: string, b: string)
    requires forall i :: 0 <= i < |a| ==> Unreserved(a[i])
    requires forall i :: 0 <= i < |b| ==> Unreserved(b[i])
    ensures PercentEncode(a + " " + b) == a + "%20" + b
  {
    UnreservedUnchanged(a);
    UnreservedUnchanged(b);
    SpaceAndPlus();
    PercentEncodeAppend(a, " ");
    PercentEncodeAppend(a + " ", b);
  }

  /** The message "missing id" travels as `missing%20id`. */
  lemma MissingIdExample(message: string)
    requires message == "missing id"
    ensures PercentEncode(message) == "missing%20id"
  {
    assert message == "missing" + " " + "id";
    JoinedBySpace("missing", "id");
  }

  // --------------------------------------------------------------- US-ASCII

  /** `s.getBytes(US_ASCII)`: a character outside ASCII becomes `?`. */
  function AsciiBytes(s: string): (b: seq<byte>)
    ensures |b| == |s|
    ensures forall i :: 0 <= i < |s| ==>
              b[i] as int == if s[i] as int < 0x80 then s[i] as int else '?' as int
  {
    if s == [] then []
    else [if s[0] as int < 0x80 then s[0] as int as byte else '?' as int as byte] + AsciiBytes(s[1..])
  }

  /** On ASCII text the conversion agrees with UTF-8. */
  lemma {:induction false} AsciiIsUtf8(s: string)
    requires forall i :: 0 <= i < |s| ==> s[i] as int < 0x80
    ensures AsciiBytes(s) == Utf8(s)
  {
    if s != [] {
      AsciiIsUtf8(s[1..]);
    }
  }
}
