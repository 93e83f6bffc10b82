/** The base64 codec used for binary ("-bin") metadata values: the alphabet
    of section 4 of RFC 4648, encoded without `=` padding (section 3.2) as
    `Base64.getEncoder().withoutPadding()` does, and decoded as
    `Base64.getDecoder()` does, with padding optional. */
module Base64 {
  import opened Common

  /** The character for a 6-bit value. */
  function CharOf(v: nat): (c: char)
    requires v < 64
  {
    if v < 26 then ('A' as int + v) as char
    else if v < 52 then ('a' as int + (v - 26)) as char
    else if v < 62 then ('0' as int + (v - 52)) as char
    else if v == 62 then '+'
    else '/'
  }

  predicate IsBase64Char(c: char) {
    ('A' <= c <= 'Z') || ('a' <= c <= 'z') || ('0' <= c <= '9') || c == '+' || c == '/'
  }

  /** The 6-bit value of an alphabet character. */
  function ValueOf(c: char): (v: nat)
    requires IsBase64Char(c)
    ensures v < 64 && CharOf(v) == c
  {
    if 'A' <= c <= 'Z' then c as int - 'A' as int
    else if 'a' <= c <= 'z' then c as int - 'a' as int + 26
    else if '0' <= c <= '9' then c as int - '0' as int + 52
    else if c == '+' then 62
    else 63
  }

  /** Every alphabet character comes from exactly one value. */
  lemma CharOfInjective(v: nat)
    requires v < 64
    ensures IsBase64Char(CharOf(v)) && ValueOf(CharOf(v)) == v
  {
  }

  /** The four characters for three bytes. */
  function EncodeUnit(x: byte, y: byte, z: byte): (s: string)
    ensures |s| == 4
  {
    [CharOf(x as int / 4), CharOf(x as int % 4 * 16 + y as int / 16),
     CharOf(y as int % 16 * 4 + z as int / 64), CharOf(z as int % 64)]
  }

  /** Encoding without padding: three bytes become four characters, and a
      final one or two bytes become two or three characters. */
  function Encode(b: seq<byte>): (s: string)
    ensures |s| == (4 * |b| + 2) / 3
    ensures forall i :: 0 <= i < |s| ==> IsBase64Char(s[i])
    decreases |b|
  {
    if |b| == 0 then []
    else if |b| == 1 then EncodeUnit(b[0], 0, 0)[..2]
    else if |b| == 2 then EncodeUnit(b[0], b[1], 0)[..3]
    else EncodeUnit(b[0], b[1], b[2]) + Encode(b[3..])
  }

  /** The three bytes carried by four alphabet characters. */
  function DecodeUnit(u: string): (b: seq<byte>)
    requires |u| == 4 && forall i :: 0 <= i < 4 ==> IsBase64Char(u[i])
    ensures |b| == 3
  {
    var v0, v1, v2, v3 := ValueOf(u[0]), ValueOf(u[1]), ValueOf(u[2]), ValueOf(u[3]);
    [(v0 * 4 + v1 / 16) as byte, (v1 % 16 * 16 + v2 / 4) as byte, (v2 % 4 * 64 + v3) as byte]
  }

  /** The last unit of the input: fewer than four characters, or padded. */
  predicate IsLastUnit(s: string) {
    0 < |s| && (|s| < 4 || s[2] == '=' || s[3] == '=')
  }

  /** A final unit of two or three characters (either padded to four with
      `=`) carries one or two bytes, read as a full unit completed with `A`
      (value 0); any other final unit, or anything after its padding, is an
      error. */
  function DecodeLastUnit(s: string): (r: Result<seq<byte>>)
    requires IsLastUnit(s)
    ensures r.Err? ==> r.error == IllegalArgument
  {
    if |s| == 1 || !IsBase64Char(s[0]) || !IsBase64Char(s[1]) then Err(IllegalArgument)
    else if |s| == 2 || s[2] == '=' then
      if |s| == 2 || s[2..] == "==" then Ok(DecodeUnit(s[..2] + "AA")[..1]) else Err(IllegalArgument)
    else if !IsBase64Char(s[2]) then Err(IllegalArgument)
    else if |s| == 3 || |s| == 4 then Ok(DecodeUnit(s[..3] + "A")[..2])
    else Err(IllegalArgument)
  }

  /** Decoding with the basic (non-MIME) decoder: units of four alphabet
      characters; a final unit of two or three characters, unpadded or padded
      to four with `=`; bits left over in a final unit are ignored. A single
      dangling character, a misplaced `=`, anything after the padding, or a
      character outside the alphabet is an IllegalArgumentException. */
  function Decode(s: string): (r: Result<seq<byte>>)
    ensures r.Err? ==> r.error == IllegalArgument
    decreases |s|
  {
    if |s| == 0 then Ok([])
    else if IsLastUnit(s) then DecodeLastUnit(s)
    else if !(IsBase64Char(s[0]) && IsBase64Char(s[1]) && IsBase64Char(s[2]) && IsBase64Char(s[3])) then
      Err(IllegalArgument)
    else
      match Decode(s[4..])
      case Ok(rest) => Ok(DecodeUnit(s[..4]) + rest)
      case Err(e) => Err(e)
  }

  /** A unit of three bytes survives encoding and decoding. */
  lemma UnitRoundTrip(x: byte, y: byte, z: byte)
    ensures var u := EncodeUnit(x, y, z);
            (forall i :: 0 <= i < 4 ==> IsBase64Char(u[i])) && DecodeUnit(u) == [x, y, z]
  {
    var u := EncodeUnit(x, y, z);
    var v0, v1, v2, v3 := x as int / 4, x as int % 4 * 16 + y as int / 16, y as int % 16 * 4 + z as int / 64, z as int % 64;
    assert u == [CharOf(v0), CharOf(v1), CharOf(v2), CharOf(v3)];
    CharOfInjective(v0);
    CharOfInjective(v1);
    CharOfInjective(v2);
    CharOfInjective(v3);
    UnitBits(x as int, y as int, z as int);
  }

  /** The arithmetic of a unit: the four 6-bit values of three bytes give
      the bytes back. */
  lemma UnitBits(x: nat, y: nat, z: nat)
    requires x < 256 && y < 256 && z < 256
    ensures var v0, v1, v2, v3 := x / 4, x % 4 * 16 + y / 16, y % 16 * 4 + z / 64, z % 64;
            && v0 * 4 + v1 / 16 == x
            && v1 % 16 * 16 + v2 / 4 == y
            && v2 % 4 * 64 + v3 == z
  {
    Recombine(x % 4, y / 16, 16);
    Recombine(y % 16, z / 64, 4);
  }

  /** A digit `b` below `k` after `a` in base `k` is read back apart. */
  lemma Recombine(a: nat, b: nat, k: nat)
    requires b < k
    ensures (a * k + b) / k == a && (a * k + b) % k == b
  {
    var n := a * k + b;
    var q, r := n / k, n % k;
    assert q * k + r == a * k + b;
    assert q > a ==> q * k >= (a + 1) * k;
    assert q < a ==> q * k <= (a - 1) * k;
  }

  /** The shorter final units: the leftover bits the encoder writes are zero,
      and the decoder drops them. */
  lemma OneByteRoundTrip(b: seq<byte>)
    requires |b| == 1
    ensures IsLastUnit(Encode(b)) && DecodeLastUnit(Encode(b)) == Ok(b)
  {
    var s := Encode(b);
    CharOfInjective(0);
    assert s + "AA" == EncodeUnit(b[0], 0, 0);
    UnitRoundTrip(b[0], 0, 0);
    ShortUnitDecodes(s);
    assert DecodeUnit(s + "AA")[..1] == [b[0]] == b;
  }

  lemma TwoByteRoundTrip(b: seq<byte>)
    requires |b| == 2
    ensures IsLastUnit(Encode(b)) && DecodeLastUnit(Encode(b)) == Ok(b)
  {
    var s := Encode(b);
    CharOfInjective(0);
    assert s + "A" == EncodeUnit(b[0], b[1], 0);
    UnitRoundTrip(b[0], b[1], 0);
    ShortUnitDecodes(s);
    assert DecodeUnit(s + "A")[..2] == [b[0], b[1]] == b;
  }

  /** Four alphabet characters at the front are a full unit. */
  lemma FullUnitDecodes(s: string)
    requires |s| >= 4 && forall i :: 0 <= i < 4 ==> IsBase64Char(s[i])
    ensures Decode(s) == match Decode(s[4..])
                         case Ok(rest) => Ok(DecodeUnit(s[..4]) + rest)
                         case Err(e) => Err(e)
  {
    assert !IsLastUnit(s);
  }

  /** An unpadded final unit of two or three alphabet characters decodes as
      its completion with `A`. */
  lemma ShortUnitDecodes(s: string)
    requires |s| == 2 || |s| == 3
    requires forall i :: 0 <= i < |s| ==> IsBase64Char(s[i])
    ensures IsLastUnit(s)
    ensures |s| == 2 ==> s + "AA" == s[..2] + "AA" && DecodeLastUnit(s) == Ok(DecodeUnit(s + "AA")[..1])
    ensures |s| == 3 ==> s + "A" == s[..3] + "A" && DecodeLastUnit(s) == Ok(DecodeUnit(s + "A")[..2])
  {
    assert s[..|s|] == s;
  }

  /** Decoding what the encoder wrote gives the bytes back. */
  lemma {:induction false} DecodeEncode(b: seq<byte>)
    ensures Decode(Encode(b)) == Ok(b)
    decreases |b|
  {
    var s := Encode(b);
    if |b| == 1 {
      OneByteRoundTrip(b);
    } else if |b| == 2 {
      TwoByteRoundTrip(b);
    } else if |b| >= 3 {
      DecodeEncode(b[3..]);
      FirstUnitDecodes(b);
    }
  }

  /** A first unit of three bytes decodes in front of what the rest
      decodes to. */
  lemma FirstUnitDecodes(b: seq<byte>)
    requires |b| >= 3 && Decode(Encode(b[3..])) == Ok(b[3..])
    ensures Decode(Encode(b)) == Ok(b)
  {
    SplitUnit(b);
    var s := Encode(b);
    var u := EncodeUnit(b[0], b[1], b[2]);
    assert s == u + Encode(b[3..]);
    assert s[..4] == u && s[4..] == Encode(b[3..]);
    UnitRoundTrip(b[0], b[1], b[2]);
    FullUnitDecodes(s);
  }

  lemma SplitUnit(b: seq<byte>)
    requires |b| >= 3
    ensures b == [b[0], b[1], b[2]] + b[3..]
  {
  }

  /** Padding is optional: a padded final unit decodes like the unpadded one. */
  lemma {:induction false} PaddingOptional(s: string)
    requires |s| % 4 == 2 || |s| % 4 == 3
    requires forall i :: 0 <= i < |s| ==> IsBase64Char(s[i])
    ensures Decode(s + (if |s| % 4 == 2 then "==" else "=")) == Decode(s)
    decreases |s|
  {
    var pad := if |s| % 4 == 2 then "==" else "=";
    if |s| > 4 {
      var rest := s[4..];
      assert |rest| % 4 == |s| % 4;
      PaddingOptional(rest);
      assert Decode(rest + pad) == Decode(rest);
      assert (s + pad)[4..] == rest + pad;
      assert (s + pad)[..4] == s[..4];
      FullUnitDecodes(s);
      FullUnitDecodes(s + pad);
    } else {
      assert |s| == 2 || |s| == 3;
      PaddedUnitDecodes(s);
    }
  }

  /** A final unit of two or three characters decodes alike with or without
      its padding. */
  lemma PaddedUnitDecodes(s: string)
    requires |s| == 2 || |s| == 3
    requires forall i :: 0 <= i < |s| ==> IsBase64Char(s[i])
    ensures Decode(s + (if |s| == 2 then "==" else "=")) == Decode(s)
  {
    var p := s + (if |s| == 2 then "==" else "=");
    ShortUnitDecodes(s);
    assert IsLastUnit(p);
    if |s| == 2 {
      assert p[2..] == "==";
      assert p[..2] == s[..2];
    } else {
      assert p[..3] == s[..3];
    }
  }

  /** The encoder never writes padding. */
  lemma EncodeHasNoPadding(b: seq<byte>)
    ensures '=' !in Encode(b)
  {
  }

  /** The `=` characters that complete the unpadded base64 of `n` bytes to
      a multiple of four characters. */
  function Padding(n: nat): (pad: string)
    ensures |pad| == if n % 3 == 0 then 0 else 3 - n % 3
    ensures forall i :: 0 <= i < |pad| ==> pad[i] == '='
  {
    if n % 3 == 0 then [] else if n % 3 == 1 then "==" else "="
  }

  /** Base64 text of `b` padded with `=`: what `Base64.getEncoder()` has
      written once its stream is closed. It decodes back to `b`. */
  function EncodePadded(b: seq<byte>): (s: string)
    ensures Decode(s) == Ok(b)
    ensures |s| % 4 == 0
  {
    PaddedRoundTrip(b);
    Encode(b) + Padding(|b|)
  }

  /** The padded text decodes like the unpadded one. */
  lemma PaddedRoundTrip(b: seq<byte>)
    ensures Decode(Encode(b) + Padding(|b|)) == Ok(b)
    ensures |Encode(b) + Padding(|b|)| % 4 == 0
  {
    var e := Encode(b);
    DecodeEncode(b);
    EncodedLength(|b|, |e|);
    var pad := Padding(|b|);
    if |b| % 3 == 0 {
      assert e + pad == e;
    } else if |b| % 3 == 1 {
      PadTwo(e, pad);
      assert |e + pad| == |e| + 2;
    } else {
      PadOne(e, pad);
      assert |e + pad| == |e| + 1;
    }
  }

  lemma PadTwo(e: string, pad: string)
    requires forall i :: 0 <= i < |e| ==> IsBase64Char(e[i])
    requires |e| % 4 == 2 && pad == "=="
    ensures Decode(e + pad) == Decode(e)
  {
    PaddingOptional(e);
  }

  lemma PadOne(e: string, pad: string)
    requires forall i :: 0 <= i < |e| ==> IsBase64Char(e[i])
    requires |e| % 4 == 3 && pad == "="
    ensures Decode(e + pad) == Decode(e)
  {
    PaddingOptional(e);
  }

  /** Unpadded base64 of `n` bytes has `(4n + 2) / 3` characters: a multiple
      of four, or two or three more. */
  lemma EncodedLength(n: nat, len: nat)
    requires len == (4 * n + 2) / 3
    ensures n % 3 == 0 ==> len % 4 == 0
    ensures n % 3 == 1 ==> len % 4 == 2 && (len + 2) % 4 == 0
    ensures n % 3 == 2 ==> len % 4 == 3 && (len + 1) % 4 == 0
  {
    var q, r := n / 3, n % 3;
    var c := if r == 0 then 0 else r + 1;
    if r == 0 {
      Recombine(4 * q, 2, 3);
      assert 4 * n + 2 == (4 * q) * 3 + 2;
    } else if r == 1 {
      Recombine(4 * q + 2, 0, 3);
      assert 4 * n + 2 == (4 * q + 2) * 3 + 0;
    } else {
      Recombine(4 * q + 3, 1, 3);
      assert 4 * n + 2 == (4 * q + 3) * 3 + 1;
    }
    assert len == q * 4 + c;
    Recombine(q, c, 4);
    Recombine(q + 1, 0, 4);
    assert len + 4 - c == (q + 1) * 4;
  }
}
