/** HeaderConverter.java: the `grpc-timeout` grammar, the HTTP headers that
    are not passed on to the gRPC server, and the request-header pipeline
    that feeds `toMetadata`. */
module HeaderConverter {
  import opened Common
  import opened Servlet

  // --------------------------------------------------------------- timeout

  /** `TIMEOUT_PATTERN.matcher(s).matches()` for `(\d{1,8})([HMSmun])`: the
      whole string is one to eight ASCII digits and one unit letter. */
  predicate MatchesTimeoutPattern(s: string) {
    2 <= |s| <= 9
    && (forall i :: 0 <= i < |s| - 1 ==> IsDigit(s[i]))
    && s[|s| - 1] in "HMSmun"
  }

  const NANOS_PER_SECOND: nat := 1_000_000_000
  const NANOS_PER_MINUTE: nat := 60 * NANOS_PER_SECOND
  const NANOS_PER_HOUR: nat := 60 * NANOS_PER_MINUTE

  /** The `switch` on the unit group, as the length of one unit in
      nanoseconds: `m` is read as minutes, like `M`. The pattern admits no
      other letter, so the switch's throwing default is never taken. */
  function UnitNanos(unit: char): (nanos: nat)
    requires unit in "HMSmun"
  {
    match unit
    case 'H' => NANOS_PER_HOUR
    case 'M' => NANOS_PER_MINUTE
    case 'S' => NANOS_PER_SECOND
    case 'm' => NANOS_PER_MINUTE
    case 'u' => 1000
    case 'n' => 1
  }

  /** `parseTimeout`: the duration, in nanoseconds, or IllegalArgumentException. */
  function ParseTimeout(timeout: string): (r: Result<nat>)
    ensures r.Ok? <==> MatchesTimeoutPattern(timeout)
    ensures r.Err? ==> r.error == IllegalArgument
  {
    if !MatchesTimeoutPattern(timeout) then Err(IllegalArgument)
    else Ok(DigitsValue(timeout[..|timeout| - 1]) * UnitNanos(timeout[|timeout| - 1]))
  }

  /** 10 to the `n`. */
  function Pow10(n: nat): (p: nat)
    ensures p >= 1
  {
    if n == 0 then 1 else 10 * Pow10(n - 1)
  }

  /** `n` digits denote a number below 10^n. */
  lemma {:induction false} DigitsValueBound(s: string)
    requires forall i :: 0 <= i < |s| ==> IsDigit(s[i])
    ensures DigitsValue(s) < Pow10(|s|)
    decreases |s|
  {
    if s != [] {
      DigitsValueBound(s[..|s| - 1]);
    }
  }

  /** The value group fits an `int`: at most 99,999,999. */
  lemma TimeoutValueFitsInt(digits: string)
    requires 1 <= |digits| <= 8 && forall i :: 0 <= i < |digits| ==> IsDigit(digits[i])
    ensures DigitsValue(digits) <= 99_999_999 <= INT_MAX
  {
    DigitsValueBound(digits);
    assert Pow10(|digits|) <= Pow10(8) by {
      Pow10Monotone(|digits|, 8);
    }
  }

  lemma {:induction false} Pow10Monotone(a: nat, b: nat)
    requires a <= b
    ensures Pow10(a) <= Pow10(b)
    decreases b
  {
    if a < b {
      Pow10Monotone(a, b - 1);
    }
  }

  /** Every accepted string denotes its digit value times its unit. */
  lemma ParseTimeoutValue(digits: string, unit: char)
    requires 1 <= |digits| <= 8 && forall i :: 0 <= i < |digits| ==> IsDigit(digits[i])
    requires unit in "HMSmun"
    ensures ParseTimeout(digits + [unit]) == Ok(DigitsValue(digits) * (
              if unit == 'H' then 3_600_000_000_000
              else if unit == 'M' || unit == 'm' then 60_000_000_000
              else if unit == 'S' then 1_000_000_000
              else if unit == 'u' then 1_000
              else 1))
  {
    var s := digits + [unit];
    assert s[..|s| - 1] == digits;
    assert MatchesTimeoutPattern(s);
  }

  /** "10S" is ten seconds; "3m" and "3M" are both three minutes. */
  lemma TimeoutExamples(tenSeconds: string, threeLower: string, threeUpper: string)
    requires tenSeconds == "10S" && threeLower == "3m" && threeUpper == "3M"
    ensures ParseTimeout(tenSeconds) == Ok(10_000_000_000)
    ensures ParseTimeout(threeLower) == ParseTimeout(threeUpper) == Ok(180_000_000_000)
  {
    ParseTimeoutValue("10", 'S');
    assert tenSeconds == "10" + ['S'];
    ParseTimeoutValue("3", 'm');
    assert threeLower == "3" + ['m'];
    ParseTimeoutValue("3", 'M');
    assert threeUpper == "3" + ['M'];
  }

  /** Nine digits, an unknown unit, no digits, or a trailing space all fail. */
  lemma TimeoutRejections(nineDigits: string, badUnit: string, noDigits: string, trailing: string)
    requires nineDigits == "123456789S" && badUnit == "10X" && noDigits == "S" && trailing == "10S "
    ensures ParseTimeout(nineDigits) == Err(IllegalArgument)
    ensures ParseTimeout(badUnit) == Err(IllegalArgument)
    ensures ParseTimeout(noDigits) == Err(IllegalArgument)
    ensures ParseTimeout(trailing) == Err(IllegalArgument)
  {
    assert !IsDigit(trailing[2]);
  }

  // ---------------------------------------------------------------- headers

  /** `STRIP_HTTP_HEADERS` */
  const STRIP_HTTP_HEADERS: set<string> := {
    "x-grpc-web", "connection", "grpc-accept-encoding", "grpc-encoding",
    "content-type", "accept", "grpc-timeout", "content-length"
  }

  /** `toStream`: a null enumeration is an empty stream. */
  function ToStream<T>(e: Option<seq<T>>): (r: seq<T>)
    ensures e.None? ==> r == []
    ensures e.Some? ==> r == e.value
  {
    match e
    case Some(items) => items
    case None => []
  }

  /** One `Header` per value of `name`, in order. */
  function HeadersFor(name: string, values: seq<string>): (hs: seq<Header>)
    ensures |hs| == |values|
    ensures forall i :: 0 <= i < |hs| ==> hs[i] == Header(name, values[i])
  {
    seq(|values|, i requires 0 <= i < |values| => Header(name, values[i]))
  }

  /** The header stream of `toMetadata(HttpServletRequest)`, over the names
      in `names`: the names whose lower-cased form is not stripped, each with
      all its values. */
  function KeptHeaders(names: seq<string>, headers: string -> Option<seq<string>>): (hs: seq<Header>)
    ensures forall i :: 0 <= i < |hs| ==> Lower(hs[i].name) !in STRIP_HTTP_HEADERS && hs[i].name in names
  {
    if names == [] then []
    else
      var name := names[|names| - 1];
      var before := KeptHeaders(names[..|names| - 1], headers);
      before + (if Lower(name) in STRIP_HTTP_HEADERS then [] else HeadersFor(name, ToStream(headers(name))))
  }

  /** The whole request's header stream. */
  function RequestHeaders(req: HttpRequest): seq<Header> {
    KeptHeaders(ToStream(req.headerNames), req.headers)
  }

  /** The headers named `name` in a header list. */
  function Named(hs: seq<Header>, name: string): (r: seq<Header>)
    ensures forall i :: 0 <= i < |r| ==> r[i].name == name
  {
    if hs == [] then []
    else Named(hs[..|hs| - 1], name) + (if hs[|hs| - 1].name == name then [hs[|hs| - 1]] else [])
  }

  lemma {:induction false} NamedAppend(a: seq<Header>, b: seq<Header>, name: string)
    ensures Named(a + b, name) == Named(a, name) + Named(b, name)
    decreases |b|
  {
    if b == [] {
      assert a + b == a;
    } else {
      assert (a + b)[..|a + b| - 1] == a + b[..|b| - 1];
      NamedAppend(a, b[..|b| - 1], name);
    }
  }

  lemma {:induction false} NamedHeadersFor(n: string, values: seq<string>, name: string)
    ensures Named(HeadersFor(n, values), name) == if n == name then HeadersFor(n, values) else []
    decreases |values|
  {
    if values != [] {
      var k := |values| - 1;
      assert HeadersFor(n, values)[..k] == HeadersFor(n, values[..k]);
      NamedHeadersFor(n, values[..k], name);
    }
  }

  /** A header name listed once keeps all its values, in request order, unless
      its lower-cased form is stripped; then none is kept. */
  lemma {:induction false} KeptHeadersNamed(names: seq<string>, headers: string -> Option<seq<string>>, name: string)
    requires forall i, j :: 0 <= i < j < |names| ==> names[i] != names[j]
    ensures Named(KeptHeaders(names, headers), name) ==
            if name in names && Lower(name) !in STRIP_HTTP_HEADERS then HeadersFor(name, ToStream(headers(name)))
            else []
    decreases |names|
  {
    if names != [] {
      var n := names[|names| - 1];
      var init := names[..|names| - 1];
      KeptHeadersNamed(init, headers, name);
      var tail := if Lower(n) in STRIP_HTTP_HEADERS then [] else HeadersFor(n, ToStream(headers(n)));
      NamedAppend(KeptHeaders(init, headers), tail, name);
      if Lower(n) !in STRIP_HTTP_HEADERS {
        NamedHeadersFor(n, ToStream(headers(n)), name);
      }
      assert name in names <==> name in init || name == n;
      if name == n {
        assert name !in init;
      }
    }
  }

  /** With a null name enumeration there are no headers at all. */
  lemma NoHeaderNames(req: HttpRequest)
    requires req.headerNames.None?
    ensures RequestHeaders(req) == []
  {
  }
}
