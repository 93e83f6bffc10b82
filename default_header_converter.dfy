/** DefaultHeaderConverter.java: HTTP headers to gRPC metadata and back.
    Values of `-bin` keys travel base64-encoded in HTTP and as bytes in
    metadata. */
module DefaultHeaderConverter {
  import opened Common
  import opened Servlet
  import opened MetadataModel
  import Base64
  import opened HeaderConverter

  /** One header as one metadata entry. `Metadata.Key.of` lower-cases the
      name and rejects it unless it is a valid key name; a binary key must
      also end in `-bin` as given and be longer than the suffix. A name
      ending in `-bin` takes the base64-decoded value; any other stores the
      value through the ASCII marshaller. */
  function ConvertHeader(h: Header): (r: Result<(string, MetaValue)>)
    ensures r.Err? ==> r.error == IllegalArgument
    ensures r.Ok? ==> r.value.0 == Lower(h.name)
    ensures r.Ok? ==> (r.value.1.Binary? <==> EndsWith(Lower(h.name), BINARY_SUFFIX))
    ensures r.Ok? && r.value.1.Ascii? ==> r.value.1.text == AsciiStored(h.value)
    ensures r.Ok? && r.value.1.Binary? ==> Base64.Decode(h.value) == Ok(r.value.1.bytes)
  {
    var key := Lower(h.name);
    if !ValidKeyName(key) then Err(IllegalArgument)
    else if EndsWith(key, BINARY_SUFFIX) then
      if !EndsWith(h.name, BINARY_SUFFIX) || |h.name| <= |BINARY_SUFFIX| then Err(IllegalArgument)
      else
        var decoded := Base64.Decode(h.value);
        if decoded.Err? then Err(IllegalArgument) else Ok((key, Binary(decoded.value)))
    else Ok((key, Ascii(AsciiStored(h.value))))
  }

  /** A header is refused exactly when `Metadata.Key` rejects its name: not
      a valid key name once lower-cased, or a binary name that does not end
      in `-bin` as given or is nothing but the suffix; or when its binary
      value is not base64. */
  lemma ConvertHeaderFails(h: Header)
    ensures ConvertHeader(h).Err? <==>
              || !ValidKeyName(Lower(h.name))
              || (EndsWith(Lower(h.name), BINARY_SUFFIX)
                  && (!EndsWith(h.name, BINARY_SUFFIX) || |h.name| <= |BINARY_SUFFIX| || Base64.Decode(h.value).Err?))
  {
  }

  /** Every entry a header converts to is one `Metadata` accepts: a valid
      key name, binary exactly under a `-bin` key longer than the suffix,
      and ASCII text only. */
  lemma ConvertedEntryValid(h: Header)
    requires ConvertHeader(h).Ok?
    ensures ValidEntry(ConvertHeader(h).value.0, ConvertHeader(h).value.1)
  {
    AsciiStoredMasks(h.value);
  }

  /** What `toMetadata(Stream<Header>)` produces: one entry per header, in
      stream order; the first undecodable binary value aborts the whole
      conversion with IllegalArgumentException. */
  function HeadersToMetadata(hs: seq<Header>): (r: Result<Metadata>)
    ensures r.Err? ==> r.error == IllegalArgument
    ensures r.Ok? ==> |r.value| == |hs|
  {
    if hs == [] then Ok([])
    else
      match HeadersToMetadata(hs[..|hs| - 1])
      case Err(e) => Err(e)
      case Ok(init) =>
        match ConvertHeader(hs[|hs| - 1])
        case Ok(entry) => Ok(init + [entry])
        case Err(e) => Err(e)
  }

  /** The conversion succeeds exactly when every header converts, and then
      entry i is header i converted. */
  lemma {:induction false} HeadersToMetadataPointwise(hs: seq<Header>)
    ensures HeadersToMetadata(hs).Ok? <==> forall i :: 0 <= i < |hs| ==> ConvertHeader(hs[i]).Ok?
    ensures HeadersToMetadata(hs).Ok? ==>
              forall i :: 0 <= i < |hs| ==> HeadersToMetadata(hs).value[i] == ConvertHeader(hs[i]).value
    decreases |hs|
  {
    if hs != [] {
      var n := |hs| - 1;
      HeadersToMetadataPointwise(hs[..n]);
      assert forall i :: 0 <= i < n ==> hs[..n][i] == hs[i];
    }
  }

  /** Converted metadata keeps the `Metadata.Key` discipline. */
  lemma HeadersToMetadataWellFormed(hs: seq<Header>)
    requires HeadersToMetadata(hs).Ok?
    ensures WellFormed(HeadersToMetadata(hs).value)
  {
    HeadersToMetadataPointwise(hs);
    var m := HeadersToMetadata(hs).value;
    forall i | 0 <= i < |m|
      ensures ValidEntry(m[i].0, m[i].1)
    {
      ConvertedEntryValid(hs[i]);
    }
  }

  /** `toMetadata(Stream<Header>)`: puts each header into a fresh `Metadata`
      in turn. */
  method ToMetadata(headers: seq<Header>) returns (r: Result<Metadata>)
    ensures r == HeadersToMetadata(headers)
    ensures r.Ok? ==> WellFormed(r.value)
  {
    var httpHeaders: Metadata := [];
    var i := 0;
    while i < |headers|
      invariant 0 <= i <= |headers|
      invariant HeadersToMetadata(headers[..i]) == Ok(httpHeaders)
    {
      var entry := ConvertHeader(headers[i]);
      assert headers[..i + 1][..i] == headers[..i];
      if entry.Err? {
        HeadersToMetadataPointwise(headers);
        return Err(entry.error);
      }
      httpHeaders := httpHeaders + [entry.value];
      i := i + 1;
    }
    assert headers[..i] == headers;
    HeadersToMetadataWellFormed(headers);
    return Ok(httpHeaders);
  }

  /** `HeaderConverter.toMetadata(HttpServletRequest)` with this converter:
      the kept request headers, converted one by one. */
  method RequestToMetadata(req: HttpRequest) returns (r: Result<Metadata>)
    ensures r == HeadersToMetadata(RequestHeaders(req))
    ensures r.Ok? ==> WellFormed(r.value) && |r.value| == |RequestHeaders(req)|
    ensures r.Ok? ==> forall i :: 0 <= i < |r.value| ==> r.value[i].0 !in STRIP_HTTP_HEADERS
  {
    r := ToMetadata(RequestHeaders(req));
    HeadersToMetadataPointwise(RequestHeaders(req));
  }

  // ------------------------------------------------------------ toHeaders

  /** The header value for one metadata value: a binary value (stored under
      a `-bin` key) is base64 without padding, an ASCII value passes
      unchanged. */
  function Render(v: MetaValue): string {
    match v
    case Binary(bytes) => Base64.Encode(bytes)
    case Ascii(text) => text
  }

  /** One header per value of a key, in stored order. */
  function RenderAll(key: string, vs: seq<MetaValue>): (hs: seq<Header>)
    ensures |hs| == |vs|
    ensures forall j :: 0 <= j < |hs| ==> hs[j] == Header(key, Render(vs[j]))
  {
    if vs == [] then []
    else RenderAll(key, vs[..|vs| - 1]) + [Header(key, Render(vs[|vs| - 1]))]
  }

  function HeadersOfKeys(m: Metadata, ks: seq<string>): seq<Header> {
    if ks == [] then []
    else HeadersOfKeys(m, ks[..|ks| - 1]) + RenderAll(ks[|ks| - 1], ValuesOf(m, ks[|ks| - 1]))
  }

  /** `toHeaders`: for each key of `keys()`, one header per stored value;
      every header names a key that has a value. */
  function ToHeaders(m: Metadata): (hs: seq<Header>)
    ensures forall i :: 0 <= i < |hs| ==> ValuesOf(m, hs[i].name) != []
  {
    HeadersOfKeysNames(m, Keys(m));
    HeadersOfKeys(m, Keys(m))
  }

  /** Metadata yields no header exactly when it has no entry. */
  lemma ToHeadersEmpty(m: Metadata)
    ensures ToHeaders(m) == [] <==> m == []
  {
    HeadersOfKeysNames(m, Keys(m));
    if m != [] {
      assert ValuesOf(m, m[|m| - 1].0) != [];
    }
  }

  /** Every header from `ks` is named by one of `ks`; the last key's values
      give at least as many headers. */
  lemma {:induction false} HeadersOfKeysNames(m: Metadata, ks: seq<string>)
    ensures forall i :: 0 <= i < |HeadersOfKeys(m, ks)| ==> HeadersOfKeys(m, ks)[i].name in ks
    ensures ks != [] ==> |HeadersOfKeys(m, ks)| >= |ValuesOf(m, ks[|ks| - 1])|
    decreases |ks|
  {
    if ks != [] {
      HeadersOfKeysNames(m, ks[..|ks| - 1]);
      var init: seq<Header> := HeadersOfKeys(m, ks[..|ks| - 1]);
      var last: seq<Header> := RenderAll(ks[|ks| - 1], ValuesOf(m, ks[|ks| - 1]));
      forall i | 0 <= i < |init + last|
        ensures (init + last)[i].name in ks
      {
        if i < |init| {
          assert init[i].name in ks[..|ks| - 1];
        }
      }
    }
  }

  lemma {:induction false} NamedRenderAll(key: string, vs: seq<MetaValue>, name: string)
    ensures Named(RenderAll(key, vs), name) == if key == name then RenderAll(key, vs) else []
    decreases |vs|
  {
    if vs != [] {
      NamedRenderAll(key, vs[..|vs| - 1], name);
    }
  }

  /** A key outside `ks` gets no header from `ks`. */
  lemma {:induction false} NamedAbsent(m: Metadata, ks: seq<string>, name: string)
    requires name !in ks
    ensures Named(HeadersOfKeys(m, ks), name) == []
    decreases |ks|
  {
    if ks != [] {
      var key := ks[|ks| - 1];
      NamedAppend(HeadersOfKeys(m, ks[..|ks| - 1]), RenderAll(key, ValuesOf(m, key)), name);
      NamedRenderAll(key, ValuesOf(m, key), name);
      NamedAbsent(m, ks[..|ks| - 1], name);
    }
  }

  lemma {:induction false} NamedHeadersOfKeys(m: Metadata, ks: seq<string>, name: string)
    requires forall i, j :: 0 <= i < j < |ks| ==> ks[i] != ks[j]
    requires name in ks || ValuesOf(m, name) == []
    ensures Named(HeadersOfKeys(m, ks), name) == RenderAll(name, ValuesOf(m, name))
    decreases |ks|
  {
    if ks != [] {
      var key := ks[|ks| - 1];
      var init := ks[..|ks| - 1];
      NamedAppend(HeadersOfKeys(m, init), RenderAll(key, ValuesOf(m, key)), name);
      NamedRenderAll(key, ValuesOf(m, key), name);
      if name == key {
        DistinctLast(ks);
        NamedAbsent(m, init, name);
      } else {
        NamedHeadersOfKeys(m, init, name);
      }
    }
  }

  /** The last of a list of distinct keys is not among the others. */
  lemma DistinctLast(ks: seq<string>)
    requires ks != [] && forall i, j :: 0 <= i < j < |ks| ==> ks[i] != ks[j]
    ensures ks[|ks| - 1] !in ks[..|ks| - 1]
  {
  }

  /** A key with n values yields n headers with that key, in stored order,
      binary values base64-encoded without padding. */
  lemma ToHeadersNamed(m: Metadata, name: string)
    ensures Named(ToHeaders(m), name) == RenderAll(name, ValuesOf(m, name))
  {
    NamedHeadersOfKeys(m, Keys(m), name);
  }

  // ----------------------------------------------------------- round trip

  lemma {:induction false} HeadersToMetadataAppend(a: seq<Header>, b: seq<Header>)
    requires HeadersToMetadata(a).Ok? && HeadersToMetadata(b).Ok?
    ensures HeadersToMetadata(a + b) == Ok(HeadersToMetadata(a).value + HeadersToMetadata(b).value)
    decreases |b|
  {
    if b == [] {
      assert a + b == a;
      assert HeadersToMetadata(a).value + [] == HeadersToMetadata(a).value;
    } else {
      var n := |b| - 1;
      assert (a + b)[..|a + b| - 1] == a + b[..n];
      assert (a + b)[|a + b| - 1] == b[n];
      HeadersToMetadataAppend(a, b[..n]);
      var entry := ConvertHeader(b[n]).value;
      assert HeadersToMetadata(b).value == HeadersToMetadata(b[..n]).value + [entry];
      assert HeadersToMetadata(a + b).value == HeadersToMetadata(a + b[..n]).value + [entry];
      assert HeadersToMetadata(a).value + HeadersToMetadata(b[..n]).value + [entry]
          == HeadersToMetadata(a).value + (HeadersToMetadata(b[..n]).value + [entry]);
    }
  }

  lemma {:induction false} EntriesAt(key: string, vs: seq<MetaValue>)
    ensures forall j :: 0 <= j < |vs| ==> Entries(key, vs)[j] == (key, vs[j])
    decreases |vs|
  {
    if vs != [] {
      EntriesAt(key, vs[..|vs| - 1]);
    }
  }

  /** A key's headers convert back to exactly its entries. */
  lemma RenderAllRoundTrip(key: string, vs: seq<MetaValue>)
    requires forall j :: 0 <= j < |vs| ==> ValidEntry(key, vs[j])
    ensures HeadersToMetadata(RenderAll(key, vs)) == Ok(Entries(key, vs))
  {
    var hs := RenderAll(key, vs);
    forall j | 0 <= j < |hs|
      ensures ConvertHeader(hs[j]) == Ok((key, vs[j]))
    {
      ValidKeyIsLower(key);
      if vs[j].Binary? {
        Base64.DecodeEncode(vs[j].bytes);
      } else {
        AsciiStoredMasks(vs[j].text);
      }
    }
    HeadersToMetadataPointwise(hs);
    EntriesAt(key, vs);
  }

  lemma {:induction false} HeadersOfKeysRoundTrip(m: Metadata, ks: seq<string>)
    requires WellFormed(m)
    ensures HeadersToMetadata(HeadersOfKeys(m, ks)) == Ok(Regroup(m, ks))
    decreases |ks|
  {
    if ks != [] {
      var key := ks[|ks| - 1];
      WellFormedValues(m, key);
      HeadersOfKeysRoundTrip(m, ks[..|ks| - 1]);
      if ValuesOf(m, key) != [] {
        RenderAllRoundTrip(key, ValuesOf(m, key));
      }
      HeadersToMetadataAppend(HeadersOfKeys(m, ks[..|ks| - 1]), RenderAll(key, ValuesOf(m, key)));
    }
  }

  /** Converting the headers `toHeaders` writes gives back metadata that holds
      every key's values unchanged: the decoder accepts the unpadded base64. */
  lemma ToHeadersRoundTrip(m: Metadata)
    requires WellFormed(m)
    ensures HeadersToMetadata(ToHeaders(m)) == Ok(Regroup(m, Keys(m)))
    ensures forall key :: ValuesOf(HeadersToMetadata(ToHeaders(m)).value, key) == ValuesOf(m, key)
  {
    HeadersOfKeysRoundTrip(m, Keys(m));
    forall key ensures ValuesOf(Regroup(m, Keys(m)), key) == ValuesOf(m, key) {
      RegroupKeepsValues(m, key);
    }
  }
}
