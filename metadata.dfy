/** `io.grpc.Metadata` as an insertion-ordered list of (key, value) entries,
    with the two views the gateway uses: all values of one key (`getAll`)
    and the distinct keys (`keys()`). */
module MetadataModel {
  import opened Common

  /** `Metadata.BINARY_HEADER_SUFFIX` */
  const BINARY_SUFFIX: string := "-bin"

  /** A character `Metadata.Key` accepts in a (lower-cased) key name. */
  predicate IsKeyChar(c: char) {
    '0' <= c <= '9' || 'a' <= c <= 'z' || c == '-' || c == '_' || c == '.'
  }

  /** `Metadata.Key`'s name check: at least one character, all of them key
      characters. */
  predicate ValidKeyName(key: string) {
    |key| > 0 && forall i :: 0 <= i < |key| ==> IsKeyChar(key[i])
  }

  predicate IsAsciiChar(c: char) { c as int < 128 }

  predicate IsAsciiText(s: string) { forall i :: 0 <= i < |s| ==> IsAsciiChar(s[i]) }

  /** What the ASCII string marshaller stores of a value: `getBytes(US_ASCII)`
      replaces every character outside ASCII with `?`. */
  function AsciiStored(s: string): (r: string)
    ensures |r| == |s|
  {
    seq(|s|, i requires 0 <= i < |s| => if IsAsciiChar(s[i]) then s[i] else '?')
  }

  /** The stored value is all ASCII: each ASCII character is kept, each other
      one becomes `?`, so ASCII text is stored unchanged. */
  lemma AsciiStoredMasks(s: string)
    ensures IsAsciiText(AsciiStored(s))
    ensures forall i :: 0 <= i < |s| ==>
              (IsAsciiChar(s[i]) ==> AsciiStored(s)[i] == s[i]) && (!IsAsciiChar(s[i]) ==> AsciiStored(s)[i] == '?')
    ensures IsAsciiText(s) ==> AsciiStored(s) == s
  {
  }

  /** What `Metadata.Key` and the marshallers guarantee of one stored entry:
      a valid key name; a binary value exactly under a `-bin` key, which has
      more than the suffix; an ASCII value holds ASCII text only. */
  predicate ValidEntry(key: string, v: MetaValue) {
    && ValidKeyName(key)
    && (EndsWith(key, BINARY_SUFFIX) <==> v.Binary?)
    && (v.Binary? ==> |key| > |BINARY_SUFFIX|)
    && (v.Ascii? ==> IsAsciiText(v.text))
  }

  predicate WellFormed(m: Metadata) {
    forall i :: 0 <= i < |m| ==> ValidEntry(m[i].0, m[i].1)
  }

  /** A valid key name is its own lower case, as `Metadata.Key` stores it. */
  lemma ValidKeyIsLower(key: string)
    requires ValidKeyName(key)
    ensures IsLower(key)
  {
    assert forall i :: 0 <= i < |key| ==> Lower(key)[i] == key[i];
  }

  /** `getAll(key)`: the values stored under `key`, in insertion order. */
  function ValuesOf(m: Metadata, key: string): (vs: seq<MetaValue>)
    ensures |vs| <= |m|
  {
    if m == [] then []
    else ValuesOf(m[..|m| - 1], key) + (if m[|m| - 1].0 == key then [m[|m| - 1].1] else [])
  }

  /** `keys()`: each key once, in order of first insertion. */
  function Keys(m: Metadata): (ks: seq<string>)
    ensures Distinct(ks)
    ensures forall k :: k in ks <==> ValuesOf(m, k) != []
  {
    if m == [] then []
    else
      var ks := Keys(m[..|m| - 1]);
      if m[|m| - 1].0 in ks then ks else ks + [m[|m| - 1].0]
  }

  /** The entries `(key, v)` for each `v` of `vs`, in order. */
  function Entries(key: string, vs: seq<MetaValue>): (m: Metadata)
    ensures |m| == |vs|
  {
    if vs == [] then [] else Entries(key, vs[..|vs| - 1]) + [(key, vs[|vs| - 1])]
  }

  /** The values of `m` regrouped key by key, the keys taken in the order of
      `ks`. */
  function Regroup(m: Metadata, ks: seq<string>): Metadata {
    if ks == [] then [] else Regroup(m, ks[..|ks| - 1]) + Entries(ks[|ks| - 1], ValuesOf(m, ks[|ks| - 1]))
  }

  // ------------------------------------------------------------ properties

  lemma {:induction false} ValuesOfAppend(a: Metadata, b: Metadata, key: string)
    ensures ValuesOf(a + b, key) == ValuesOf(a, key) + ValuesOf(b, key)
    decreases |b|
  {
    if b == [] {
      assert a + b == a;
    } else {
      var n := |b| - 1;
      assert (a + b)[..|a + b| - 1] == a + b[..n];
      ValuesOfAppend(a, b[..n], key);
    }
  }

  /** The entries of one key hold exactly its values and nothing for any
      other key. */
  lemma {:induction false} ValuesOfEntries(k: string, vs: seq<MetaValue>, key: string)
    ensures ValuesOf(Entries(k, vs), key) == if k == key then vs else []
    decreases |vs|
  {
    if vs != [] {
      var n := |vs| - 1;
      var init := vs[..n];
      ValuesOfEntries(k, init, key);
      var e := Entries(k, vs);
      assert e[..|e| - 1] == Entries(k, init);
      assert e[|e| - 1] == (k, vs[n]);
      assert ValuesOf(e, key) == ValuesOf(Entries(k, init), key) + (if k == key then [vs[n]] else []);
      if k == key {
        assert vs == init + [vs[n]];
      }
    }
  }

  /** No key is listed twice. */
  predicate Distinct(ks: seq<string>) {
    forall i, j :: 0 <= i < j < |ks| ==> ks[i] != ks[j]
  }

  /** A distinct list splits into a distinct front and a last key that is
      not in the front. */
  lemma DistinctInit(ks: seq<string>)
    requires ks != [] && Distinct(ks)
    ensures Distinct(ks[..|ks| - 1]) && ks[|ks| - 1] !in ks[..|ks| - 1]
  {
    var init := ks[..|ks| - 1];
    forall i, j | 0 <= i < j < |init| ensures init[i] != init[j] {
      assert init[i] == ks[i] && init[j] == ks[j];
    }
    forall i | 0 <= i < |init| ensures init[i] != ks[|ks| - 1] {
      assert init[i] == ks[i];
    }
  }

  lemma InSplit(ks: seq<string>, key: string)
    requires ks != []
    ensures key in ks <==> key in ks[..|ks| - 1] || key == ks[|ks| - 1]
  {
    assert ks == ks[..|ks| - 1] + [ks[|ks| - 1]];
  }

  /** One step of `Regroup`, seen through `ValuesOf`. */
  lemma RegroupStep(m: Metadata, ks: seq<string>, key: string)
    requires ks != []
    ensures ValuesOf(Regroup(m, ks), key)
         == ValuesOf(Regroup(m, ks[..|ks| - 1]), key) + (if ks[|ks| - 1] == key then ValuesOf(m, key) else [])
  {
    var last := ks[|ks| - 1];
    ValuesOfAppend(Regroup(m, ks[..|ks| - 1]), Entries(last, ValuesOf(m, last)), key);
    ValuesOfEntries(last, ValuesOf(m, last), key);
  }

  /** Regrouping over distinct keys keeps every listed key's values. */
  lemma {:induction false} ValuesOfRegroup(m: Metadata, ks: seq<string>, key: string)
    requires Distinct(ks)
    ensures ValuesOf(Regroup(m, ks), key) == if key in ks then ValuesOf(m, key) else []
    decreases |ks|
  {
    if ks != [] {
      var n := |ks| - 1;
      var init, last := ks[..n], ks[n];
      DistinctInit(ks);
      ValuesOfRegroup(m, init, key);
      RegroupStep(m, ks, key);
      InSplit(ks, key);
      if key == last {
        assert ValuesOf(Regroup(m, ks), key) == [] + ValuesOf(m, key);
      } else {
        assert ValuesOf(Regroup(m, ks), key) == ValuesOf(Regroup(m, init), key) + [];
      }
    }
  }

  /** Regrouping by `keys()` changes no key's values. */
  lemma RegroupKeepsValues(m: Metadata, key: string)
    ensures ValuesOf(Regroup(m, Keys(m)), key) == ValuesOf(m, key)
  {
    ValuesOfRegroup(m, Keys(m), key);
  }

  /** In well-formed metadata every value a key holds forms a valid entry
      with that key. */
  lemma {:induction false} WellFormedValues(m: Metadata, key: string)
    requires WellFormed(m)
    ensures forall j :: 0 <= j < |ValuesOf(m, key)| ==> ValidEntry(key, ValuesOf(m, key)[j])
    decreases |m|
  {
    if m != [] {
      var init := m[..|m| - 1];
      assert WellFormed(init) by {
        assert forall i :: 0 <= i < |init| ==> init[i] == m[i];
      }
      WellFormedValues(init, key);
    }
  }
}
