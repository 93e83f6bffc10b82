/** The flag byte of a gRPC-Web frame (FrameFlag.java): bit 0x01 marks a
    compressed payload, bit 0x80 a trailer frame. Flags travel as a Java
    `int`, modelled as `bv32`. */
module FrameFlags {

  datatype FrameFlag = Compressed | Trailers

  /** `FrameFlag.values()`, in declaration order. */
  const Values: seq<FrameFlag> := [Compressed, Trailers]

  function Bitmask(f: FrameFlag): bv32 {
    if f == Compressed then 0x01 else 0x80
  }

  /** The flags whose bit is set in `flags`. */
  function FlagsOf(flags: bv32): set<FrameFlag> {
    (if flags & 0x01 != 0 then {Compressed} else {})
    + (if flags & 0x80 != 0 then {Trailers} else {})
  }

  /** The OR of the bitmasks of the members of `flagsSet`. */
  function BitsOf(flagsSet: set<FrameFlag>): bv32 {
    (if Compressed in flagsSet then 0x01 else 0x00) | (if Trailers in flagsSet then 0x80 else 0x00)
  }

  /** `FrameFlag.decode(int)`: collects, in a loop over all flags, those whose
      bit is set in `flags`. */
  method Decode(flags: bv32) returns (flagsSet: set<FrameFlag>)
    ensures forall f :: f in flagsSet <==> flags & Bitmask(f) != 0
    ensures flagsSet == FlagsOf(flags)
  {
    flagsSet := {};
    var i := 0;
    while i < |Values|
      invariant 0 <= i <= |Values|
      invariant flagsSet == FlagsOf(flags) * (set f | f in Values[..i])
    {
      var flag := Values[i];
      BitmaskSelects(flags, flag);
      assert Values[..i + 1] == Values[..i] + [flag];
      if flags & Bitmask(flag) != 0 {
        flagsSet := flagsSet + {flag};
      }
      i := i + 1;
    }
    assert Values[..i] == Values;
    assert (set f | f in Values) == {Compressed, Trailers} by {
      assert Values[0] == Compressed && Values[1] == Trailers;
    }
    forall f ensures f in flagsSet <==> flags & Bitmask(f) != 0 {
      BitmaskSelects(flags, f);
    }
  }

  /** A flag's bitmask tests exactly its membership in the decoded set. */
  lemma BitmaskSelects(flags: bv32, f: FrameFlag)
    ensures flags & Bitmask(f) != 0 <==> f in FlagsOf(flags)
  {
  }

  /** `FrameFlag.encode(Set)`: ORs, in a loop over the set, the bitmask of each
      member into a word that starts at 0. */
  method Encode(flagsSet: set<FrameFlag>) returns (flags: bv32)
    ensures flags == BitsOf(flagsSet)
  {
    flags := 0x00;
    var rest := flagsSet;
    ghost var done: set<FrameFlag> := {};
    while rest != {}
      invariant rest <= flagsSet
      invariant done == flagsSet - rest
      invariant flags == BitsOf(done)
      decreases rest
    {
      var flag :| flag in rest;
      BitsOfAdd(done, flag);
      flags := flags | Bitmask(flag);
      rest := rest - {flag};
      done := done + {flag};
    }
  }

  /** Adding one flag to a set ORs its bitmask into the encoding. */
  lemma BitsOfAdd(s: set<FrameFlag>, f: FrameFlag)
    ensures BitsOf(s + {f}) == BitsOf(s) | Bitmask(f)
  {
  }

  /** Every flag set encodes to one of 0x00, 0x01, 0x80, 0x81, which fits the
      one-byte flag field; the empty set encodes to 0. */
  lemma EncodingFitsFlagByte(flagsSet: set<FrameFlag>)
    ensures BitsOf(flagsSet) in {0x00, 0x01, 0x80, 0x81}
    ensures BitsOf(flagsSet) < 0x100
    ensures BitsOf({}) == 0x00
  {
  }

  /** Decoding an encoded flag set gives the set back. */
  lemma DecodeEncode(flagsSet: set<FrameFlag>)
    ensures FlagsOf(BitsOf(flagsSet)) == flagsSet
  {
    forall f ensures f in FlagsOf(BitsOf(flagsSet)) <==> f in flagsSet {
      if f == Compressed { } else { }
    }
  }

  /** Decoding looks only at bits 0x01 and 0x80. */
  lemma DecodeIgnoresOtherBits(flags: bv32)
    ensures FlagsOf(flags) == FlagsOf(flags & 0x81)
  {
  }
}
