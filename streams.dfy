/** Byte streams as the gateway sees them: an input stream read through a
    cursor, an output stream that collects what is written, and the 4-byte
    big-endian length field (`ByteBuffer.getInt`/`putInt`). */
module Streams {
  import opened Common

  /** `java.io.InputStream` over a finite body: the bytes and a cursor. */
  class ByteInput {
    const data: seq<byte>
    var pos: nat

    ghost predicate Valid()
      reads this
    {
      pos <= |data|
    }

    /** The bytes not yet read. */
    function Remaining(): seq<byte>
      reads this
      requires Valid()
    {
      data[pos..]
    }

    constructor (data: seq<byte>)
      ensures Valid() && this.data == data && pos == 0
    {
      this.data := data;
      pos := 0;
    }

    /** `read()`: the next byte as 0..255, or -1 at the end of the stream. */
    method Read() returns (b: int)
      requires Valid()
      modifies this`pos
      ensures Valid()
      ensures old(pos) < |data| ==> b == data[old(pos)] as int && pos == old(pos) + 1
      ensures old(pos) == |data| ==> b == -1 && pos == old(pos)
    {
      if pos < |data| {
        b := data[pos] as int;
        pos := pos + 1;
      } else {
        b := -1;
      }
    }

    /** `read(new byte[n])`: up to `n` bytes; the count read, or -1 when the
        stream is already at its end. */
    method ReadArray(n: nat) returns (count: int, bytes: seq<byte>)
      requires Valid()
      modifies this`pos
      ensures Valid()
      ensures var k := if n <= |old(Remaining())| then n else |old(Remaining())|;
              bytes == old(Remaining())[..k] && pos == old(pos) + k
              && count == (if 0 < n && k == 0 then -1 else k)
    {
      var k := if n <= |data| - pos then n else |data| - pos;
      bytes := data[pos..pos + k];
      count := if 0 < n && k == 0 then -1 else k;
      pos := pos + k;
    }

    /** `readNBytes(n)`: `n` bytes, or every remaining byte when fewer are left. */
    method ReadNBytes(n: nat) returns (bytes: seq<byte>)
      requires Valid()
      modifies this`pos
      ensures Valid()
      ensures var k := if n <= |old(Remaining())| then n else |old(Remaining())|;
              bytes == old(Remaining())[..k] && pos == old(pos) + k
    {
      var k := if n <= |data| - pos then n else |data| - pos;
      bytes := data[pos..pos + k];
      pos := pos + k;
    }
  }

  /** `java.io.OutputStream`: everything written so far, in order. */
  class ByteOutput {
    var written: seq<byte>
    var flushes: nat

    constructor ()
      ensures written == [] && flushes == 0
    {
      written := [];
      flushes := 0;
    }

    method Write(bytes: seq<byte>)
      modifies this`written
      ensures written == old(written) + bytes
    {
      written := written + bytes;
    }

    method Flush()
      modifies this`flushes
      ensures flushes == old(flushes) + 1
    {
      flushes := flushes + 1;
    }
  }

  const TWO_32: nat := 0x1_0000_0000

  /** `Integer.toUnsignedLong(ByteBuffer.wrap(b).getInt())`: four bytes read as
      an unsigned big-endian number. */
  function Uint32(b: seq<byte>): (n: nat)
    requires |b| == 4
    ensures n < TWO_32
  {
    ((b[0] as int * 0x100 + b[1] as int) * 0x100 + b[2] as int) * 0x100 + b[3] as int
  }

  /** `ByteBuffer.allocate(4).putInt(n).array()` for a non-negative `n`. */
  function Uint32Bytes(n: nat): (b: seq<byte>)
    requires n < TWO_32
    ensures |b| == 4
  {
    var r0 := n % 0x100_0000;
    var r1 := r0 % 0x1_0000;
    [(n / 0x100_0000) as byte, (r0 / 0x1_0000) as byte, (r1 / 0x100) as byte, (r1 % 0x100) as byte]
  }

  /** Reading back a written length field gives the length. */
  lemma Uint32RoundTrip(n: nat)
    requires n < TWO_32
    ensures Uint32(Uint32Bytes(n)) == n
  {
    var r0 := n % 0x100_0000;
    var r1 := r0 % 0x1_0000;
    assert n == (n / 0x100_0000) * 0x100_0000 + r0;
    assert r0 == (r0 / 0x1_0000) * 0x1_0000 + r1;
    assert r1 == (r1 / 0x100) * 0x100 + r1 % 0x100;
  }

  /** Writing back a read length field gives the same four bytes. */
  lemma Uint32BytesRoundTrip(b: seq<byte>)
    requires |b| == 4
    ensures Uint32Bytes(Uint32(b)) == b
  {
    var n := Uint32(b);
    var low := (b[1] as int * 0x100 + b[2] as int) * 0x100 + b[3] as int;
    assert n == b[0] as int * 0x100_0000 + low;
    assert n / 0x100_0000 == b[0] as int && n % 0x100_0000 == low;
    var lower := b[2] as int * 0x100 + b[3] as int;
    assert low == b[1] as int * 0x1_0000 + lower;
    assert low / 0x1_0000 == b[1] as int && low % 0x1_0000 == lower;
  }
}
