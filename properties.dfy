/**
 * What callers of ByteBuffer can rely on, stated over sequences of calls:
 * the documented byte order, round trips through the typed accessors, the
 * default offsets of reads and writes, and the independence of copies.
 */
module BufferProperties {
  import opened Wrappers
  import opened Bytes
  import opened PackFormat
  import opened ByteBufferModel

  /** On a 4-byte buffer, writeUInt32BE(0x01020304, 0) stores [1, 2, 3, 4], which readUInt32LE(0) reads as 0x04030201. */
  method WorkedExample() returns (bytes: seq<byte>, r: Option<int>)
    ensures bytes == [1, 2, 3, 4]
    ensures r == Some(0x04030201)
  {
    var b := new ByteBuffer(Int(4));
    ghost var zeros := b.buffer;
    ByteOrderExample();
    var w := b.WriteUInt32BE(0x01020304, Some(0));
    assert b.buffer == Splice(zeros, 0, [1, 2, 3, 4]);
    assert b.buffer == [1, 2, 3, 4];
    bytes := b.ToString();
    r := b.ReadUInt32LE(Some(0));
    assert b.buffer[0..4] == [1, 2, 3, 4];
  }

  /** from(s) holds exactly the bytes of s, so toString() gives s back. */
  method StringRoundTrip(s: seq<byte>) returns (t: seq<byte>)
    ensures t == s
  {
    var b := ByteBuffer.From(Str(s));
    t := b.ToString();
  }

  /** from(n) for an integer n holds n zero bytes (none when n <= 0). */
  method ZeroFilled(n: int) returns (t: seq<byte>)
    ensures |t| == if n > 0 then n else 0
    ensures forall i :: 0 <= i < |t| ==> t[i] == 0
  {
    var b := ByteBuffer.From(Int(n));
    t := b.ToString();
  }

  /**
   * Writing v with a typed accessor at an in-range offset o and reading it
   * back with the same code at o gives v reduced to the field: modulo 256^w
   * for 8, 16 and 32 bits, exactly for 64 bits.
   */
  method RoundTrip(b: ByteBuffer, f: Format, v: int, o: int) returns (w: Option<nat>, r: Option<int>)
    requires b.Valid() && IsPhpInt(v)
    requires 0 <= o && o + Width(f) <= b.length
    modifies b
    ensures b.Valid() && b.length == old(b.length)
    ensures w == Some(o + Width(f)) && b.offset == o + Width(f)
    ensures r == Some(if Width(f) == 8 then v else v % Pow256(Width(f)))
  {
    match f
    case U8 => w, r := RoundTrip8(b, v, o);
    case U16BE | U16LE => w, r := RoundTrip16(b, f, v, o);
    case U32BE | U32LE => w, r := RoundTrip32(b, f, v, o);
    case U64BE | U64LE => w, r := RoundTrip64(b, f, v, o);
  }

  /** The round trip for the 8-bit accessors. */
  method RoundTrip8(b: ByteBuffer, v: int, o: int) returns (w: Option<nat>, r: Option<int>)
    requires b.Valid() && IsPhpInt(v)
    requires 0 <= o && o + 1 <= b.length
    modifies b
    ensures b.Valid() && b.length == old(b.length)
    ensures w == Some(o + 1) && b.offset == o + 1
    ensures r == Some(v % 0x100)
  {
    w := b.WriteUInt8(v, Some(o));
    r := b.ReadUInt8(Some(o));
  }

  /** The round trip for the 16-bit accessors. */
  method RoundTrip16(b: ByteBuffer, f: Format, v: int, o: int) returns (w: Option<nat>, r: Option<int>)
    requires f == U16BE || f == U16LE
    requires b.Valid() && IsPhpInt(v)
    requires 0 <= o && o + 2 <= b.length
    modifies b
    ensures b.Valid() && b.length == old(b.length)
    ensures w == Some(o + 2) && b.offset == o + 2
    ensures r == Some(v % Pow256(2))
  {
    if f == U16BE {
      w := b.WriteUInt16BE(v, Some(o));
      r := b.ReadUInt16BE(Some(o));
    } else {
      w := b.WriteUInt16LE(v, Some(o));
      r := b.ReadUInt16LE(Some(o));
    }
  }

  /** The round trip for the 32-bit accessors. */
  method RoundTrip32(b: ByteBuffer, f: Format, v: int, o: int) returns (w: Option<nat>, r: Option<int>)
    requires f == U32BE || f == U32LE
    requires b.Valid() && IsPhpInt(v)
    requires 0 <= o && o + 4 <= b.length
    modifies b
    ensures b.Valid() && b.length == old(b.length)
    ensures w == Some(o + 4) && b.offset == o + 4
    ensures r == Some(v % Pow256(4))
  {
    if f == U32BE {
      w := b.WriteUInt32BE(v, Some(o));
      r := b.ReadUInt32BE(Some(o));
    } else {
      w := b.WriteUInt32LE(v, Some(o));
      r := b.ReadUInt32LE(Some(o));
    }
  }

  /** The round trip for the 64-bit accessors. */
  method RoundTrip64(b: ByteBuffer, f: Format, v: int, o: int) returns (w: Option<nat>, r: Option<int>)
    requires f == U64BE || f == U64LE
    requires b.Valid() && IsPhpInt(v)
    requires 0 <= o && o + 8 <= b.length
    modifies b
    ensures b.Valid() && b.length == old(b.length)
    ensures w == Some(o + 8) && b.offset == o + 8
    ensures r == Some(v)
  {
    if f == U64BE {
      w := b.WriteUInt64BE(v, Some(o));
      r := b.ReadUInt64BE(Some(o));
      AsInt64OfMod(v);
    } else {
      w := b.WriteUInt64LE(v, Some(o));
      r := b.ReadUInt64LE(Some(o));
      AsInt64OfMod(v);
    }
  }

  /**
   * A write with no offset targets index 0 whatever the cursor is, and a
   * read with no offset starts at the cursor the write left behind.
   */
  method DefaultOffsets(b: ByteBuffer, v: byte) returns (w: Option<nat>, r: Option<int>)
    requires b.Valid() && b.length >= 2
    modifies b
    ensures w == Some(1)
    ensures b.buffer == old(b.buffer)[0 := v]
    ensures r == Some(old(b.buffer)[1]) && b.offset == 2
  {
    w := b.WriteUInt8(v);
    r := b.ReadUInt8();
  }

  /** A slice and its source share no storage: a write into either leaves the other as it was. */
  method SliceIsolation(b: ByteBuffer, o: nat, n: int, v: byte, u: byte) returns (s: ByteBuffer)
    requires b.Valid() && b.length >= 1
    modifies b
    ensures fresh(s)
    ensures var copied := ArraySlice(old(b.buffer), o, n);
      s.buffer == if |copied| > 0 then copied[0 := v] else copied
    ensures b.buffer == old(b.buffer)[0 := u]
  {
    s := b.Slice(o, n);
    var _ := s.WriteUInt8(v, Some(0));
    assert b.buffer == old(b.buffer);
    var _ := b.WriteUInt8(u, Some(0));
  }

  /**
   * from(other) copies other's bytes: a write to the copy leaves the
   * original as it was, and a later write to the original leaves the copy.
   */
  method CopyIsolation(b: ByteBuffer, v: byte, u: byte) returns (c: ByteBuffer)
    requires b.Valid() && b.length >= 1
    modifies b
    ensures fresh(c) && c.length == b.length
    ensures c.buffer == old(b.buffer)[0 := v]
    ensures b.buffer == old(b.buffer)[0 := u]
  {
    c := ByteBuffer.From(Buffer(b));
    var _ := c.WriteUInt8(v, Some(0));
    assert b.buffer == old(b.buffer);
    var _ := b.WriteUInt8(u, Some(0));
  }
}
