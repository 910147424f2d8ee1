/**
 * PHP's `pack` and `unpack` restricted to the single-value integer format
 * codes the buffer uses, over the codecs of module Bytes.
 */
module PackFormat {
  import opened Wrappers
  import opened Bytes

  /**
   * The format codes: C (8-bit), n/v (16-bit big/little endian),
   * N/V (32-bit big/little endian), J/P (64-bit big/little endian).
   */
  datatype Format = U8 | U16BE | U16LE | U32BE | U32LE | U64BE | U64LE

  /** The number of bytes one value of the format occupies. */
  function Width(f: Format): nat
  {
    match f
    case U8 => 1
    case U16BE | U16LE => 2
    case U32BE | U32LE => 4
    case U64BE | U64LE => 8
  }

  /** Codes that put the most significant byte first (C has a single byte). */
  predicate BigEndian(f: Format)
  {
    f == U8 || f == U16BE || f == U32BE || f == U64BE
  }

  /** The range of a native PHP integer on a 64-bit build. */
  const Int64Min: int := -0x8000_0000_0000_0000
  const Int64Max: int := 0x7FFF_FFFF_FFFF_FFFF

  predicate IsPhpInt(v: int)
  {
    Int64Min <= v <= Int64Max
  }

  /** The native (signed) PHP integer whose 64-bit two's-complement pattern is u. */
  function AsInt64(u: nat): (r: int)
    requires u < Pow256(8)
    ensures IsPhpInt(r)
    ensures r % Pow256(8) == u
    ensures u <= Int64Max ==> r == u
  {
    Pow256Values();
    if u <= Int64Max then u else u - Pow256(8)
  }

  /** Reinterpreting the low 64 bits of a PHP integer as signed gives the integer back. */
  lemma AsInt64OfMod(v: int)
    requires IsPhpInt(v)
    ensures AsInt64(v % Pow256(8)) == v
  {
    Pow256Values();
  }

  /**
   * pack(f, value): the low Width(f) bytes of value's two's complement,
   * in f's byte order.
   */
  function Pack(f: Format, value: int): (r: seq<byte>)
    ensures |r| == Width(f)
    ensures BigEndian(f) ==> DecodeBE(r) == value % Pow256(Width(f))
    ensures !BigEndian(f) ==> DecodeLE(r) == value % Pow256(Width(f))
  {
    var u := value % Pow256(Width(f));
    if BigEndian(f) then EncodeBE(u, Width(f)) else EncodeLE(u, Width(f))
  }

  /** The unsigned value of a field of format f. */
  function FieldValue(f: Format, field: seq<byte>): (r: nat)
    ensures r < Pow256(|field|)
  {
    if BigEndian(f) then DecodeBE(field) else DecodeLE(field)
  }

  /**
   * unpack(f, bytes) for a single-value code: `false` (None) when bytes is
   * shorter than one field, otherwise the value of the first Width(f) bytes;
   * J and P yield PHP's signed native integer.
   */
  function Unpack(f: Format, bytes: seq<byte>): (r: Option<int>)
    ensures r.None? <==> |bytes| < Width(f)
    ensures r.Some? ==> IsPhpInt(r.value)
    ensures r.Some? && Width(f) < 8 ==> 0 <= r.value < Pow256(Width(f))
  {
    if |bytes| < Width(f) then None
    else
      var u := FieldValue(f, bytes[..Width(f)]);
      Pow256Values();
      Some(if Width(f) == 8 then AsInt64(u) else u)
  }

  /** Unpacking exactly one field reads all of its bytes. */
  lemma UnpackField(f: Format, field: seq<byte>)
    requires |field| == Width(f)
    ensures Unpack(f, field) == Some(if Width(f) == 8 then AsInt64(FieldValue(f, field)) else FieldValue(f, field))
  {
    assert field[..Width(f)] == field;
  }

  /**
   * Unpacking what pack produced gives the value back, reduced to the field:
   * modulo 256^w for the unsigned 8/16/32-bit codes, and exactly for J and P.
   */
  lemma UnpackPack(f: Format, v: int)
    requires IsPhpInt(v)
    ensures Unpack(f, Pack(f, v)) == Some(if Width(f) == 8 then v else v % Pow256(Width(f)))
  {
    var bytes := Pack(f, v);
    UnpackField(f, bytes);
    assert FieldValue(f, bytes) == v % Pow256(Width(f));
    if Width(f) == 8 {
      AsInt64OfMod(v);
    }
  }

  /** In particular every value that fits the field unsigned (and below 2^63 for J, P) comes back unchanged. */
  lemma UnpackPackInRange(f: Format, v: int)
    requires 0 <= v < Pow256(Width(f))
    requires v <= Int64Max
    ensures Unpack(f, Pack(f, v)) == Some(v)
  {
    UnpackPack(f, v);
    if Width(f) < 8 {
      ModOfFieldValue(v, Pow256(Width(f)));
    }
  }

  /** A value that fits a field is its own remainder modulo the field's range. */
  lemma ModOfFieldValue(v: int, m: int)
    requires 0 <= v < m
    ensures v % m == v
  {
  }

  /** Packing what unpack read from a whole field gives the same bytes back. */
  lemma PackUnpack(f: Format, bytes: seq<byte>)
    requires |bytes| == Width(f)
    ensures Unpack(f, bytes).Some?
    ensures Pack(f, Unpack(f, bytes).value) == bytes
  {
    var u := FieldValue(f, bytes);
    UnpackField(f, bytes);
    var x := Unpack(f, bytes).value;
    assert x % Pow256(Width(f)) == u by {
      if Width(f) < 8 {
        ModOfFieldValue(u, Pow256(Width(f)));
      }
    }
    if BigEndian(f) {
      EncodeDecodeBE(bytes);
    } else {
      EncodeDecodeLE(bytes);
    }
  }

  /** The big-endian code of the same width as a little-endian one: v to n, V to N, P to J. */
  function BigEndianPartner(f: Format): (g: Format)
    requires !BigEndian(f)
    ensures BigEndian(g) && Width(g) == Width(f)
  {
    match f
    case U16LE => U16BE
    case U32LE => U32BE
    case U64LE => U64BE
  }

  /** A little-endian code reads the same value as its big-endian partner reads from the reversed bytes. */
  lemma ByteOrderSymmetry(f: Format, s: seq<byte>)
    requires !BigEndian(f)
    requires |s| == Width(f)
    ensures Unpack(f, s) == Unpack(BigEndianPartner(f), Reverse(s))
  {
    var g := BigEndianPartner(f);
    var r := Reverse(s);
    UnpackField(f, s);
    UnpackField(g, r);
    DecodeBEIsReversedLE(r);
    ReverseReverse(s);
    assert FieldValue(f, s) == FieldValue(g, r);
  }

  /** The decodings the worked example needs, unfolded byte by byte. */
  lemma DecodeBEExample()
    ensures DecodeBE([1, 2, 3, 4]) == 0x01020304
  {
    assert [1, 2, 3, 4][..3] == [1, 2, 3] && [1, 2, 3][..2] == [1, 2] && [1, 2][..1] == [1];
  }

  lemma DecodeLEExamples()
    ensures DecodeLE([4, 3, 2, 1]) == 0x01020304
    ensures DecodeLE([1, 2, 3, 4]) == 0x04030201
  {
    assert [4, 3, 2, 1][1..] == [3, 2, 1] && [3, 2, 1][1..] == [2, 1] && [2, 1][1..] == [1];
    assert [1, 2, 3, 4][1..] == [2, 3, 4] && [2, 3, 4][1..] == [3, 4] && [3, 4][1..] == [4];
  }

  /**
   * Worked example: N packs 0x01020304 as [1, 2, 3, 4], V packs it as
   * [4, 3, 2, 1], and V reads [1, 2, 3, 4] as 0x04030201.
   */
  lemma ByteOrderExample()
    ensures EncodeBE(0x01020304 % Pow256(4), 4) == [1, 2, 3, 4]
    ensures EncodeLE(0x01020304 % Pow256(4), 4) == [4, 3, 2, 1]
    ensures DecodeLE([1, 2, 3, 4]) == 0x04030201
  {
    assert 0x01020304 % Pow256(4) == 0x01020304 by {
      Pow256Values();
    }
    DecodeBEExample();
    DecodeLEExamples();
    EncodeDecodeBE([1, 2, 3, 4]);
    EncodeDecodeLE([4, 3, 2, 1]);
  }
}
