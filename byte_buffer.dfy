/**
 * The ByteBuffer class: a byte array of fixed length with a cursor, typed
 * bounds-checked reads and writes of unsigned 8/16/32/64-bit fields in
 * either byte order, slicing and conversion back to a byte string.
 */
module ByteBufferModel {
  import opened Wrappers
  import opened Bytes
  import opened PackFormat

  /**
   * The runtime shapes valueOf tells apart (is_int, is_array, a ByteBuffer
   * object, anything else coerced to a string). PHP's null is Str([]): it
   * unpacks to no bytes.
   */
  datatype Input =
    | Int(n: int)
    | Array(values: seq<byte>)
    | Buffer(source: ByteBuffer)
    | Str(bytes: seq<byte>)

  /**
   * The first n bytes of bytes, zero-padded to n: array_slice(bytes, 0, n)
   * followed by array_pad, and the loop of writeValue that stores the packed
   * bytes and zeros past their end.
   */
  function TakePadded(bytes: seq<byte>, n: nat): (r: seq<byte>)
    ensures |r| == n
    ensures n <= |bytes| ==> r == bytes[..n]
    ensures n >= |bytes| ==> r[..|bytes|] == bytes
    ensures forall i :: |bytes| <= i < n ==> r[i] == 0
  {
    seq(n, i requires 0 <= i < n => if i < |bytes| then bytes[i] else 0)
  }

  /**
   * The bytes valueOf keeps of an unpacked string for a requested length
   * len: the first len bytes, zero-padded to len, when len > 0, and the
   * whole string otherwise.
   */
  function Fit(bytes: seq<byte>, len: int): (r: seq<byte>)
    ensures len > 0 ==> |r| == len
    ensures len <= 0 ==> r == bytes
    ensures forall i :: 0 <= i < |r| ==> r[i] == if i < |bytes| then bytes[i] else 0
  {
    if len > 0 then TakePadded(bytes, len) else bytes
  }

  /**
   * The buffer valueOf builds from an integer or a string. An integer with
   * no length is itself the length and the data becomes null; an integer
   * with a length is coerced to its decimal string.
   */
  function StringPath(data: Input, len: int): (r: seq<byte>)
    requires data.Int? || data.Str?
    ensures data.Int? && len == 0 ==> |r| == (if data.n > 0 then data.n else 0)
    ensures data.Int? && len == 0 ==> forall i :: 0 <= i < |r| ==> r[i] == 0
    ensures data.Int? && len != 0 ==> r == Fit(DecimalString(data.n), len)
    ensures data.Str? ==> r == Fit(data.bytes, len)
  {
    match data
    case Int(n) => if len == 0 then Fit([], n) else Fit(DecimalString(n), len)
    case Str(s) => Fit(s, len)
  }

  /**
   * array_slice(s, o, n) for a start o >= 0: up to n elements from o, or
   * for n < 0 everything from o up to |n| elements before the end; nothing
   * when o is past the end.
   */
  function ArraySlice(s: seq<byte>, o: nat, n: int): (r: seq<byte>)
    ensures forall i :: 0 <= i < |r| ==> o + i < |s| && r[i] == s[o + i]
    ensures n >= 0 ==> |r| == if o + n <= |s| then n else if o <= |s| then |s| - o else 0
    ensures n < 0 ==> |r| == if o <= |s| + n then |s| + n - o else 0
  {
    if o >= |s| then []
    else
      var end := if n >= 0 then (if o + n < |s| then o + n else |s|)
                 else (if |s| + n > o then |s| + n else o);
      s[o..end]
  }

  /** s with the bytes from index o on replaced by field. */
  function Splice(s: seq<byte>, o: nat, field: seq<byte>): (r: seq<byte>)
    requires o + |field| <= |s|
    ensures |r| == |s|
    ensures forall i :: 0 <= i < |s| ==> r[i] == if o <= i < o + |field| then field[i - o] else s[i]
    ensures r[o..o + |field|] == field
  {
    s[..o] + field + s[o + |field|..]
  }

  /** The offset a call uses: the explicit one, or the cursor for null. */
  function Resolve(off: Option<int>, cursor: nat): int
  {
    match off
    case None => cursor
    case Some(o) => o
  }

  /** The field [o, o + width) lies inside a buffer of the given length. */
  predicate InBounds(o: int, width: nat, length: nat)
  {
    0 <= o && o + width <= length
  }

  /** A full-width field stores exactly what pack produced, and the constants the accessors name. */
  lemma WholeField(f: Format, v: int)
    ensures TakePadded(Pack(f, v), Width(f)) == Pack(f, v)
    ensures f == U8 ==> Pack(f, v) == [v % 0x100]
  {
    Pow256Values();
    var p := Pack(f, v);
    assert p[..|p|] == p;
  }

  class ByteBuffer {
    var length: nat
    var buffer: seq<byte>
    var offset: nat

    /** The backing array holds exactly length bytes. */
    ghost predicate Valid()
      reads this
    {
      |buffer| == length
    }

    /** __construct: an empty buffer at cursor 0, then valueOf(data, len). */
    constructor (data: Input := Str([]), len: int := 0)
      requires data.Buffer? ==> data.source.Valid()
      ensures Valid() && offset == 0
      ensures data.Array? ==> buffer == data.values
      ensures data.Buffer? ==> buffer == data.source.buffer && length == data.source.length
      ensures data.Int? || data.Str? ==> buffer == StringPath(data, len)
    {
      length, buffer, offset := 0, [], 0;
      new;
      ValueOf(data, len);
    }

    /** from: a new buffer built as the constructor builds it. */
    static method From(data: Input := Str([]), len: int := 0) returns (b: ByteBuffer)
      requires data.Buffer? ==> data.source.Valid()
      ensures fresh(b) && b.Valid() && b.offset == 0
      ensures data.Array? ==> b.buffer == data.values
      ensures data.Buffer? ==> b.buffer == data.source.buffer && b.length == data.source.length
      ensures data.Int? || data.Str? ==> b.buffer == StringPath(data, len)
    {
      b := new ByteBuffer(data, len);
    }

    /**
     * valueOf: adopts an array or copies another buffer's bytes and length,
     * resetting the cursor; otherwise unpacks a string (or makes a zero
     * buffer of an integer length) and leaves the cursor where it was.
     */
    method ValueOf(data: Input := Str([]), len: int := 0)
      requires data.Buffer? ==> data.source.Valid()
      modifies this
      ensures Valid()
      ensures data.Array? ==> buffer == data.values && offset == 0
      ensures data.Buffer? ==> buffer == old(data.source.buffer) && length == old(data.source.length) && offset == 0
      ensures data.Int? || data.Str? ==> buffer == StringPath(data, len) && offset == old(offset)
    {
      var s: seq<byte>, l := [], len;
      if len == 0 && data.Int? {
        s, l := [], data.n;
      } else if data.Array? {
        offset, buffer, length := 0, data.values, |data.values|;
        return;
      } else if data.Buffer? {
        offset, buffer, length := 0, data.source.buffer, data.source.length;
        return;
      } else if data.Int? {
        s := DecimalString(data.n);
      } else {
        s := data.bytes;
      }
      var bytes := Fit(s, l);
      length, buffer := |bytes|, bytes;
    }

    /** toString: the buffer's bytes as a byte string. */
    method ToString() returns (s: seq<byte>)
      requires Valid()
      ensures s == buffer
    {
      s := [];
      var index := 0;
      while index < length
        invariant 0 <= index <= length
        invariant s == buffer[..index]
      {
        s := s + [buffer[index]];
        index := index + 1;
      }
    }

    /**
     * readValue: out of bounds it fails and changes nothing; otherwise it
     * moves the cursor past the field and unpacks the bytes read, which
     * fails (after the cursor moved) when they are fewer than the format needs.
     */
    method ReadValue(format: Format := U8, off: Option<int> := Some(0), width: nat := 1) returns (r: Option<int>)
      requires Valid()
      modifies this`offset
      ensures buffer == old(buffer)
      ensures var o := Resolve(off, old(offset));
        if InBounds(o, width, length) then r == Unpack(format, buffer[o..o + width]) && offset == o + width
        else r == None && offset == old(offset)
    {
      var o := Resolve(off, offset);
      if o < 0 || o + width > length {
        return None;
      }
      var bytes := [];
      var index := 0;
      while index < width
        invariant 0 <= index <= width
        invariant bytes == buffer[o..o + index]
      {
        bytes := bytes + [buffer[o + index]];
        index := index + 1;
      }
      offset := o + width;
      r := Unpack(format, bytes);
    }

    /**
     * writeValue: out of bounds it fails and changes nothing; otherwise it
     * stores the first width bytes of pack(format, value), zeros past their
     * end, touches no other byte, and returns the cursor it moves past the field.
     */
    method WriteValue(value: int := 0, format: Format := U8, off: Option<int> := Some(0), width: nat := 1)
      returns (r: Option<nat>)
      requires Valid()
      requires IsPhpInt(value)
      modifies this`buffer, this`offset
      ensures Valid() && length == old(length)
      ensures var o := Resolve(off, old(offset));
        if InBounds(o, width, length) then
          buffer == Splice(old(buffer), o, TakePadded(Pack(format, value), width))
          && offset == o + width && r == Some(o + width)
        else buffer == old(buffer) && offset == old(offset) && r == None
    {
      var o := Resolve(off, offset);
      if o < 0 || o + width > length {
        return None;
      }
      var packed := Pack(format, value);
      ghost var field := TakePadded(packed, width);
      var index := 0;
      while index < width
        invariant 0 <= index <= width
        invariant |buffer| == length
        invariant forall i :: 0 <= i < length ==>
          buffer[i] == if o <= i < o + index then field[i - o] else old(buffer)[i]
      {
        var b := 0;
        if index < |packed| {
          b := packed[index];
        }
        buffer := buffer[o + index := b];
        index := index + 1;
      }
      assert buffer == Splice(old(buffer), o, field);
      offset := o + width;
      r := Some(offset);
    }

    /** Reads a 8-bit field with code C, at the cursor unless an offset is given. */
    method ReadUInt8(off: Option<int> := None) returns (r: Option<int>)
      requires Valid()
      modifies this`offset
      ensures buffer == old(buffer)
      ensures var o := Resolve(off, old(offset));
        if InBounds(o, 1, length) then r == Some(buffer[o]) && offset == o + 1
        else r == None && offset == old(offset)
    {
      r := ReadValue(U8, off, 1);
      ghost var o := Resolve(off, old(offset));
      if InBounds(o, 1, length) {
        UnpackField(U8, buffer[o..o + 1]);
      }
    }

    /** Reads a 16-bit field with code n, at the cursor unless an offset is given. */
    method ReadUInt16BE(off: Option<int> := None) returns (r: Option<int>)
      requires Valid()
      modifies this`offset
      ensures buffer == old(buffer)
      ensures var o := Resolve(off, old(offset));
        if InBounds(o, 2, length) then r == Some(DecodeBE(buffer[o..o + 2])) && offset == o + 2
        else r == None && offset == old(offset)
    {
      r := ReadValue(U16BE, off, 2);
      ghost var o := Resolve(off, old(offset));
      if InBounds(o, 2, length) {
        UnpackField(U16BE, buffer[o..o + 2]);
      }
    }

    /** Reads a 16-bit field with code v, at the cursor unless an offset is given. */
    method ReadUInt16LE(off: Option<int> := None) returns (r: Option<int>)
      requires Valid()
      modifies this`offset
      ensures buffer == old(buffer)
      ensures var o := Resolve(off, old(offset));
        if InBounds(o, 2, length) then r == Some(DecodeLE(buffer[o..o + 2])) && offset == o + 2
        else r == None && offset == old(offset)
    {
      r := ReadValue(U16LE, off, 2);
      ghost var o := Resolve(off, old(offset));
      if InBounds(o, 2, length) {
        UnpackField(U16LE, buffer[o..o + 2]);
      }
    }

    /** Reads a 32-bit field with code N, at the cursor unless an offset is given. */
    method ReadUInt32BE(off: Option<int> := None) returns (r: Option<int>)
      requires Valid()
      modifies this`offset
      ensures buffer == old(buffer)
      ensures var o := Resolve(off, old(offset));
        if InBounds(o, 4, length) then r == Some(DecodeBE(buffer[o..o + 4])) && offset == o + 4
        else r == None && offset == old(offset)
    {
      r := ReadValue(U32BE, off, 4);
      ghost var o := Resolve(off, old(offset));
      if InBounds(o, 4, length) {
        UnpackField(U32BE, buffer[o..o + 4]);
      }
    }

    /** Reads a 32-bit field with code V, at the cursor unless an offset is given. */
    method ReadUInt32LE(off: Option<int> := None) returns (r: Option<int>)
      requires Valid()
      modifies this`offset
      ensures buffer == old(buffer)
      ensures var o := Resolve(off, old(offset));
        if InBounds(o, 4, length) then r == Some(DecodeLE(buffer[o..o + 4])) && offset == o + 4
        else r == None && offset == old(offset)
    {
      r := ReadValue(U32LE, off, 4);
      ghost var o := Resolve(off, old(offset));
      if InBounds(o, 4, length) {
        UnpackField(U32LE, buffer[o..o + 4]);
      }
    }

    /** Reads a 64-bit field with code J as PHP's signed native integer, at the cursor unless an offset is given. */
    method ReadUInt64BE(off: Option<int> := None) returns (r: Option<int>)
      requires Valid()
      modifies this`offset
      ensures buffer == old(buffer)
      ensures var o := Resolve(off, old(offset));
        if InBounds(o, 8, length) then r == Some(AsInt64(DecodeBE(buffer[o..o + 8]))) && offset == o + 8
        else r == None && offset == old(offset)
    {
      r := ReadValue(U64BE, off, 8);
      ghost var o := Resolve(off, old(offset));
      if InBounds(o, 8, length) {
        UnpackField(U64BE, buffer[o..o + 8]);
      }
    }

    /** Reads a 64-bit field with code P as PHP's signed native integer, at the cursor unless an offset is given. */
    method ReadUInt64LE(off: Option<int> := None) returns (r: Option<int>)
      requires Valid()
      modifies this`offset
      ensures buffer == old(buffer)
      ensures var o := Resolve(off, old(offset));
        if InBounds(o, 8, length) then r == Some(AsInt64(DecodeLE(buffer[o..o + 8]))) && offset == o + 8
        else r == None && offset == old(offset)
    {
      r := ReadValue(U64LE, off, 8);
      ghost var o := Resolve(off, old(offset));
      if InBounds(o, 8, length) {
        UnpackField(U64LE, buffer[o..o + 8]);
      }
    }

    /** Writes value as a 8-bit field with code C, at offset 0 unless an offset (or null, for the cursor) is given. */
    method WriteUInt8(value: int := 0, off: Option<int> := Some(0)) returns (r: Option<nat>)
      requires Valid()
      requires IsPhpInt(value)
      modifies this`buffer, this`offset
      ensures Valid() && length == old(length)
      ensures var o := Resolve(off, old(offset));
        if InBounds(o, 1, length) then
          buffer == Splice(old(buffer), o, [value % 0x100]) && offset == o + 1 && r == Some(o + 1)
        else buffer == old(buffer) && offset == old(offset) && r == None
    {
      WholeField(U8, value);
      r := WriteValue(value, U8, off, 1);
    }

    /** Writes value as a 16-bit field with code n, at offset 0 unless an offset (or null, for the cursor) is given. */
    method WriteUInt16BE(value: int := 0, off: Option<int> := Some(0)) returns (r: Option<nat>)
      requires Valid()
      requires IsPhpInt(value)
      modifies this`buffer, this`offset
      ensures Valid() && length == old(length)
      ensures var o := Resolve(off, old(offset));
        if InBounds(o, 2, length) then
          buffer == Splice(old(buffer), o, EncodeBE(value % Pow256(2), 2)) && offset == o + 2 && r == Some(o + 2)
        else buffer == old(buffer) && offset == old(offset) && r == None
    {
      WholeField(U16BE, value);
      r := WriteValue(value, U16BE, off, 2);
    }

    /** Writes value as a 16-bit field with code v, at offset 0 unless an offset (or null, for the cursor) is given. */
    method WriteUInt16LE(value: int := 0, off: Option<int> := Some(0)) returns (r: Option<nat>)
      requires Valid()
      requires IsPhpInt(value)
      modifies this`buffer, this`offset
      ensures Valid() && length == old(length)
      ensures var o := Resolve(off, old(offset));
        if InBounds(o, 2, length) then
          buffer == Splice(old(buffer), o, EncodeLE(value % Pow256(2), 2)) && offset == o + 2 && r == Some(o + 2)
        else buffer == old(buffer) && offset == old(offset) && r == None
    {
      WholeField(U16LE, value);
      r := WriteValue(value, U16LE, off, 2);
    }

    /** Writes value as a 32-bit field with code N, at offset 0 unless an offset (or null, for the cursor) is given. */
    method WriteUInt32BE(value: int := 0, off: Option<int> := Some(0)) returns (r: Option<nat>)
      requires Valid()
      requires IsPhpInt(value)
      modifies this`buffer, this`offset
      ensures Valid() && length == old(length)
      ensures var o := Resolve(off, old(offset));
        if InBounds(o, 4, length) then
          buffer == Splice(old(buffer), o, EncodeBE(value % Pow256(4), 4)) && offset == o + 4 && r == Some(o + 4)
        else buffer == old(buffer) && offset == old(offset) && r == None
    {
      WholeField(U32BE, value);
      r := WriteValue(value, U32BE, off, 4);
    }

    /** Writes value as a 32-bit field with code V, at offset 0 unless an offset (or null, for the cursor) is given. */
    method WriteUInt32LE(value: int := 0, off: Option<int> := Some(0)) returns (r: Option<nat>)
      requires Valid()
      requires IsPhpInt(value)
      modifies this`buffer, this`offset
      ensures Valid() && length == old(length)
      ensures var o := Resolve(off, old(offset));
        if InBounds(o, 4, length) then
          buffer == Splice(old(buffer), o, EncodeLE(value % Pow256(4), 4)) && offset == o + 4 && r == Some(o + 4)
        else buffer == old(buffer) && offset == old(offset) && r == None
    {
      WholeField(U32LE, value);
      r := WriteValue(value, U32LE, off, 4);
    }

    /** Writes value as a 64-bit field with code J, at offset 0 unless an offset (or null, for the cursor) is given. */
    method WriteUInt64BE(value: int := 0, off: Option<int> := Some(0)) returns (r: Option<nat>)
      requires Valid()
      requires IsPhpInt(value)
      modifies this`buffer, this`offset
      ensures Valid() && length == old(length)
      ensures var o := Resolve(off, old(offset));
        if InBounds(o, 8, length) then
          buffer == Splice(old(buffer), o, EncodeBE(value % Pow256(8), 8)) && offset == o + 8 && r == Some(o + 8)
        else buffer == old(buffer) && offset == old(offset) && r == None
    {
      WholeField(U64BE, value);
      r := WriteValue(value, U64BE, off, 8);
    }

    /** Writes value as a 64-bit field with code P, at offset 0 unless an offset (or null, for the cursor) is given. */
    method WriteUInt64LE(value: int := 0, off: Option<int> := Some(0)) returns (r: Option<nat>)
      requires Valid()
      requires IsPhpInt(value)
      modifies this`buffer, this`offset
      ensures Valid() && length == old(length)
      ensures var o := Resolve(off, old(offset));
        if InBounds(o, 8, length) then
          buffer == Splice(old(buffer), o, EncodeLE(value % Pow256(8), 8)) && offset == o + 8 && r == Some(o + 8)
        else buffer == old(buffer) && offset == old(offset) && r == None
    {
      WholeField(U64LE, value);
      r := WriteValue(value, U64LE, off, 8);
    }

    /**
     * slice: a new buffer holding a copy of array_slice(buffer, off, n) at
     * cursor 0; this buffer is left as it was.
     */
    method Slice(off: nat := 0, n: int := 0) returns (s: ByteBuffer)
      requires Valid()
      ensures fresh(s) && s.Valid() && s.offset == 0
      ensures s.buffer == ArraySlice(buffer, off, n)
    {
      var bytes := ArraySlice(buffer, off, n);
      s := new ByteBuffer(Str([]), |bytes|);
      s.buffer := bytes;
    }
  }
}
