# ByteBuffer (php-bytebuffer) in Dafny

A model of the `ByteBuffer` class of php-bytebuffer: a byte array of fixed
length with a cursor. A buffer is built from an integer length, an array of
byte values, another buffer or a string (`__construct`, `from`, `valueOf`).
It offers bounds-checked reads and writes of unsigned 8-, 16-, 32- and 64-bit
fields in big-endian or little-endian order, expressed through PHP's
`pack`/`unpack` codes `C`, `n`/`v`, `N`/`V`, `J`/`P` (`readValue`,
`writeValue` and the fourteen typed accessors). It can copy out a slice
(`slice`) and turn its bytes back into a string (`toString`).

The project has five modules:

- `Wrappers` (wrappers.dfy): `Option`, whose `None` stands for PHP's `false` result.
- `Bytes` (bytes.dfy): the `byte` type and the pure codecs `EncodeBE`/`EncodeLE` and
  `DecodeBE`/`DecodeLE`, with their round trips in both directions and the
  relation between the two byte orders. It also holds the decimal text PHP makes
  of an integer.
- `PackFormat` (pack.dfy): the format codes as a datatype, and `pack`/`unpack`
  for those codes. That includes truncation to the field's low bytes on a
  write, and the signed native result of `J`/`P` on a read.
- `ByteBufferModel` (byte_buffer.dfy): the input shapes as a tagged datatype,
  the array helpers (`array_slice`, `array_pad`), and the class `ByteBuffer`
  with the fields `length`, `buffer` and `offset`. Its methods change these
  fields as the PHP methods do; `readValue`, `writeValue` and `toString` keep
  their loops.
- `BufferProperties` (properties.dfy): properties of call sequences. It covers
  the worked byte-order example, `from(s)` followed by `toString()`, the
  write-then-read round trip through every accessor, the default offsets, and
  the independence of slices and copies.

Behaviour that follows the code, not the library's own description:

- Write accessors default their offset to 0, not to the cursor. A write with no
  offset always targets index 0; a read with no offset starts at the cursor
  (`off: Option<int> := Some(0)` against `:= None`).
- `slice()` with its default length 0 yields an empty buffer, as
  `array_slice($a, $o, 0)` does.
- When `readValue` gets fewer bytes than its format needs, `unpack` fails
  after line 151 has already moved the cursor. The read returns `false` with
  the cursor advanced.
- `valueOf` is public. Called on an existing buffer with an integer or a
  string, it leaves the cursor where it was, which may then lie beyond the
  new `length`. `Valid()` therefore only ties `|buffer|` to `length`.

## Model

| member | source | states |
|---|---|---|
| Bytes.DecodeLE | src/ByteBuffer.php:152 | the little-endian value of s (codes v, V, P) is below 256^len(s) |
| Bytes.DecodeBE | src/ByteBuffer.php:152 | the big-endian value of s (codes C, n, N, J) is below 256^len(s) |
| Bytes.EncodeLE | src/ByteBuffer.php:187-189 | for v < 256^w, the result is w bytes whose little-endian value is v |
| Bytes.EncodeBE | src/ByteBuffer.php:187-189 | for v < 256^w, the result is w bytes whose big-endian value is v |
| Bytes.EncodeDecodeLE | src/ByteBuffer.php:187-188 | every byte string is the little-endian encoding of its own value, so decoding is injective |
| Bytes.EncodeDecodeBE | src/ByteBuffer.php:187-188 | every byte string is the big-endian encoding of its own value |
| Bytes.Reverse | src/ByteBuffer.php:227-242 | the result has the same length and the bytes in the opposite order |
| Bytes.EncodeBEIsReversedLE | src/ByteBuffer.php:313-329 | the big-endian encoding (n, N, J) is the little-endian one (v, V, P) reversed |
| Bytes.DecodeBEIsReversedLE | src/ByteBuffer.php:227-242 | reading bytes big-endian gives the little-endian value of the reversed bytes |
| Bytes.DecimalDigits | src/ByteBuffer.php:96 | n's decimal digits: non-empty, ASCII digits only, no leading zero for n > 0, exactly "0" for 0, and they parse back to n |
| Bytes.DecimalString | src/ByteBuffer.php:96 | the string PHP makes of an integer: it starts with '-' exactly for negatives, the rest is at least one ASCII digit with no leading zero, 0 is exactly "0", and it parses back to the integer |
| PackFormat.AsInt64 | src/ByteBuffer.php:275-290 | the signed 64-bit integer with bit pattern u: in PHP's int range, congruent to u modulo 2^64, u itself below 2^63 |
| PackFormat.AsInt64OfMod | src/ByteBuffer.php:365-381 | reinterpreting the low 64 bits of any PHP integer as signed gives that integer |
| PackFormat.Pack | src/ByteBuffer.php:187-189 | pack gives Width(f) bytes whose value in f's byte order is value mod 256^Width(f) (two's complement for negatives) |
| PackFormat.Unpack | src/ByteBuffer.php:152-158 | unpack fails exactly when fewer bytes than one field are given; otherwise it yields a PHP integer, unsigned and below 256^w for 8/16/32 bits |
| PackFormat.UnpackField | src/ByteBuffer.php:152-154 | unpacking exactly one field yields its value in f's order, reinterpreted as signed for J and P |
| PackFormat.UnpackPack | src/ByteBuffer.php:184-189 | unpack(f, pack(f, v)) is v mod 256^w for C, n, v, N, V and exactly v for J, P, for every PHP integer v |
| PackFormat.UnpackPackInRange | src/ByteBuffer.php:215-266 | every v with 0 <= v < 256^w (and below 2^63 for 64 bits) survives pack then unpack unchanged |
| PackFormat.PackUnpack | src/ByteBuffer.php:152-154 | packing what unpack read from a whole field gives the same bytes back |
| PackFormat.ByteOrderSymmetry | src/ByteBuffer.php:227-290 | a little-endian code (v, V, P) reads the same value as its big-endian partner (n, N, J) reads from the reversed bytes |
| PackFormat.ByteOrderExample | src/ByteBuffer.php:339-342 | the big-endian 4-byte encoding of 0x01020304 (code N) is [1, 2, 3, 4], the little-endian one (code V) is [4, 3, 2, 1], and [1, 2, 3, 4] read little-endian is 0x04030201 |
| ByteBufferModel.TakePadded | src/ByteBuffer.php:192-201 | exactly n bytes: the first n of the input, then zeros past its end |
| ByteBufferModel.Fit | src/ByteBuffer.php:96-104 | for len > 0, the first len bytes zero-padded to len; for len <= 0, the whole string |
| ByteBufferModel.StringPath | src/ByteBuffer.php:75-104 | an integer with no length gives max(n, 0) zero bytes; an integer with a length is fitted as its decimal string; a string is fitted to the length |
| ByteBufferModel.ArraySlice | src/ByteBuffer.php:393 | array_slice from o >= 0: a contiguous copy of s from index o, of length min(n, what remains) for n >= 0, ending abs(n) before the end for n < 0 |
| ByteBufferModel.Splice | src/ByteBuffer.php:193-201 | the same length; the field sits at [o, o + abs(field)) and every other byte is unchanged |
| ByteBufferModel.ByteBuffer.constructor | src/ByteBuffer.php:23-30 | a valid buffer at cursor 0 holding the bytes valueOf builds for the input |
| ByteBufferModel.ByteBuffer.From | src/ByteBuffer.php:40-43 | a fresh valid buffer at cursor 0, built as the constructor builds it |
| ByteBufferModel.ByteBuffer.ValueOf | src/ByteBuffer.php:65-109 | an array is adopted and another buffer's bytes and length are copied, both with the cursor reset to 0; an integer or a string takes the string path and leaves the cursor alone |
| ByteBufferModel.ByteBuffer.ToString | src/ByteBuffer.php:116-125 | the result is exactly the buffer's bytes |
| ByteBufferModel.ByteBuffer.ReadValue | src/ByteBuffer.php:136-161 | the offset is the given one, or the cursor for null (`Resolve`); out of bounds (`InBounds`: 0 <= o and o + width <= length fails): false, nothing changes. In bounds: no byte changes, the cursor moves to offset + width, and the result is unpack of the field |
| ByteBufferModel.ByteBuffer.WriteValue | src/ByteBuffer.php:173-206 | the offset is the given one, or the cursor for null (`Resolve`); out of bounds (`InBounds` fails): false, nothing changes. In bounds: only [o, o + width) changes, it holds pack's bytes cut or zero-padded to width, the cursor moves to o + width and that is returned |
| ByteBufferModel.ByteBuffer.ReadUInt8 | src/ByteBuffer.php:215-218 | at the cursor unless an offset is given; in bounds it yields buffer[o] and moves the cursor to o + 1, otherwise false with nothing changed |
| ByteBufferModel.ByteBuffer.ReadUInt16BE | src/ByteBuffer.php:227-230 | in bounds it yields the big-endian value of buffer[o..o+2] and moves the cursor to o + 2, otherwise false with nothing changed |
| ByteBufferModel.ByteBuffer.ReadUInt16LE | src/ByteBuffer.php:239-242 | in bounds it yields the little-endian value of buffer[o..o+2] and moves the cursor to o + 2, otherwise false with nothing changed |
| ByteBufferModel.ByteBuffer.ReadUInt32BE | src/ByteBuffer.php:251-254 | in bounds it yields the big-endian value of buffer[o..o+4] and moves the cursor to o + 4, otherwise false with nothing changed |
| ByteBufferModel.ByteBuffer.ReadUInt32LE | src/ByteBuffer.php:263-266 | in bounds it yields the little-endian value of buffer[o..o+4] and moves the cursor to o + 4, otherwise false with nothing changed |
| ByteBufferModel.ByteBuffer.ReadUInt64BE | src/ByteBuffer.php:275-278 | in bounds it yields the big-endian value of buffer[o..o+8] as a signed 64-bit integer and moves the cursor to o + 8, otherwise false with nothing changed |
| ByteBufferModel.ByteBuffer.ReadUInt64LE | src/ByteBuffer.php:287-290 | in bounds it yields the little-endian value of buffer[o..o+8] as a signed 64-bit integer and moves the cursor to o + 8, otherwise false with nothing changed |
| ByteBufferModel.ByteBuffer.WriteUInt8 | src/ByteBuffer.php:300-303 | at offset 0 unless an offset is given; in bounds it stores value mod 256 at o only and returns the cursor o + 1, otherwise false with nothing changed |
| ByteBufferModel.ByteBuffer.WriteUInt16BE | src/ByteBuffer.php:313-316 | in bounds it stores the 2-byte big-endian value mod 2^16 at [o, o+2) only and returns the cursor o + 2, otherwise false with nothing changed |
| ByteBufferModel.ByteBuffer.WriteUInt16LE | src/ByteBuffer.php:326-329 | in bounds it stores the 2-byte little-endian value mod 2^16 at [o, o+2) only and returns the cursor o + 2, otherwise false with nothing changed |
| ByteBufferModel.ByteBuffer.WriteUInt32BE | src/ByteBuffer.php:339-342 | in bounds it stores the 4-byte big-endian value mod 2^32 at [o, o+4) only and returns the cursor o + 4, otherwise false with nothing changed |
| ByteBufferModel.ByteBuffer.WriteUInt32LE | src/ByteBuffer.php:352-355 | in bounds it stores the 4-byte little-endian value mod 2^32 at [o, o+4) only and returns the cursor o + 4, otherwise false with nothing changed |
| ByteBufferModel.ByteBuffer.WriteUInt64BE | src/ByteBuffer.php:365-368 | in bounds it stores the 8-byte big-endian two's complement of value at [o, o+8) only and returns the cursor o + 8, otherwise false with nothing changed |
| ByteBufferModel.ByteBuffer.WriteUInt64LE | src/ByteBuffer.php:378-381 | in bounds it stores the 8-byte little-endian two's complement of value at [o, o+8) only and returns the cursor o + 8, otherwise false with nothing changed |
| ByteBufferModel.ByteBuffer.Slice | src/ByteBuffer.php:391-399 | a fresh buffer at cursor 0 holding a copy of array_slice(buffer, off, n); the source is not modified |
| BufferProperties.WorkedExample | src/ByteBuffer.php:339-342 | on a 4-byte buffer writeUInt32BE(0x01020304, 0) stores [1, 2, 3, 4], and readUInt32LE(0) then yields 0x04030201 |
| BufferProperties.StringRoundTrip | src/ByteBuffer.php:116-125 | toString() of from(s) is s |
| BufferProperties.ZeroFilled | src/ByteBuffer.php:75-78 | from(n) for an integer n holds max(n, 0) zero bytes |
| BufferProperties.RoundTrip | src/ByteBuffer.php:215-381 | a typed write at an in-range o, then the read with the same code at o, yields v mod 256^w (exactly v for 64 bits); both calls leave the cursor at o + w |
| BufferProperties.RoundTrip8 | src/ByteBuffer.php:215-218 | writeUInt8(v, o) then readUInt8(o) yields v mod 256 and leaves the cursor at o + 1 |
| BufferProperties.RoundTrip16 | src/ByteBuffer.php:227-242 | a 16-bit write at o then the read with the same byte order yields v mod 65536, cursor at o + 2 |
| BufferProperties.RoundTrip32 | src/ByteBuffer.php:251-266 | a 32-bit write at o then the read with the same byte order yields v mod 2^32, cursor at o + 4 |
| BufferProperties.RoundTrip64 | src/ByteBuffer.php:275-290 | a 64-bit write at o then the read with the same byte order yields exactly v, cursor at o + 8 |
| BufferProperties.DefaultOffsets | src/ByteBuffer.php:300-303 | a write with no offset stores at index 0 whatever the cursor is; the following read with no offset reads at the cursor that write left |
| BufferProperties.SliceIsolation | src/ByteBuffer.php:391-399 | after slicing, a write of v into the slice does not change the source and a later write of u into the source does not change the slice: each ends up with only its own write |
| BufferProperties.CopyIsolation | src/ByteBuffer.php:86-92 | a buffer built from another buffer copies its bytes: writing to the copy leaves the original unchanged, and a later write to the original leaves the copy unchanged |

## Left out

- BigNumber is not part of this model. Reads return the native PHP integer that `unpack` yields, not a BigNumber, and the decimal scale is not modelled.
- ByteBufferModel.ByteBuffer.WriteValue: `value` must be an integer in PHP's 64-bit range. The model assumes BigNumber's `toString` gives that integer's decimal text and `pack` reads it back unchanged. Larger values and non-integer strings go through PHP's float coercion, which is not modelled. The seven write accessors carry the same requirement.
- The internals of `pack`/`unpack` and PHP's string-to-number coercion are replaced by the explicit codecs in `Bytes` and `PackFormat`.
- Float data in `valueOf` (`is_float`, `is_double`) is not modelled; the integer shape covers `is_int`/`is_long` only.
- `initCurrentFullClassName` and the `get_class` test are replaced by the `Buffer` tag of `Input`. An instance of a subclass, which PHP would not recognise, is not modelled.
- ByteBufferModel.ByteBuffer.ValueOf returns nothing. The PHP method returns `$this` for chaining.
- ByteBufferModel.ByteBuffer.Slice takes `off: nat`. PHP's `array_slice` counts a negative offset from the end, and that is not modelled.
- Array inputs are byte sequences by type. PHP arrays with values outside 0..255 or with keys that are not 0..n-1 are not modelled.
- `toString` reads an undefined `$offset`. PHP takes it as 0, and so does the model; the notice PHP emits is not modelled.
- `array_pad` (src/ByteBuffer.php:104) is taken as PHP 8.3 or later does it, with no limit on the padding. Before PHP 8.3 it refuses to add more than 1048576 elements: PHP 7 warns and leaves `$this->buffer` as `false`, and PHP 8.0 to 8.2 throw a ValueError. That affects `from(n)` with n > 1048576, `from(s, L)` with L - len(s) > 1048576, and `slice` of more than 1048576 bytes (src/ByteBuffer.php:395). The model always builds the full buffer.
- PHP warnings and notices, and changes made by assigning the public fields from outside the class, are not modelled.
- Signed and floating-point accessors, `alloc`, `fill`, `values()`, host-endianness detection and byte-order conversion do not exist in src/ByteBuffer.php and are not part of this model.
- Allocation, aliasing of objects and concurrency need no model beyond Dafny's own: `buffer` is a value (`seq`), just as PHP arrays are copied on assignment.
