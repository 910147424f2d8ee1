/**
 * Byte-level codecs behind PHP's `pack`/`unpack` as the buffer uses them:
 * unsigned integers of w bytes in big-endian and little-endian order, and
 * the decimal text PHP produces when it turns an integer into a string.
 */
module Bytes {

  /** One element of a PHP byte array: an integer in 0..255. */
  type byte = x: int | 0 <= x < 256

  /** 256^w, the number of values a field of w bytes can hold. */
  function Pow256(w: nat): (r: nat)
    ensures r >= 1
  {
    if w == 0 then 1 else 256 * Pow256(w - 1)
  }

  lemma Pow256Values()
    ensures Pow256(1) == 0x100
    ensures Pow256(2) == 0x1_0000
    ensures Pow256(4) == 0x1_0000_0000
    ensures Pow256(8) == 0x1_0000_0000_0000_0000
  {
    assert Pow256(2) == 256 * Pow256(1);
    assert Pow256(4) == 256 * (256 * Pow256(2));
    assert Pow256(8) == 256 * (256 * (256 * (256 * Pow256(4))));
  }

  /** The unsigned value of s read least significant byte first (pack codes v, V, P). */
  function DecodeLE(s: seq<byte>): (r: nat)
    ensures r < Pow256(|s|)
  {
    if s == [] then 0 else s[0] + 256 * DecodeLE(s[1..])
  }

  /** The unsigned value of s read most significant byte first (pack codes C, n, N, J). */
  function DecodeBE(s: seq<byte>): (r: nat)
    ensures r < Pow256(|s|)
  {
    if s == [] then 0 else 256 * DecodeBE(s[..|s| - 1]) + s[|s| - 1]
  }

  /** The w-byte little-endian representation of v. */
  function EncodeLE(v: nat, w: nat): (r: seq<byte>)
    requires v < Pow256(w)
    ensures |r| == w && DecodeLE(r) == v
  {
    if w == 0 then [] else [v % 256] + EncodeLE(v / 256, w - 1)
  }

  /** The w-byte big-endian representation of v. */
  function EncodeBE(v: nat, w: nat): (r: seq<byte>)
    requires v < Pow256(w)
    ensures |r| == w && DecodeBE(r) == v
  {
    if w == 0 then [] else EncodeBE(v / 256, w - 1) + [v % 256]
  }

  /** Every byte string is the little-endian encoding of its value (decoding is injective). */
  lemma {:induction false} EncodeDecodeLE(s: seq<byte>)
    ensures EncodeLE(DecodeLE(s), |s|) == s
  {
    if s != [] {
      var t := s[1..];
      EncodeDecodeLE(t);
      assert (s[0] + 256 * DecodeLE(t)) / 256 == DecodeLE(t);
      assert [s[0]] + t == s;
    }
  }

  /** Every byte string is the big-endian encoding of its value (decoding is injective). */
  lemma {:induction false} EncodeDecodeBE(s: seq<byte>)
    ensures EncodeBE(DecodeBE(s), |s|) == s
  {
    if s != [] {
      var t := s[..|s| - 1];
      EncodeDecodeBE(t);
      assert (256 * DecodeBE(t) + s[|s| - 1]) / 256 == DecodeBE(t);
      assert t + [s[|s| - 1]] == s;
    }
  }

  /** s with its bytes in the opposite order. */
  function Reverse(s: seq<byte>): (r: seq<byte>)
    ensures |r| == |s|
    ensures forall i :: 0 <= i < |s| ==> r[i] == s[|s| - 1 - i]
  {
    if s == [] then [] else Reverse(s[1..]) + [s[0]]
  }

  /** Big-endian order is little-endian order reversed. */
  lemma {:induction false} EncodeBEIsReversedLE(v: nat, w: nat)
    requires v < Pow256(w)
    ensures EncodeBE(v, w) == Reverse(EncodeLE(v, w))
  {
    if w > 0 {
      EncodeBEIsReversedLE(v / 256, w - 1);
      var le := EncodeLE(v, w);
      assert le == [v % 256] + EncodeLE(v / 256, w - 1);
      assert Reverse(le) == Reverse(EncodeLE(v / 256, w - 1)) + [v % 256];
    }
  }

  /** Reversing twice gives the bytes back. */
  lemma ReverseReverse(s: seq<byte>)
    ensures Reverse(Reverse(s)) == s
  {
    var r := Reverse(s);
    assert forall i :: 0 <= i < |s| ==> Reverse(r)[i] == r[|s| - 1 - i] == s[i];
  }

  /** Reading bytes big-endian gives the little-endian value of the reversed bytes. */
  lemma DecodeBEIsReversedLE(s: seq<byte>)
    ensures DecodeBE(s) == DecodeLE(Reverse(s))
  {
    var v := DecodeBE(s);
    var le := EncodeLE(v, |s|);
    EncodeDecodeBE(s);
    EncodeBEIsReversedLE(v, |s|);
    assert s == Reverse(le);
    ReverseReverse(le);
    assert Reverse(s) == le;
  }

  /** The ASCII decimal digits of n without leading zeros, as PHP writes an integer. */
  function DecimalDigits(n: nat): (r: seq<byte>)
    ensures |r| >= 1
    ensures forall i :: 0 <= i < |r| ==> '0' as int <= r[i] <= '9' as int
    ensures ParseDecimal(r) == n
    ensures n > 0 ==> r[0] != '0' as int
    ensures n == 0 ==> r == ['0' as int]
  {
    if n < 10 then ['0' as int + n] else DecimalDigits(n / 10) + ['0' as int + n % 10]
  }

  /** The number a string of ASCII decimal digits denotes. */
  function ParseDecimal(s: seq<byte>): int
  {
    if s == [] then 0 else 10 * ParseDecimal(s[..|s| - 1]) + (s[|s| - 1] - '0' as int)
  }

  /** The string PHP makes of an integer: a minus sign for negatives, then the digits. */
  function DecimalString(n: int): (r: seq<byte>)
    ensures |r| >= 1
    ensures r[0] == '-' as int <==> n < 0
    ensures |r| > (if n < 0 then 1 else 0)
    ensures forall i :: (if n < 0 then 1 else 0) <= i < |r| ==> '0' as int <= r[i] <= '9' as int
    ensures n != 0 ==> r[if n < 0 then 1 else 0] != '0' as int
    ensures n == 0 ==> r == ['0' as int]
    ensures n < 0 ==> -ParseDecimal(r[1..]) == n
    ensures n >= 0 ==> ParseDecimal(r) == n
  {
    if n < 0 then ['-' as int] + DecimalDigits(-n) else DecimalDigits(n)
  }
}
