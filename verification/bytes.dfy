/** Bytes, opaque 4-byte words and little-endian 32-bit signed integers. */
module Bytes {

  type byte = x: int | 0 <= x < 256

  /** A 4-byte `f4` value. The decoder copies these bytes and never
      interprets them as IEEE-754 numbers. */
  type Word = w: seq<byte> | |w| == 4 witness [0, 0, 0, 0]

  const TWO_31: int := 0x8000_0000
  const TWO_32: int := 0x1_0000_0000

  /** The range of an `i4` field. */
  predicate IsI32(x: int) {
    -TWO_31 <= x < TWO_31
  }

  /** Reads four bytes as a little-endian two's-complement `i4`. */
  function DecodeI32(w: seq<byte>): (x: int)
    requires |w| == 4
    ensures IsI32(x)
    ensures x < 0 <==> w[3] >= 128
  {
    var u := w[0] as int + 256 * (w[1] as int + 256 * (w[2] as int + 256 * w[3] as int));
    if u >= TWO_31 then u - TWO_32 else u
  }

  /** Writes an `i4` as four little-endian two's-complement bytes. */
  function EncodeI32(x: int): (w: Word)
    requires IsI32(x)
    ensures DecodeI32(w) == x
  {
    var u := if x < 0 then x + TWO_32 else x;
    var q1 := u / 256;
    var q2 := q1 / 256;
    [u % 256, q1 % 256, q2 % 256, q2 / 256]
  }

  /** Every 4-byte pattern is the encoding of the integer it decodes to. */
  lemma EncodeDecodeI32(w: seq<byte>)
    requires |w| == 4
    ensures EncodeI32(DecodeI32(w)) == w
  {
    var u := w[0] as int + 256 * (w[1] as int + 256 * (w[2] as int + 256 * w[3] as int));
    var q1 := w[1] as int + 256 * (w[2] as int + 256 * w[3] as int);
    var q2 := w[2] as int + 256 * w[3] as int;
    assert u / 256 == q1 && u % 256 == w[0];
    assert q1 / 256 == q2 && q1 % 256 == w[1];
    assert q2 / 256 == w[3] && q2 % 256 == w[2];
  }
}
