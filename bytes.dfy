/** Bytes as the Python code sees them: each element of a `bytes` object is an
    integer in 0..255. The bit operations the code applies to a byte are
    written here with `%` and `/`; BitFields shows the two agree. */
module Bytes {

  type Byte = b: int | 0 <= b < 256

  /** 128 to the power k: the weight of the k-th 7-bit group of a varint
      (the Python code's `1 << shift` with `shift == 7 * k`). */
  function Pow128(k: nat): (r: nat)
    ensures r >= 1
  {
    if k == 0 then 1 else 128 * Pow128(k - 1)
  }

  /** The masks and shifts of the source, on an 8-bit value, are the
      remainders and quotients used throughout the model. */
  lemma BitFields(x: bv8)
    ensures (x & 0x7F) as int == (x as int) % 128
    ensures (x & 0x80 == 0) == ((x as int) < 128)
    ensures (x >> 3) as int == (x as int) / 8
    ensures (x & 0x07) as int == (x as int) % 8
  {
    LowBits(x);
    HighBit(x);
    FieldNumberBits(x);
  }

  /** The low masks keep a remainder. */
  lemma LowBits(x: bv8)
    ensures (x & 0x7F) as int == (x as int) % 128
    ensures (x & 0x07) as int == (x as int) % 8
  {
  }

  /** The continuation bit is clear exactly below 128. */
  lemma HighBit(x: bv8)
    ensures (x & 0x80 == 0) == ((x as int) < 128)
  {
  }

  /** Shifting out the wire type is a quotient. */
  lemma FieldNumberBits(x: bv8)
    ensures (x >> 3) as int == (x as int) / 8
  {
  }
}
