/** Bytes as strings of bits, most significant bit first. */
module BitString {
  predicate BitOf(b: bv8, i: nat)
    requires i < 8
  {
    (b >> i) & 1 != 0
  }

  function Bits(bytes: seq<bv8>): (bits: seq<bool>)
    ensures |bits| == 8 * |bytes|
  {
    seq(8 * |bytes|, i requires 0 <= i < 8 * |bytes| => BitOf(bytes[i / 8], 7 - i % 8))
  }
}
