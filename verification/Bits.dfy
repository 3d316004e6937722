/** Bit-vector facts about single bytes. */
module Bits {
  lemma RoundTrip(b: int)
    requires 0 <= b < 256
    ensures (b as bv8) as int == b
  {
  }

  lemma MaskIsRemainder(v: bv8)
    ensures (v & 0x0F) as int == v as int % 16
    ensures (v & 0x7F) as int == v as int % 128
  {
  }

  lemma OrZero(acc: bv8, v: bv8)
    ensures acc | v == 0 <==> acc == 0 && v == 0
  {
  }

  lemma XorZero(v: bv8, w: bv8)
    ensures v ^ w == 0 <==> v == w
  {
  }
}
