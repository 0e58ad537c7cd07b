/** Conversion of small naturals to bytes, kept apart so its bit-vector proof stays small. */
module Bytes {
  lemma ByteRoundTrip(n: nat)
    requires n < 256
    ensures (n as bv8) as int == n
  {
  }

  /** A small natural number as a byte. */
  function ByteOf(n: nat): (b: bv8)
    requires n < 256
    ensures b as int == n
  {
    ByteRoundTrip(n); n as bv8
  }
}
