/** Numbers below 256 as bytes. */
module ByteWords {
  lemma ByteRoundTrip(x: nat)
    requires x < 256
    ensures (x as bv8) as nat == x
  {
  }
}
