/** The write granularity of the flash: single bytes, or words of four. */
module WriteUnits {
  /** FDB_WG_ALIGN */
  function AlignUp(words: bool, n: nat): (r: nat)
    ensures n <= r < n + 4
  {
    if words then (n + 3) / 4 * 4 else n
  }

  /** Bytes as an erase leaves them. */
  function Blanks(n: nat): (r: seq<bv8>)
    ensures |r| == n && forall i :: 0 <= i < n ==> r[i] == 0xFF
  {
    seq(n, _ => 0xFF as bv8)
  }

  /** Bytes filled up with 0xFF to the write granularity. */
  function PadTo(words: bool, s: seq<bv8>): (r: seq<bv8>)
    ensures |r| == AlignUp(words, |s|) && r[..|s|] == s
  {
    s + Blanks(AlignUp(words, |s|) - |s|)
  }
}
