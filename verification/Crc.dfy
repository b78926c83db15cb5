/**
 CRC-32 as `fdb_calc_crc32` accumulates it. The 256-entry table of the source is given by the
 rule that generates it (reflected polynomial 0xEDB88320, section 8 of RFC 1952).
 */
module Crc {
  type Bytes = seq<bv8>

  function Shift(c: bv32): bv32 {
    if c & 1 == 1 then (c >> 1) ^ 0xEDB88320 else c >> 1
  }

  function Rounds(c: bv32, n: nat): bv32
    decreases n
  {
    if n == 0 then c else Rounds(Shift(c), n - 1)
  }

  function TableEntry(i: bv32): bv32 {
    Rounds(i, 8)
  }

  /** The rule reproduces table entries at both ends and in the middle of the source's table. */
  lemma TableSamples()
    ensures TableEntry(1) == 0x77073096 && TableEntry(63) == 0xb6662d3d
    ensures TableEntry(128) == 0xedb88320 && TableEntry(200) == 0x95bf4a82
    ensures TableEntry(255) == 0x2d02ef8d
  {
  }

  function Xor(x: bv32, y: bv32): bv32 {
    x ^ y
  }

  function Step(c: bv32, b: bv8): bv32 {
    Xor(TableEntry(Xor(c, b as bv32) & 0xFF), c >> 8)
  }

  function Flip(c: bv32): bv32 {
    c ^ 0xFFFF_FFFF
  }

  /** The accumulator loop, for any byte step `f` on accumulators of type `C`. */
  function Fold<C(!new)>(f: (C, bv8) -> C, c: C, s: Bytes): C {
    if s == [] then c else f(Fold(f, c, s[..|s| - 1]), s[|s| - 1])
  }

  function Checksum<C(!new)>(f: (C, bv8) -> C, flip: C -> C, c: C, s: Bytes): C {
    flip(Fold(f, flip(c), s))
  }

  /** The value `fdb_calc_crc32(crc, s)` returns. */
  function Crc32(crc: bv32, s: Bytes): bv32 {
    Checksum(Step, Flip, crc, s)
  }

  lemma {:induction false} FoldConcat<C(!new)>(f: (C, bv8) -> C, c: C, a: Bytes, b: Bytes)
    ensures Fold(f, c, a + b) == Fold(f, Fold(f, c, a), b)
  {
    if b == [] {
      assert a + b == a;
    } else {
      assert (a + b)[..|a + b| - 1] == a + b[..|b| - 1];
      FoldConcat(f, c, a, b[..|b| - 1]);
    }
  }

  lemma ChecksumConcat<C(!new)>(f: (C, bv8) -> C, flip: C -> C, c: C, a: Bytes, b: Bytes)
    requires forall x :: flip(flip(x)) == x
    ensures Checksum(f, flip, Checksum(f, flip, c, a), b) == Checksum(f, flip, c, a + b)
  {
    FoldConcat(f, flip(c), a, b);
  }

  lemma FlipTwice(x: bv32)
    ensures Flip(Flip(x)) == x
  {
  }

  /** Feeding the bytes in pieces gives the checksum of the whole. */
  lemma {:induction false} Composition(c: bv32, a: Bytes, b: Bytes)
    ensures Crc32(Crc32(c, a), b) == Crc32(c, a + b)
  {
    forall x: bv32
      ensures Flip(Flip(x)) == x
    {
      FlipTwice(x);
    }
    ChecksumConcat(Step, Flip, c, a, b);
  }

  method CalcCrc32(crc: bv32, buf: Bytes) returns (r: bv32)
    ensures r == Crc32(crc, buf)
  {
    var c := Flip(crc);
    for i := 0 to |buf|
      invariant c == Fold(Step, Flip(crc), buf[..i])
    {
      assert buf[..i + 1][..i] == buf[..i];
      c := Step(c, buf[i]);
    }
    assert buf[..|buf|] == buf;
    r := Flip(c);
  }

  /** The 16-bit hash under which the key cache files a name. */
  function NameCrc(name: Bytes): nat {
    (Crc32(0, name) >> 16) as nat
  }
}
