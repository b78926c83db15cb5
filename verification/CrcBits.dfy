/**
 What the table-driven checksum computes: the remainder of the message, bit by bit, by the
 polynomial of CRC-32 (reflected, section 8 of RFC 1952), and which damage it detects.
 */
module CrcBits {
  import opened Crc

  /** One bit enters the register; when a 1 leaves it the polynomial is subtracted. */
  function FeedBit(reg: bv32, bit: bool): bv32 {
    var out := (reg & 1 == 1) != bit;
    if out then (reg >> 1) ^ 0xEDB8_8320 else reg >> 1
  }

  function FeedBits(reg: bv32, bits: seq<bool>): bv32
    decreases |bits|
  {
    if bits == [] then reg else FeedBits(FeedBit(reg, bits[0]), bits[1..])
  }

  /** The lowest `n` bits of a word, the least significant first. */
  function LowBits(z: bv32, n: nat): (r: seq<bool>)
    ensures |r| == n
  {
    if n == 0 then [] else [z & 1 == 1] + LowBits(z >> 1, n - 1)
  }

  /** The bits of a message. */
  function MessageBits(s: Bytes): (r: seq<bool>)
    ensures |r| == 8 * |s|
  {
    if s == [] then [] else MessageBits(s[..|s| - 1]) + LowBits(s[|s| - 1] as bv32, 8)
  }

  lemma {:induction false} FeedConcat(reg: bv32, a: seq<bool>, b: seq<bool>)
    ensures FeedBits(reg, a + b) == FeedBits(FeedBits(reg, a), b)
    decreases |a|
  {
    hide FeedBit;
    if a == [] {
      assert a + b == b;
    } else {
      assert (a + b)[0] == a[0] && (a + b)[1..] == a[1..] + b;
      FeedConcat(FeedBit(reg, a[0]), a[1..], b);
    }
  }

  // ---------- The table step is eight bit steps ----------

  lemma XorLow(x: bv32, y: bv32)
    ensures (x ^ y) & 1 == (x & 1) ^ (y & 1)
  {
  }

  lemma XorHalf(x: bv32, y: bv32)
    ensures (x ^ y) >> 1 == (x >> 1) ^ (y >> 1)
  {
  }

  lemma LowBit(x: bv32, y: bv32)
    ensures (x & 1 == 0 || x & 1 == 1) && (y & 1 == 0 || y & 1 == 1)
    ensures (x & 1) ^ (y & 1) == 1 <==> x & 1 != y & 1
    ensures (x & 1) ^ (y & 1) == 0 <==> x & 1 == y & 1
  {
  }

  lemma XorTwice(a: bv32, b: bv32, p: bv32)
    ensures (a ^ p) ^ (b ^ p) == a ^ b
    ensures (a ^ p) ^ b == (a ^ b) ^ p
    ensures a ^ (b ^ p) == (a ^ b) ^ p
  {
  }

  lemma ShiftXor(x: bv32, y: bv32)
    ensures Shift(Xor(x, y)) == Xor(Shift(x), Shift(y))
  {
    XorLow(x, y);
    XorHalf(x, y);
    LowBit(x, y);
    XorTwice(x >> 1, y >> 1, 0xEDB8_8320);
  }

  lemma {:induction false} RoundsXor(x: bv32, y: bv32, n: nat)
    ensures Rounds(Xor(x, y), n) == Xor(Rounds(x, n), Rounds(y, n))
    decreases n
  {
    hide Shift, Xor;
    if n > 0 {
      ShiftXor(x, y);
      RoundsXor(Shift(x), Shift(y), n - 1);
    }
  }

  /** What a register loses in eight rounds without a 1 leaving it. */
  lemma HighRounds(c: bv32)
    ensures Rounds(c & 0xFFFF_FF00, 8) == c >> 8
  {
    var x := c & 0xFFFF_FF00;
    var a := (c >> 1) & 0x7FFF_FF80;
    var b := (c >> 2) & 0x3FFF_FFC0;
    var d := (c >> 3) & 0x1FFF_FFE0;
    var e := (c >> 4) & 0x0FFF_FFF0;
    var f := (c >> 5) & 0x07FF_FFF8;
    var g := (c >> 6) & 0x03FF_FFFC;
    var h := (c >> 7) & 0x01FF_FFFE;
    assert Shift(x) == a && Shift(a) == b && Shift(b) == d && Shift(d) == e;
    assert Shift(e) == f && Shift(f) == g && Shift(g) == h && Shift(h) == c >> 8;
    hide Shift;
    assert Rounds(c >> 8, 0) == c >> 8;
    assert Rounds(h, 1) == c >> 8;
    assert Rounds(g, 2) == c >> 8;
    assert Rounds(f, 3) == c >> 8;
    assert Rounds(e, 4) == c >> 8;
    assert Rounds(d, 5) == c >> 8;
    assert Rounds(b, 6) == c >> 8;
    assert Rounds(a, 7) == c >> 8;
  }

  lemma SplitWord(c: bv32, b: bv8)
    ensures Xor(c, b as bv32) == Xor(Xor(c, b as bv32) & 0xFF, c & 0xFFFF_FF00)
  {
  }

  lemma StepIs(c: bv32, b: bv8)
    ensures Step(c, b) == Xor(Rounds(Xor(c, b as bv32) & 0xFF, 8), c >> 8)
  {
    hide Rounds, Xor;
  }

  lemma StepRounds(c: bv32, b: bv8)
    ensures Step(c, b) == Rounds(Xor(c, b as bv32), 8)
  {
    StepIs(c, b);
    hide Step, Rounds, Xor;
    SplitWord(c, b);
    RoundsXor(Xor(c, b as bv32) & 0xFF, c & 0xFFFF_FF00, 8);
    HighRounds(c);
  }

  function Dropped(z: bv32, n: nat): bv32 {
    if n == 0 then z else Dropped(z >> 1, n - 1)
  }

  lemma ByteDropped(b: bv8)
    ensures Dropped(b as bv32, 8) == 0
  {
    var z := b as bv32;
    assert (((((((z >> 1) >> 1) >> 1) >> 1) >> 1) >> 1) >> 1) >> 1 == 0;
    DropFour(z);
    DropFour((((z >> 1) >> 1) >> 1) >> 1);
    hide Dropped;
    DropMore(z, 4, 4);
  }

  lemma DropFour(z: bv32)
    ensures Dropped(z, 4) == (((z >> 1) >> 1) >> 1) >> 1
  {
    assert Dropped((((z >> 1) >> 1) >> 1) >> 1, 0) == (((z >> 1) >> 1) >> 1) >> 1;
    assert Dropped(((z >> 1) >> 1) >> 1, 1) == (((z >> 1) >> 1) >> 1) >> 1;
    assert Dropped((z >> 1) >> 1, 2) == (((z >> 1) >> 1) >> 1) >> 1;
    assert Dropped(z >> 1, 3) == (((z >> 1) >> 1) >> 1) >> 1;
  }

  lemma {:induction false} DropMore(z: bv32, n: nat, k: nat)
    ensures Dropped(z, n + k) == Dropped(Dropped(z, n), k)
  {
    if n > 0 {
      DropMore(z >> 1, n - 1, k);
    }
  }

  /** The bit that enters and the bit that leaves meet in the lowest place. */
  lemma FeedShift(reg: bv32, z: bv32)
    ensures Shift(Xor(reg, z)) == Xor(FeedBit(reg, z & 1 == 1), z >> 1)
  {
    XorLow(reg, z);
    XorHalf(reg, z);
    LowBit(reg, z);
    XorTwice(reg >> 1, z >> 1, 0xEDB8_8320);
  }

  lemma {:induction false} FeedRounds(reg: bv32, z: bv32, n: nat)
    ensures Rounds(Xor(reg, z), n) == Xor(FeedBits(reg, LowBits(z, n)), Dropped(z, n))
    decreases n
  {
    hide FeedBit, Shift, Xor;
    if n > 0 {
      FeedShift(reg, z);
      var bits := LowBits(z, n);
      assert bits[0] == (z & 1 == 1) && bits[1..] == LowBits(z >> 1, n - 1);
      FeedRounds(FeedBit(reg, z & 1 == 1), z >> 1, n - 1);
    }
  }

  lemma XorZero(x: bv32)
    ensures Xor(x, 0) == x
  {
  }

  lemma StepIsBits(c: bv32, b: bv8)
    ensures Step(c, b) == FeedBits(c, LowBits(b as bv32, 8))
  {
    hide Step, Rounds, Xor, FeedBits, LowBits, Dropped;
    StepRounds(c, b);
    FeedRounds(c, b as bv32, 8);
    ByteDropped(b);
    XorZero(FeedBits(c, LowBits(b as bv32, 8)));
  }

  /** The checksum is the remainder of all bits of the message. */
  lemma {:induction false} FoldIsBits(c: bv32, s: Bytes)
    ensures Fold(Step, c, s) == FeedBits(c, MessageBits(s))
  {
    hide Step, FeedBits, LowBits;
    if s == [] {
      NoBits(c);
    } else {
      var t := s[..|s| - 1];
      FoldIsBits(c, t);
      StepIsBits(Fold(Step, c, t), s[|s| - 1]);
      FeedConcat(c, MessageBits(t), LowBits(s[|s| - 1] as bv32, 8));
    }
  }

  lemma NoBits(c: bv32)
    ensures FeedBits(c, []) == c
  {
  }

  lemma Crc32IsBits(crc: bv32, s: Bytes)
    ensures Crc32(crc, s) == FeedBits(crc ^ 0xFFFF_FFFF, MessageBits(s)) ^ 0xFFFF_FFFF
  {
    hide Step, FeedBits, MessageBits;
    FoldIsBits(Flip(crc), s);
  }

  lemma Stepped(c: bv32, b: bv8, i: bv32, e: bv32, r: bv32)
    requires Xor(c, b as bv32) & 0xFF == i && TableEntry(i) == e && Xor(e, c >> 8) == r
    ensures Step(c, b) == r
  {
    hide TableEntry, Xor;
  }

  lemma CheckEntries()
    ensures TableEntry(0xCE) == 0x7CDC_EFB7 && TableEntry(0x7A) == 0xB0D0_9822 && TableEntry(0x01) == 0x7707_3096
    ensures TableEntry(0x19) == 0x646B_A8C0 && TableEntry(0x69) == 0x346E_D9FC && TableEntry(0xD5) == 0xF6B9_265B
    ensures TableEntry(0xA9) == 0xAF0A_1B4C && TableEntry(0x58) == 0x65B0_D9C6
  {
  }

  lemma CheckSteps()
    ensures Step(0xFFFF_FFFF, 0x31) == 0x7C23_1048 && Step(0x7C23_1048, 0x32) == 0xB0AC_BB32
    ensures Step(0xB0AC_BB32, 0x33) == 0x77B7_9C2D && Step(0x77B7_9C2D, 0x34) == 0x641C_1F5C
    ensures Step(0x641C_1F5C, 0x35) == 0x340A_C5E3 && Step(0x340A_C5E3, 0x36) == 0xF68D_2C9E
    ensures Step(0xF68D_2C9E, 0x37) == 0xAFFC_9660 && Step(0xAFFC_9660, 0x38) == 0x651F_2550
    ensures Step(0x651F_2550, 0x39) == 0x340B_C6D9
  {
    hide TableEntry, Step;
    CheckEntries();
    Stepped(0xFFFF_FFFF, 0x31, 0xCE, 0x7CDC_EFB7, 0x7C23_1048);
    Stepped(0x7C23_1048, 0x32, 0x7A, 0xB0D0_9822, 0xB0AC_BB32);
    Stepped(0xB0AC_BB32, 0x33, 0x01, 0x7707_3096, 0x77B7_9C2D);
    Stepped(0x77B7_9C2D, 0x34, 0x19, 0x646B_A8C0, 0x641C_1F5C);
    Stepped(0x641C_1F5C, 0x35, 0x69, 0x346E_D9FC, 0x340A_C5E3);
    Stepped(0x340A_C5E3, 0x36, 0xD5, 0xF6B9_265B, 0xF68D_2C9E);
    Stepped(0xF68D_2C9E, 0x37, 0xA9, 0xAF0A_1B4C, 0xAFFC_9660);
    Stepped(0xAFFC_9660, 0x38, 0x58, 0x65B0_D9C6, 0x651F_2550);
    Stepped(0x651F_2550, 0x39, 0x69, 0x346E_D9FC, 0x340B_C6D9);
  }

  lemma Fed(c: bv32, s: Bytes, x: bv8, q: bv32, r: bv32)
    requires Fold(Step, c, s) == q && Step(q, x) == r
    ensures Fold(Step, c, s + [x]) == r
  {
    hide Step;
    assert (s + [x])[..|s|] == s;
  }

  /** The digits 1 to 4, and 5 to 9 behind anything that leaves the same register. */
  lemma FirstDigits(f: bv32)
    requires f == 0xFFFF_FFFF
    ensures Fold(Step, f, [0x31] + [0x32] + [0x33] + [0x34]) == 0x641C_1F5C
  {
    assert Fold(Step, f, []) == f && [] + [0x31 as bv8] == [0x31];
    hide Step, Fold;
    CheckSteps();
    Fed(f, [], 0x31, f, 0x7C23_1048);
    Fed(f, [0x31], 0x32, 0x7C23_1048, 0xB0AC_BB32);
    Fed(f, [0x31] + [0x32], 0x33, 0xB0AC_BB32, 0x77B7_9C2D);
    Fed(f, [0x31] + [0x32] + [0x33], 0x34, 0x77B7_9C2D, 0x641C_1F5C);
  }

  lemma LastDigits(f: bv32, s: Bytes)
    requires Fold(Step, f, s) == 0x641C_1F5C
    ensures Fold(Step, f, s + [0x35] + [0x36] + [0x37] + [0x38] + [0x39]) == 0x340B_C6D9
  {
    hide Step, Fold;
    CheckSteps();
    Fed(f, s, 0x35, 0x641C_1F5C, 0x340A_C5E3);
    Fed(f, s + [0x35], 0x36, 0x340A_C5E3, 0xF68D_2C9E);
    Fed(f, s + [0x35] + [0x36], 0x37, 0xF68D_2C9E, 0xAFFC_9660);
    Fed(f, s + [0x35] + [0x36] + [0x37], 0x38, 0xAFFC_9660, 0x651F_2550);
    Fed(f, s + [0x35] + [0x36] + [0x37] + [0x38], 0x39, 0x651F_2550, 0x340B_C6D9);
  }

  /** The check value that every CRC-32 gives for the digits 1 to 9. */
  lemma CheckValue(s: Bytes)
    requires s == [0x31] + [0x32] + [0x33] + [0x34] + [0x35] + [0x36] + [0x37] + [0x38] + [0x39]
    ensures Crc32(0, s) == 0xCBF4_3926
  {
    hide Step, Fold;
    FirstDigits(0xFFFF_FFFF);
    LastDigits(0xFFFF_FFFF, [0x31] + [0x32] + [0x33] + [0x34]);
  }

  // ---------- Damage ----------

  lemma ShiftInjective(x: bv32, y: bv32)
    ensures Shift(x) == Shift(y) ==> x == y
  {
  }

  lemma {:induction false} RoundsInjective(x: bv32, y: bv32, n: nat)
    ensures Rounds(x, n) == Rounds(y, n) ==> x == y
    decreases n
  {
    hide Shift;
    if n > 0 {
      ShiftInjective(x, y);
      RoundsInjective(Shift(x), Shift(y), n - 1);
    }
  }

  lemma XorCancel(c: bv32, d: bv32, x: bv8)
    ensures Xor(c, x as bv32) == Xor(d, x as bv32) ==> c == d
  {
  }

  lemma XorDiffers(c: bv32, x: bv8, y: bv8)
    ensures Xor(c, x as bv32) == Xor(c, y as bv32) ==> x == y
  {
  }

  lemma StepInjective(c: bv32, d: bv32, x: bv8)
    ensures Step(c, x) == Step(d, x) ==> c == d
  {
    hide Step, Rounds, Xor;
    StepRounds(c, x);
    StepRounds(d, x);
    RoundsInjective(Xor(c, x as bv32), Xor(d, x as bv32), 8);
    XorCancel(c, d, x);
  }

  lemma StepDiffers(c: bv32, x: bv8, y: bv8)
    ensures Step(c, x) == Step(c, y) ==> x == y
  {
    hide Step, Rounds, Xor;
    StepRounds(c, x);
    StepRounds(c, y);
    RoundsInjective(Xor(c, x as bv32), Xor(c, y as bv32), 8);
    XorDiffers(c, x, y);
  }

  lemma {:induction false} FoldInjective(c: bv32, d: bv32, s: Bytes)
    ensures Fold(Step, c, s) == Fold(Step, d, s) ==> c == d
  {
    hide Step;
    if s != [] {
      var t, x := s[..|s| - 1], s[|s| - 1];
      StepInjective(Fold(Step, c, t), Fold(Step, d, t), x);
      FoldInjective(c, d, t);
    }
  }

  /** A change of one byte is always noticed. */
  lemma OneByte(c: bv32, a: Bytes, x: bv8, y: bv8, b: Bytes)
    ensures Crc32(c, a + [x] + b) == Crc32(c, a + [y] + b) ==> x == y
  {
    var f := Flip(c);
    FoldConcat(Step, f, a + [x], b);
    FoldConcat(Step, f, a + [y], b);
    assert (a + [x])[..|a|] == a && (a + [y])[..|a|] == a;
    hide Step;
    var d := Fold(Step, f, a);
    FoldInjective(Step(d, x), Step(d, y), b);
    StepDiffers(d, x, y);
    FlipTwice(Fold(Step, f, a + [x] + b));
    FlipTwice(Fold(Step, f, a + [y] + b));
  }
}
