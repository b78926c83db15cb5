/** One key-value record as bytes on flash: what `create_kv_blob` programs, `read_kv` reads back. */
module RecordCodec {
  import opened KvConfig
  import opened Crc
  import opened CrcBits
  import opened StatusTable
  import opened ByteWords
  import opened WriteUnits

  /** KV_MAGIC_WORD 0x3030564B in little endian order. */
  const MAGIC: Bytes := [0x4B, 0x56, 0x30, 0x30]
  const KV_STATUS_NUM: nat := 6
  const PRE_WRITE: nat := 1
  const WRITE: nat := 2
  /** The record header for a write granularity: the magic word follows the status table at a 4-byte boundary. */
  datatype Layout = Layout(gran: Gran) {
    predicate Valid() {
      gran == Bit || gran == Units(1) || gran == Units(4)
    }

    function MagicOff(): nat {
      if gran.Bit? then 4 else if gran.width == 1 then 8 else 20
    }

    function NameLenOff(): nat {
      MagicOff() + 12
    }

    function Hdr(): nat {
      MagicOff() + 20
    }

    /** The sector header: two status tables at a 4-byte boundary, then three words. */
    function SecHdr(): nat {
      if gran.Bit? then 16 else if gran.width == 1 then 20 else 36
    }

    predicate Words() {
      gran == Units(4)
    }

    function Align(n: nat): (r: nat)
      ensures n <= r < n + 4
    {
      AlignUp(Words(), n)
    }

    function AlignDown(n: nat): (r: nat)
      ensures r <= n < r + 4 && (r < n ==> Align(n) == r + 4) && (r == n ==> Align(n) == n)
    {
      if gran == Units(4) then n / 4 * 4 else n
    }

    function Len(name: Bytes, value: Bytes): nat {
      Hdr() + Align(|name|) + Align(|value|)
    }
  }

  // ---------- Words ----------

  function ToLe32(n: nat): (r: Bytes)
    requires n < 0x1_0000_0000
    ensures |r| == 4
  {
    [(n % 256) as bv8, (n / 256 % 256) as bv8, (n / 0x1_0000 % 256) as bv8, (n / 0x100_0000) as bv8]
  }

  function FromLe32(b: Bytes): nat
    requires |b| == 4
  {
    b[0] as nat + 256 * (b[1] as nat) + 0x1_0000 * (b[2] as nat) + 0x100_0000 * (b[3] as nat)
  }

  lemma Digits(n: nat)
    requires n < 0x1_0000_0000
    ensures n == n % 256 + 256 * (n / 256 % 256) + 0x1_0000 * (n / 0x1_0000 % 256) + 0x100_0000 * (n / 0x100_0000)
    ensures n / 0x100_0000 < 256
  {
    var a := n / 256;
    var b := a / 256;
    var c := b / 256;
    assert b == n / 0x1_0000 && c == n / 0x100_0000;
    assert n == 256 * a + n % 256 && a == 256 * b + a % 256 && b == 256 * c + b % 256;
  }

  /** Four bytes make the number that their values make. */
  lemma FourBytes(a: nat, b: nat, c: nat, e: nat)
    requires a < 256 && b < 256 && c < 256 && e < 256
    ensures FromLe32([a as bv8, b as bv8, c as bv8, e as bv8]) == a + 256 * b + 0x1_0000 * c + 0x100_0000 * e
  {
    ByteRoundTrip(a);
    ByteRoundTrip(b);
    ByteRoundTrip(c);
    ByteRoundTrip(e);
  }

  lemma Le32RoundTrip(n: nat)
    requires n < 0x1_0000_0000
    ensures FromLe32(ToLe32(n)) == n
  {
    Digits(n);
    hide FromLe32;
    FourBytes(n % 256, n / 256 % 256, n / 0x1_0000 % 256, n / 0x100_0000);
  }

  function WordLe32(w: bv32): (r: Bytes)
    ensures |r| == 4
  {
    [(w & 0xFF) as bv8, ((w >> 8) & 0xFF) as bv8, ((w >> 16) & 0xFF) as bv8, (w >> 24) as bv8]
  }

  function Le32Word(b: Bytes): bv32
    requires |b| == 4
  {
    (b[0] as bv32) | ((b[1] as bv32) << 8) | ((b[2] as bv32) << 16) | ((b[3] as bv32) << 24)
  }

  lemma WordRoundTrip(w: bv32)
    ensures Le32Word(WordLe32(w)) == w
  {
  }

  // ---------- The record as bytes ----------

  function Padded(l: Layout, s: Bytes): (r: Bytes)
    ensures |r| == l.Align(|s|) && r[..|s|] == s
  {
    PadTo(l.Words(), s)
  }

  predicate Sizes(l: Layout, name: Bytes, value: Bytes) {
    l.Valid() && |name| < 256 && l.Len(name, value) < 0x1_0000_0000
  }

  /** The part of the header that the checksum covers: name length, padding of the struct, value length. */
  function Lengths(name: Bytes, value: Bytes): (r: Bytes)
    requires |name| < 256 && |value| < 0x1_0000_0000
    ensures |r| == 8
  {
    [|name| as bv8, 0xFF, 0xFF, 0xFF] + ToLe32(|value|)
  }

  function CheckedData(l: Layout, name: Bytes, value: Bytes): Bytes
    requires Sizes(l, name, value)
  {
    Lengths(name, value) + Padded(l, name) + Padded(l, value)
  }

  /** The header from the magic word on. */
  function HeaderBytes(l: Layout, name: Bytes, value: Bytes): (r: Bytes)
    requires Sizes(l, name, value)
    ensures |r| == 20
  {
    MAGIC + ToLe32(l.Len(name, value)) + WordLe32(Crc32(0, CheckedData(l, name, value))) + Lengths(name, value)
  }

  function Slice(mem: Bytes, at: nat, n: nat): (r: Bytes)
    requires at + n <= |mem|
    ensures |r| == n
  {
    mem[at..at + n]
  }

  predicate Erased(mem: Bytes, at: nat, n: nat)
    requires at + n <= |mem|
  {
    forall i :: at <= i < at + n ==> mem[i] == 0xFF
  }

  function TableLen(l: Layout): nat {
    l.gran.TableSize(KV_STATUS_NUM)
  }

  /** The record of `name` and `value` stands at `addr`, with status table `table`. */
  predicate Holds(l: Layout, mem: Bytes, addr: nat, table: Table, name: Bytes, value: Bytes)
    requires Sizes(l, name, value)
  {
    && addr + l.Len(name, value) <= |mem| && |table| == TableLen(l) <= l.MagicOff()
    && Slice(mem, addr, TableLen(l)) == table
    && Slice(mem, addr + l.MagicOff(), 20) == HeaderBytes(l, name, value)
    && Slice(mem, addr + l.Hdr(), l.Align(|name|)) == Padded(l, name)
    && Slice(mem, addr + l.Hdr() + l.Align(|name|), l.Align(|value|)) == Padded(l, value)
  }

  /** `b` differs from `a` only in the `n` bytes from `at`. */
  predicate OnlyIn(a: Bytes, b: Bytes, at: nat, n: nat) {
    |a| == |b| && forall i :: 0 <= i < |a| && !(at <= i < at + n) ==> a[i] == b[i]
  }

  // ---------- Writing ----------

  /** `_fdb_flash_write` on erased flash stores the data. */
  method FlashWrite(mem: Bytes, at: nat, data: Bytes) returns (r: Bytes)
    requires at + |data| <= |mem| && Erased(mem, at, |data|)
    ensures OnlyIn(mem, r, at, |data|) && Slice(r, at, |data|) == data
  {
    r := Program(mem, at, data);
    forall i | 0 <= i < |data|
      ensures r[at + i] == data[i]
    {
      OnesAnd(data[i]);
    }
  }

  lemma OnesAnd(x: bv8)
    ensures 0xFF & x == x
  {
  }

  /** `align_write`: the aligned part, then the rest in one unit filled up with 0xFF. */
  method AlignWrite(l: Layout, mem: Bytes, at: nat, buf: Bytes) returns (r: Bytes)
    requires l.Valid() && at + l.Align(|buf|) <= |mem| && Erased(mem, at, l.Align(|buf|))
    ensures OnlyIn(mem, r, at, l.Align(|buf|)) && Slice(r, at, l.Align(|buf|)) == Padded(l, buf)
  {
    var k := l.AlignDown(|buf|);
    r := FlashWrite(mem, at, buf[..k]);
    if k < |buf| {
      var unit := buf[k..] + Blanks(4 - (|buf| - k));
      var first := r;
      r := FlashWrite(r, at + k, unit);
      assert Slice(first, at, k) == Slice(r, at, k);
      assert Slice(r, at, l.Align(|buf|)) == Slice(r, at, k) + Slice(r, at + k, 4);
      assert Padded(l, buf) == buf[..k] + unit;
    } else {
      assert Padded(l, buf) == buf;
    }
  }

  /** `_fdb_write_status` on the table of the record at `addr`. */
  method WriteKvStatus(l: Layout, mem: Bytes, addr: nat, status: nat) returns (r: Bytes)
    requires l.Valid() && status < KV_STATUS_NUM && addr + TableLen(l) <= |mem|
    ensures OnlyIn(mem, r, addr, TableLen(l))
    ensures Slice(r, addr, TableLen(l)) == Written(l.gran, Slice(mem, addr, TableLen(l)), KV_STATUS_NUM, status)
  {
    var table := WriteStatus(l.gran, Slice(mem, addr, TableLen(l)), KV_STATUS_NUM, status);
    r := mem[..addr] + table + mem[addr + TableLen(l)..];
  }

  /** The checksum of `create_kv_blob`, fed piece by piece with the padding bytes one at a time. */
  method RecordCrc(l: Layout, name: Bytes, value: Bytes) returns (crc: bv32)
    requires Sizes(l, name, value)
    ensures crc == Crc32(0, CheckedData(l, name, value))
  {
    hide Crc32;
    var head := Lengths(name, value);
    crc := CalcCrc32(0, head);
    crc := CrcPadded(l, crc, name);
    Composition(0, head, Padded(l, name));
    crc := CrcPadded(l, crc, value);
    Composition(0, head + Padded(l, name), Padded(l, value));
  }

  method CrcPadded(l: Layout, start: bv32, s: Bytes) returns (crc: bv32)
    ensures crc == Crc32(start, Padded(l, s))
  {
    hide Crc32;
    crc := CalcCrc32(start, s);
    var remain := l.Align(|s|) - |s|;
    ghost var done := s;
    while remain > 0
      invariant 0 <= remain <= l.Align(|s|) - |s|
      invariant done == s + Blanks(l.Align(|s|) - |s| - remain) && crc == Crc32(start, done)
    {
      Composition(start, done, [0xFF]);
      crc := CalcCrc32(crc, [0xFF]);
      done := done + [0xFF];
      remain := remain - 1;
      assert Blanks(l.Align(|s|) - |s| - remain) == Blanks(l.Align(|s|) - |s| - remain - 1) + [0xFF];
    }
    assert done == Padded(l, s);
  }

  lemma SliceOutside(a: Bytes, b: Bytes, at: nat, n: nat, from: nat, k: nat)
    requires OnlyIn(a, b, at, n) && from + k <= |a| && (from + k <= at || at + n <= from)
    ensures Slice(b, from, k) == Slice(a, from, k)
  {
  }

  lemma OnlyInWider(a: Bytes, b: Bytes, c: Bytes, at: nat, n: nat, at': nat, n': nat)
    requires OnlyIn(a, b, at, n) && OnlyIn(b, c, at', n') && at <= at' && at' + n' <= at + n
    ensures OnlyIn(a, c, at, n)
  {
  }

  lemma ErasedKept(a: Bytes, b: Bytes, at: nat, n: nat, from: nat, k: nat)
    requires OnlyIn(a, b, at, n) && from + k <= |a| && Erased(a, from, k) && (from + k <= at || at + n <= from)
    ensures Erased(b, from, k)
  {
  }

  /** The status table of a record whose creation is complete. */
  function LiveTable(l: Layout): (r: Table)
    requires l.Valid()
    ensures |r| == TableLen(l)
  {
    Written(l.gran, Written(l.gran, Blank(l.gran, KV_STATUS_NUM), KV_STATUS_NUM, PRE_WRITE), KV_STATUS_NUM, WRITE)
  }

  lemma TableFits(l: Layout)
    requires l.Valid()
    ensures TableLen(l) <= l.MagicOff()
  {
  }

  /** The status table once a creation has begun. */
  function PreTable(l: Layout): (r: Table)
    requires l.Valid()
    ensures |r| == TableLen(l)
  {
    Written(l.gran, Blank(l.gran, KV_STATUS_NUM), KV_STATUS_NUM, PRE_WRITE)
  }

  /** A record under creation: its status table, its header, and what stands in the places of name and value. */
  predicate Standing(l: Layout, mem: Bytes, addr: nat, table: Table, name: Bytes, value: Bytes, n: Bytes, v: Bytes)
    requires Sizes(l, name, value)
  {
    && addr + l.Len(name, value) <= |mem| && |table| == TableLen(l) <= l.MagicOff()
    && Slice(mem, addr, TableLen(l)) == table
    && Erased(mem, addr + TableLen(l), l.MagicOff() - TableLen(l))
    && Slice(mem, addr + l.MagicOff(), 20) == HeaderBytes(l, name, value)
    && Slice(mem, addr + l.Hdr(), l.Align(|name|)) == n
    && Slice(mem, addr + l.Hdr() + l.Align(|name|), l.Align(|value|)) == v
  }

  /**
   `write_kv_hdr`: the status PRE_WRITE, then the 20 header bytes behind the status table. `mid`
   is the flash between the two.
   */
  method WriteKvHdr(l: Layout, mem: Bytes, addr: nat, header: Bytes) returns (r: Bytes, ghost mid: Bytes)
    requires l.Valid() && |header| == 20 && addr + l.Hdr() <= |mem|
    requires TableLen(l) <= l.MagicOff() && Erased(mem, addr, TableLen(l)) && Erased(mem, addr + l.MagicOff(), 20)
    requires Erased(mem, addr + TableLen(l), l.MagicOff() - TableLen(l))
    ensures OnlyIn(mem, r, addr, l.Hdr()) && |r| == |mem| && Erased(r, addr + TableLen(l), l.MagicOff() - TableLen(l))
    ensures TableLen(l) <= l.MagicOff() && |r| == |mem| && Slice(r, addr + l.MagicOff(), 20) == header
    ensures Slice(r, addr, TableLen(l)) == PreTable(l)
    ensures OnlyIn(mem, mid, addr, TableLen(l)) && |mid| == |mem| && Slice(mid, addr, TableLen(l)) == PreTable(l)
  {
    hide Written, Slice, OnlyIn, Erased;
    TableFits(l);
    var T := TableLen(l);
    ErasedSlice(mem, addr, T);
    var m1 := WriteKvStatus(l, mem, addr, PRE_WRITE);
    mid := m1;
    OnlyInSize(mem, m1, addr, T);
    ErasedKept(mem, m1, addr, T, addr + l.MagicOff(), 20);
    ErasedKept(mem, m1, addr, T, addr + T, l.MagicOff() - T);
    r := FlashWrite(m1, addr + l.MagicOff(), header);
    OnlyInSize(m1, r, addr + l.MagicOff(), 20);
    ErasedKept(m1, r, addr + l.MagicOff(), 20, addr + T, l.MagicOff() - T);
    SliceOutside(m1, r, addr + l.MagicOff(), 20, addr, T);
    OnlyInAll(mem, m1, addr, T, addr, l.Hdr());
    OnlyInWider(mem, m1, r, addr, l.Hdr(), addr + l.MagicOff(), 20);
  }

  /** The first part of `create_kv_blob`: the header. */
  method BeginKv(l: Layout, mem: Bytes, addr: nat, name: Bytes, value: Bytes) returns (r: Bytes, ghost mid: Bytes)
    requires Sizes(l, name, value) && addr + l.Len(name, value) <= |mem| && Erased(mem, addr, l.Len(name, value))
    ensures Standing(l, r, addr, PreTable(l), name, value, Blanks(l.Align(|name|)), Blanks(l.Align(|value|)))
    ensures OnlyIn(mem, r, addr, l.Hdr()) && OnlyIn(mem, mid, addr, TableLen(l)) && addr + TableLen(l) <= |mid|
    ensures Slice(mid, addr, TableLen(l)) == PreTable(l)
  {
    hide Crc32, Written, Padded, Slice, OnlyIn, Erased, AlignUp, PadTo, PreTable;
    TableFits(l);
    var T, hdr, an, av, len := TableLen(l), l.Hdr(), l.Align(|name|), l.Align(|value|), l.Len(name, value);
    ErasedPart(mem, addr, len, addr, T);
    ErasedPart(mem, addr, len, addr + T, l.MagicOff() - T);
    ErasedPart(mem, addr, len, addr + l.MagicOff(), 20);
    ErasedPart(mem, addr, len, addr + hdr, an);
    ErasedPart(mem, addr, len, addr + hdr + an, av);
    var crc := RecordCrc(l, name, value);
    r, mid := WriteKvHdr(l, mem, addr, MAGIC + ToLe32(len) + WordLe32(crc) + Lengths(name, value));
    OnlyInSize(mem, r, addr, hdr);
    ErasedKept(mem, r, addr, hdr, addr + hdr, an);
    ErasedKept(mem, r, addr, hdr, addr + hdr + an, av);
    ErasedSlice(r, addr + hdr, an);
    ErasedSlice(r, addr + hdr + an, av);
  }

  /** The name of a record whose header was written. */
  method WriteName(l: Layout, mem: Bytes, addr: nat, name: Bytes, ghost value: Bytes) returns (r: Bytes)
    requires Sizes(l, name, value)
    requires Standing(l, mem, addr, PreTable(l), name, value, Blanks(l.Align(|name|)), Blanks(l.Align(|value|)))
    ensures Standing(l, r, addr, PreTable(l), name, value, Padded(l, name), Blanks(l.Align(|value|)))
    ensures OnlyIn(mem, r, addr + l.Hdr(), l.Align(|name|))
  {
    hide Crc32, HeaderBytes, Padded, Slice, OnlyIn, Erased, AlignUp, PadTo, PreTable;
    ghost var T, hdr, an, av := TableLen(l), l.Hdr(), l.Align(|name|), l.Align(|value|);
    BlankSlice(mem, addr + hdr, an);
    r := AlignWrite(l, mem, addr + l.Hdr(), name);
    OnlyInSize(mem, r, addr + hdr, an);
    ErasedKept(mem, r, addr + hdr, an, addr + T, l.MagicOff() - T);
    SliceOutside(mem, r, addr + hdr, an, addr, T);
    SliceOutside(mem, r, addr + hdr, an, addr + l.MagicOff(), 20);
    SliceOutside(mem, r, addr + hdr, an, addr + hdr + an, av);
  }

  /** The value of a record whose name was written. */
  method WriteValue(l: Layout, mem: Bytes, addr: nat, name: Bytes, value: Bytes) returns (r: Bytes)
    requires Sizes(l, name, value)
    requires Standing(l, mem, addr, PreTable(l), name, value, Padded(l, name), Blanks(l.Align(|value|)))
    ensures Standing(l, r, addr, PreTable(l), name, value, Padded(l, name), Padded(l, value))
    ensures OnlyIn(mem, r, addr + l.Hdr() + l.Align(|name|), l.Align(|value|))
  {
    hide Crc32, HeaderBytes, Padded, Slice, OnlyIn, Erased, AlignUp, PadTo, PreTable;
    var at := addr + l.Hdr() + l.Align(|name|);
    ghost var T, an, av := TableLen(l), l.Align(|name|), l.Align(|value|);
    BlankSlice(mem, at, av);
    r := AlignWrite(l, mem, at, value);
    OnlyInSize(mem, r, at, av);
    ErasedKept(mem, r, at, av, addr + T, l.MagicOff() - T);
    SliceOutside(mem, r, at, av, addr, T);
    SliceOutside(mem, r, at, av, addr + l.MagicOff(), 20);
    SliceOutside(mem, r, at, av, addr + l.Hdr(), an);
  }

  /** The status WRITE, which makes a record live. */
  method FinishKv(l: Layout, mem: Bytes, addr: nat, ghost name: Bytes, ghost value: Bytes) returns (r: Bytes)
    requires Sizes(l, name, value)
    requires Standing(l, mem, addr, PreTable(l), name, value, Padded(l, name), Padded(l, value))
    ensures Standing(l, r, addr, LiveTable(l), name, value, Padded(l, name), Padded(l, value))
    ensures OnlyIn(mem, r, addr, TableLen(l))
  {
    hide Crc32, HeaderBytes, Padded, Slice, OnlyIn, Erased, AlignUp, PadTo, Written;
    ghost var T, hdr, an, av := TableLen(l), l.Hdr(), l.Align(|name|), l.Align(|value|);
    r := WriteKvStatus(l, mem, addr, WRITE);
    OnlyInSize(mem, r, addr, T);
    ErasedKept(mem, r, addr, T, addr + T, l.MagicOff() - T);
    SliceOutside(mem, r, addr, T, addr + l.MagicOff(), 20);
    SliceOutside(mem, r, addr, T, addr + hdr, an);
    SliceOutside(mem, r, addr, T, addr + hdr + an, av);
  }

  /** What stands in the places of name and value after write `k` of a creation. */
  function NameAfter(l: Layout, name: Bytes, k: nat): Bytes {
    if k < 2 then Blanks(l.Align(|name|)) else Padded(l, name)
  }

  function ValueAfter(l: Layout, value: Bytes, k: nat): Bytes {
    if k < 3 then Blanks(l.Align(|value|)) else Padded(l, value)
  }

  function TableAfter(l: Layout, k: nat): Table
    requires l.Valid()
  {
    if k < 4 then PreTable(l) else LiveTable(l)
  }

  /**
   The flash writes of `create_kv_blob`, on erased space: status, header, name, value, status.
   `steps` is the flash after each of them.
   */
  method CreateKv(l: Layout, mem: Bytes, addr: nat, name: Bytes, value: Bytes)
    returns (r: Bytes, ghost steps: seq<Bytes>)
    requires Sizes(l, name, value) && addr + l.Len(name, value) <= |mem| && Erased(mem, addr, l.Len(name, value))
    ensures OnlyIn(mem, r, addr, l.Len(name, value)) && Holds(l, r, addr, LiveTable(l), name, value)
    ensures Erased(r, addr + TableLen(l), l.MagicOff() - TableLen(l))
    ensures |steps| == 5 && steps[4] == r && forall k :: 0 <= k < 5 ==> OnlyIn(mem, steps[k], addr, l.Len(name, value))
    ensures OnlyIn(mem, steps[0], addr, TableLen(l)) && addr + TableLen(l) <= |steps[0]|
    ensures Slice(steps[0], addr, TableLen(l)) == PreTable(l)
    ensures forall k :: 1 <= k < 5 ==>
      Standing(l, steps[k], addr, TableAfter(l, k), name, value, NameAfter(l, name, k), ValueAfter(l, value, k))
  {
    hide Crc32, HeaderBytes, Padded, Slice, OnlyIn, Erased, AlignUp, PadTo, PreTable, LiveTable;
    TableFits(l);
    ghost var hdr, an, av, len := l.Hdr(), l.Align(|name|), l.Align(|value|), l.Len(name, value);
    ghost var mid;
    var m2;
    m2, mid := BeginKv(l, mem, addr, name, value);
    var m3 := WriteName(l, m2, addr, name, value);
    var m4 := WriteValue(l, m3, addr, name, value);
    r := FinishKv(l, m4, addr, name, value);
    steps := [mid, m2, m3, m4, r];
    OnlyInAll(mem, mid, addr, TableLen(l), addr, len);
    OnlyInAll(mem, m2, addr, hdr, addr, len);
    OnlyInWider(mem, m2, m3, addr, len, addr + hdr, an);
    OnlyInWider(mem, m3, m4, addr, len, addr + hdr + an, av);
    OnlyInWider(mem, m4, r, addr, len, addr, TableLen(l));
  }

  lemma BlankSlice(mem: Bytes, at: nat, n: nat)
    requires at + n <= |mem| && Slice(mem, at, n) == Blanks(n)
    ensures Erased(mem, at, n)
  {
    assert forall i :: at <= i < at + n ==> mem[i] == Slice(mem, at, n)[i - at];
  }

  lemma OnlyInSize(a: Bytes, b: Bytes, at: nat, n: nat)
    requires OnlyIn(a, b, at, n)
    ensures |a| == |b|
  {
  }

  lemma OnlyInAll(a: Bytes, b: Bytes, at: nat, n: nat, at': nat, n': nat)
    requires OnlyIn(a, b, at, n) && at' <= at && at + n <= at' + n'
    ensures OnlyIn(a, b, at', n')
  {
  }

  lemma ErasedPart(mem: Bytes, at: nat, n: nat, from: nat, k: nat)
    requires at + n <= |mem| && Erased(mem, at, n) && at <= from && from + k <= at + n
    ensures Erased(mem, from, k)
  {
  }

  lemma ErasedSlice(mem: Bytes, at: nat, n: nat)
    requires at + n <= |mem| && Erased(mem, at, n)
    ensures Slice(mem, at, n) == Blanks(n)
  {
  }

  // ---------- Reading ----------

  datatype KvObj = KvObj(status: nat, crcOk: bool, len: nat, name: Bytes, nameLen: nat, valueAddr: nat, valueLen: nat)

  /** The stored length, at the place `read_kv` looks. */
  function StoredLen(l: Layout, mem: Bytes, addr: nat): nat
    requires addr + l.Hdr() <= |mem|
  {
    FromLe32(Slice(mem, addr + l.MagicOff() + 4, 4))
  }

  /** `read_kv` takes the stored length for real. */
  predicate LenOk(l: Layout, mem: Bytes, addr: nat, maxSize: nat)
    requires addr + l.Hdr() <= |mem|
  {
    l.NameLenOff() <= StoredLen(l, mem, addr) <= maxSize
  }

  /** The checksum loop of `read_kv`, in chunks of 32 bytes. */
  method ChunkedCrc(mem: Bytes, from: nat, n: nat) returns (crc: bv32)
    requires from + n <= |mem|
    ensures crc == Crc32(0, Slice(mem, from, n))
  {
    hide Crc32;
    crc := 0;
    EmptyCrc(mem[from..from]);
    var len := 0;
    while len < n
      invariant 0 <= len <= n && crc == Crc32(0, Slice(mem, from, len))
    {
      var size := if len + 32 < n then 32 else n - len;
      Composition(0, Slice(mem, from, len), Slice(mem, from + len, size));
      assert Slice(mem, from, len + size) == Slice(mem, from, len) + Slice(mem, from + len, size);
      crc := CalcCrc32(crc, Slice(mem, from + len, size));
      len := len + size;
    }
  }

  lemma EmptyCrc(s: Bytes)
    requires s == []
    ensures Crc32(0, s) == 0
  {
    FlipTwice(0);
  }

  /** `read_kv`, for a record that lies within the medium. */
  method ReadKv(l: Layout, mem: Bytes, addr: nat, maxSize: nat) returns (kv: KvObj)
    requires l.Valid() && addr + l.Hdr() <= |mem|
    requires LenOk(l, mem, addr, maxSize) ==>
      addr + StoredLen(l, mem, addr) <= |mem| && l.Hdr() <= StoredLen(l, mem, addr)
    requires LenOk(l, mem, addr, maxSize) ==> addr + l.Hdr() + l.Align(mem[addr + l.NameLenOff()] as nat) <= |mem|
    ensures !LenOk(l, mem, addr, maxSize) ==> !kv.crcOk && kv.len == l.Hdr() && kv.status == 5
    ensures LenOk(l, mem, addr, maxSize) ==>
      && kv.len == StoredLen(l, mem, addr)
      && kv.status == (TableFits(l); StatusOf(l.gran, Slice(mem, addr, TableLen(l)), KV_STATUS_NUM, KV_STATUS_NUM - 1))
      && (kv.crcOk <==>
        Le32Word(Slice(mem, addr + l.MagicOff() + 8, 4))
          == Crc32(0, Slice(mem, addr + l.NameLenOff(), kv.len - l.NameLenOff())))
    ensures kv.crcOk ==>
      && kv.nameLen == mem[addr + l.NameLenOff()] as nat
      && kv.valueLen == FromLe32(Slice(mem, addr + l.MagicOff() + 16, 4))
      && kv.valueAddr == addr + l.Hdr() + l.Align(kv.nameLen)
      && kv.name == Slice(mem, addr + l.Hdr(), if kv.nameLen >= NAME_MAX then NAME_MAX - 1 else kv.nameLen)
  {
    hide Crc32, StatusOf, Le32Word, FromLe32, Slice, AlignUp;
    TableFits(l);
    var status := GetStatus(l.gran, Slice(mem, addr, TableLen(l)), KV_STATUS_NUM);
    var len := StoredLen(l, mem, addr);
    if len > maxSize || len < l.NameLenOff() {
      return KvObj(5, false, l.Hdr(), [], 0, 0, 0);
    }
    var crc := ChunkedCrc(mem, addr + l.NameLenOff(), len - l.NameLenOff());
    if crc != Le32Word(Slice(mem, addr + l.MagicOff() + 8, 4)) {
      return KvObj(status, false, len, [], 0, 0, 0);
    }
    var nameLen := mem[addr + l.NameLenOff()] as nat;
    var name := Slice(mem, addr + l.Hdr(), if nameLen >= NAME_MAX then NAME_MAX - 1 else nameLen);
    kv := KvObj(status, true, len, name, nameLen, addr + l.Hdr() + l.Align(nameLen),
      FromLe32(Slice(mem, addr + l.MagicOff() + 16, 4)));
  }

  // ---------- Round trip ----------

  lemma SubSlice(mem: Bytes, at: nat, n: nat, k: nat, j: nat)
    requires at + n <= |mem| && k + j <= n
    ensures Slice(mem, at + k, j) == Slice(mem, at, n)[k..k + j]
  {
    var a, b := Slice(mem, at + k, j), Slice(mem, at, n)[k..k + j];
    forall i | 0 <= i < j
      ensures a[i] == b[i]
    {
      assert a[i] == mem[at + k + i] && b[i] == mem[at..at + n][k + i] == mem[at + (k + i)];
    }
  }

  lemma JoinSlices(mem: Bytes, at: nat, n: nat, k: nat)
    requires at + n + k <= |mem|
    ensures Slice(mem, at, n + k) == Slice(mem, at, n) + Slice(mem, at + n, k)
  {
  }

  /** The fields of a stored header. */
  lemma HeaderFields(l: Layout, mem: Bytes, addr: nat, name: Bytes, value: Bytes)
    requires Sizes(l, name, value) && addr + l.Hdr() <= |mem|
    requires Slice(mem, addr + l.MagicOff(), 20) == HeaderBytes(l, name, value)
    ensures Slice(mem, addr + l.MagicOff() + 4, 4) == ToLe32(l.Len(name, value))
    ensures Slice(mem, addr + l.MagicOff() + 8, 4) == WordLe32(Crc32(0, CheckedData(l, name, value)))
    ensures Slice(mem, addr + l.NameLenOff(), 8) == Lengths(name, value)
    ensures mem[addr + l.NameLenOff()] == |name| as bv8 && Slice(mem, addr + l.MagicOff() + 16, 4) == ToLe32(|value|)
  {
    hide Crc32, ToLe32, WordLe32;
    var at := addr + l.MagicOff();
    var h := HeaderBytes(l, name, value);
    SubSlice(mem, at, 20, 4, 4);
    SubSlice(mem, at, 20, 8, 4);
    SubSlice(mem, at, 20, 12, 8);
    SubSlice(mem, at, 20, 16, 4);
    assert h[4..8] == ToLe32(l.Len(name, value));
    assert h[8..12] == WordLe32(Crc32(0, CheckedData(l, name, value)));
    assert h[12..20] == Lengths(name, value);
    assert h[16..20] == Lengths(name, value)[4..8] == ToLe32(|value|);
    assert mem[addr + l.NameLenOff()] == Slice(mem, addr + l.NameLenOff(), 8)[0];
  }

  /** The checked region of a stored record. */
  lemma CheckedRegion(l: Layout, mem: Bytes, addr: nat, table: Table, name: Bytes, value: Bytes)
    requires Sizes(l, name, value) && Holds(l, mem, addr, table, name, value)
    ensures Slice(mem, addr + l.NameLenOff(), l.Len(name, value) - l.NameLenOff()) == CheckedData(l, name, value)
  {
    hide Padded, Lengths, HeaderBytes, Slice, Crc32, ToLe32, WordLe32;
    HeaderFields(l, mem, addr, name, value);
    var at, an, av := addr + l.NameLenOff(), l.Align(|name|), l.Align(|value|);
    JoinSlices(mem, at, 8, an);
    JoinSlices(mem, at, 8 + an, av);
  }

  lemma LiveStatus(l: Layout)
    requires l.Valid()
    ensures StatusOf(l.gran, LiveTable(l), KV_STATUS_NUM, KV_STATUS_NUM - 1) == WRITE
  {
    var ss := [PRE_WRITE, WRITE];
    ReadsBackMax(l.gran, KV_STATUS_NUM, ss);
    hide Written, StatusOf;
    assert ss[..1] == [PRE_WRITE] && ss[..1][..0] == [];
    assert WrittenAll(l.gran, Blank(l.gran, KV_STATUS_NUM), KV_STATUS_NUM, []) == Blank(l.gran, KV_STATUS_NUM);
    assert Max(ss[..1]) == 1;
  }

  /**
   What `create_kv_blob` programs for a key and a value is read back by `read_kv` as a live
   record with a correct checksum and a value range that holds the value. The name comes back
   whole exactly when it is shorter than the name buffer.
   */
  method RoundTrip(l: Layout, mem: Bytes, addr: nat, name: Bytes, value: Bytes, maxSize: nat)
    returns (r: Bytes, kv: KvObj)
    requires Sizes(l, name, value) && addr + l.Len(name, value) <= |mem| && Erased(mem, addr, l.Len(name, value))
    requires l.Len(name, value) <= maxSize
    ensures OnlyIn(mem, r, addr, l.Len(name, value))
    ensures kv.crcOk && kv.status == WRITE && kv.len == l.Len(name, value) && kv.nameLen == |name|
    ensures kv.valueLen == |value|
    ensures kv.valueAddr + kv.valueLen <= |r| && Slice(r, kv.valueAddr, kv.valueLen) == value
    ensures kv.name == name <==> |name| < NAME_MAX
  {
    hide Crc32, StatusOf, Le32Word, FromLe32, ToLe32, WordLe32, Written, Padded, OnlyIn, Erased, CheckedData,
      HeaderBytes, Slice, Lengths, AlignUp, PadTo;
    ghost var steps;
    r, steps := CreateKv(l, mem, addr, name, value);
    ghost var table := LiveTable(l);
    HoldsFits(l, r, addr, table, name, value);
    HeaderFields(l, r, addr, name, value);
    CheckedRegion(l, r, addr, table, name, value);
    Le32RoundTrip(l.Len(name, value));
    Le32RoundTrip(|value|);
    ByteRoundTrip(|name|);
    WordRoundTrip(Crc32(0, CheckedData(l, name, value)));
    LiveStatus(l);
    NameAndValue(l, r, addr, table, name, value);
    kv := ReadKv(l, r, addr, maxSize);
  }

  lemma HoldsFits(l: Layout, mem: Bytes, addr: nat, table: Table, name: Bytes, value: Bytes)
    requires Sizes(l, name, value) && Holds(l, mem, addr, table, name, value)
    ensures addr + l.Hdr() + l.Align(|name|) + l.Align(|value|) <= |mem| && Slice(mem, addr, TableLen(l)) == table
  {
  }

  lemma NameAndValue(l: Layout, mem: Bytes, addr: nat, table: Table, name: Bytes, value: Bytes)
    requires Sizes(l, name, value) && Holds(l, mem, addr, table, name, value)
    ensures Slice(mem, addr + l.Hdr(), |name|) == name
    ensures Slice(mem, addr + l.Hdr() + l.Align(|name|), |value|) == value
    ensures forall k :: 0 <= k <= |name| ==> Slice(mem, addr + l.Hdr(), k) == name[..k]
  {
    var a, b := addr + l.Hdr(), addr + l.Hdr() + l.Align(|name|);
    SubSlice(mem, b, l.Align(|value|), 0, |value|);
    forall k | 0 <= k <= |name|
      ensures Slice(mem, a, k) == name[..k]
    {
      SubSlice(mem, a, l.Align(|name|), 0, k);
      assert Padded(l, name)[..k] == name[..k];
    }
    assert name[..|name|] == name;
  }

  /**
   A record read back with one byte of its name, its value or their lengths changed: the checksum
   is accepted exactly if the byte is the one that was stored.
   */
  method DamageSeen(l: Layout, mem: Bytes, addr: nat, name: Bytes, value: Bytes, maxSize: nat, p: nat, x: bv8)
    returns (r: Bytes, kv: KvObj)
    requires Sizes(l, name, value) && addr + l.Len(name, value) <= |mem| && Erased(mem, addr, l.Len(name, value))
    requires l.Len(name, value) <= maxSize && addr + l.NameLenOff() <= p < addr + l.Len(name, value)
    requires p == addr + l.NameLenOff() ==> addr + l.Hdr() + l.Align(x as nat) <= |mem|
    ensures p < |r| && (kv.crcOk <==> r[p] == x) && kv.len == l.Len(name, value)
  {
    hide Crc32, StatusOf, Le32Word, FromLe32, ToLe32, WordLe32, Written, Padded, OnlyIn, Erased, CheckedData,
      HeaderBytes, Slice, Lengths, AlignUp, PadTo;
    ghost var steps;
    r, steps := CreateKv(l, mem, addr, name, value);
    ghost var table, len := LiveTable(l), l.Len(name, value);
    HoldsFits(l, r, addr, table, name, value);
    HeaderFields(l, r, addr, name, value);
    CheckedRegion(l, r, addr, table, name, value);
    Le32RoundTrip(len);
    ByteRoundTrip(|name|);
    WordRoundTrip(Crc32(0, CheckedData(l, name, value)));
    OnlyInSize(mem, r, addr, len);
    var bad := r[p := x];
    assert bad[addr + l.NameLenOff()] as nat == if p == addr + l.NameLenOff() then x as nat else |name|;
    SliceKept(r, p, x, addr + l.MagicOff() + 4, 4);
    SliceKept(r, p, x, addr + l.MagicOff() + 8, 4);
    DamagedSlice(r, p, x, addr + l.NameLenOff(), len - l.NameLenOff());
    kv := ReadKv(l, bad, addr, maxSize);
  }

  lemma SliceKept(mem: Bytes, p: nat, x: bv8, at: nat, n: nat)
    requires p < |mem| && at + n <= |mem| && (p < at || at + n <= p)
    ensures Slice(mem[p := x], at, n) == Slice(mem, at, n)
  {
  }

  lemma DamagedSlice(mem: Bytes, p: nat, x: bv8, at: nat, n: nat)
    requires p < |mem| && at + n <= |mem| && at <= p < at + n
    ensures Crc32(0, Slice(mem[p := x], at, n)) == Crc32(0, Slice(mem, at, n)) <==> mem[p] == x
  {
    hide Crc32;
    var a, b := mem[at..p], mem[p + 1..at + n];
    assert Slice(mem, at, n) == a + [mem[p]] + b;
    assert Slice(mem[p := x], at, n) == a + [x] + b;
    OneByte(0, a, mem[p], x, b);
  }

  // ---------- A record byte for byte ----------

  lemma WordBytes()
    ensures WordLe32(0x3030_564B) == [0x4B, 0x56, 0x30, 0x30]
  {
  }

  lemma Quotient(q: nat, r: nat, m: nat)
    requires r < m
    ensures (m * q + r) / m == q && (m * q + r) % m == r
  {
    var n := m * q + r;
    assert n == m * (n / m) + n % m;
    var d := q - n / m;
    assert m * d == n % m - r;
    assert (d >= 1 ==> m * d >= m) && (d <= -1 ==> m * d + m <= 0);
  }

  lemma NumberParts(n: nat, a: nat, b: nat, c: nat, d: nat)
    requires a < 256 && b < 256 && c < 256 && d < 256 && n == a + 256 * b + 0x1_0000 * c + 0x100_0000 * d
    ensures n % 256 == a && n / 256 % 256 == b && n / 0x1_0000 % 256 == c && n / 0x100_0000 == d
  {
    Quotient(b + 256 * c + 0x1_0000 * d, a, 256);
    Quotient(c + 256 * d, b, 256);
    Quotient(c + 256 * d, a + 256 * b, 0x1_0000);
    Quotient(d, c, 256);
    Quotient(d, a + 256 * b + 0x1_0000 * c, 0x100_0000);
  }

  /** Words stand on flash with the lowest byte first. */
  lemma NumberBytes(n: nat, a: nat, b: nat, c: nat, d: nat)
    requires a < 256 && b < 256 && c < 256 && d < 256 && n == a + 256 * b + 0x1_0000 * c + 0x100_0000 * d
    ensures ToLe32(n) == [a as bv8, b as bv8, c as bv8, d as bv8]
  {
    NumberParts(n, a, b, c, d);
  }

  /** The status table of a finished record, with what is left blank behind it. */
  lemma KnownTable(l: Layout)
    requires l.Valid()
    ensures LiveTable(l) ==
      if l.gran.Bit? then [0x3F]
      else if l.gran == Units(1) then [0, 0, 0xFF, 0xFF, 0xFF]
      else [0, 0xFF, 0xFF, 0xFF, 0, 0xFF, 0xFF, 0xFF] + Blanks(12)
  {
    hide Blanks;
  }

  /** A record in its five parts. */
  lemma RecordParts(l: Layout, mem: Bytes, table: Table, name: Bytes, value: Bytes)
    requires Sizes(l, name, value) && Holds(l, mem, 0, table, name, value)
    requires Erased(mem, TableLen(l), l.MagicOff() - TableLen(l))
    ensures mem[..l.Len(name, value)]
      == table + Blanks(l.MagicOff() - TableLen(l)) + HeaderBytes(l, name, value) + Padded(l, name) + Padded(l, value)
  {
    hide HeaderBytes, Padded, Layout.Align;
    var t, m, h, n := TableLen(l), l.MagicOff(), l.Hdr(), l.Hdr() + l.Align(|name|);
    assert Slice(mem, t, m - t) == Blanks(m - t);
    assert mem[..m] == mem[..t] + mem[t..m];
    assert mem[..h] == mem[..m] + mem[m..h];
    assert mem[..n] == mem[..h] + mem[h..n];
    assert mem[..l.Len(name, value)] == mem[..n] + mem[n..l.Len(name, value)];
  }

  /** The record of the name "k" and the value "vw", with its checksum bytes left open. */
  function Sample(l: Layout, crc: Bytes): Bytes
    requires l.Valid()
  {
    if l.gran.Bit? then
      [0x3F, 0xFF, 0xFF, 0xFF] + [0x4B, 0x56, 0x30, 0x30, 27, 0, 0, 0] + crc
      + [1, 0xFF, 0xFF, 0xFF, 2, 0, 0, 0] + [0x6B, 0x76, 0x77]
    else if l.gran == Units(1) then
      [0, 0, 0xFF, 0xFF, 0xFF, 0xFF, 0xFF, 0xFF] + [0x4B, 0x56, 0x30, 0x30, 31, 0, 0, 0] + crc
      + [1, 0xFF, 0xFF, 0xFF, 2, 0, 0, 0] + [0x6B, 0x76, 0x77]
    else
      [0, 0xFF, 0xFF, 0xFF, 0] + Blanks(15) + [0x4B, 0x56, 0x30, 0x30, 48, 0, 0, 0] + crc
      + [1, 0xFF, 0xFF, 0xFF, 2, 0, 0, 0] + [0x6B, 0xFF, 0xFF, 0xFF, 0x76, 0x77, 0xFF, 0xFF]
  }

  /** What the checksum of that record covers. */
  function SampleData(l: Layout): Bytes {
    [1, 0xFF, 0xFF, 0xFF, 2, 0, 0, 0]
    + if l.Words() then [0x6B, 0xFF, 0xFF, 0xFF, 0x76, 0x77, 0xFF, 0xFF] else [0x6B, 0x76, 0x77]
  }

  lemma SamplePadded(l: Layout)
    requires l.Valid()
    ensures Sizes(l, [0x6B], [0x76, 0x77])
    ensures Padded(l, [0x6B]) == if l.Words() then [0x6B, 0xFF, 0xFF, 0xFF] else [0x6B]
    ensures Padded(l, [0x76, 0x77]) == if l.Words() then [0x76, 0x77, 0xFF, 0xFF] else [0x76, 0x77]
    ensures CheckedData(l, [0x6B], [0x76, 0x77]) == SampleData(l)
  {
    NumberBytes(2, 2, 0, 0, 0);
    assert Lengths([0x6B], [0x76, 0x77]) == [1, 0xFF, 0xFF, 0xFF, 2, 0, 0, 0];
  }

  /** The bytes that creating the record leaves on erased flash, at every write granularity. */
  lemma KnownRecord(l: Layout, mem: Bytes)
    requires l.Valid() && Sizes(l, [0x6B], [0x76, 0x77])
    requires Holds(l, mem, 0, LiveTable(l), [0x6B], [0x76, 0x77])
    requires Erased(mem, TableLen(l), l.MagicOff() - TableLen(l))
    ensures mem[..l.Len([0x6B], [0x76, 0x77])] == Sample(l, WordLe32(Crc32(0, SampleData(l))))
  {
    hide Crc32, WordLe32, Padded, HeaderBytes, LiveTable, Holds, Erased, SampleData, Blanks, Sample;
    var crc := WordLe32(Crc32(0, SampleData(l)));
    SamplePadded(l);
    KnownTable(l);
    RecordParts(l, mem, LiveTable(l), [0x6B], [0x76, 0x77]);
    SampleHeader(l, crc);
    if l.gran.Bit? {
      BitSample(crc);
    } else if l.gran == Units(1) {
      ByteSample(crc);
    } else {
      WordSample(crc);
    }
  }

  lemma BitSample(crc: Bytes)
    requires |crc| == 4
    ensures Sample(Layout(Bit), crc)
      == [0x3F] + Blanks(3) + ([0x4B, 0x56, 0x30, 0x30, 27, 0, 0, 0] + crc + [1, 0xFF, 0xFF, 0xFF, 2, 0, 0, 0])
        + [0x6B] + [0x76, 0x77]
  {
  }

  lemma ByteSample(crc: Bytes)
    requires |crc| == 4
    ensures Sample(Layout(Units(1)), crc)
      == [0, 0, 0xFF, 0xFF, 0xFF] + Blanks(3)
        + ([0x4B, 0x56, 0x30, 0x30, 31, 0, 0, 0] + crc + [1, 0xFF, 0xFF, 0xFF, 2, 0, 0, 0]) + [0x6B] + [0x76, 0x77]
  {
  }

  lemma WordSample(crc: Bytes)
    requires |crc| == 4
    ensures Sample(Layout(Units(4)), crc)
      == [0, 0xFF, 0xFF, 0xFF, 0, 0xFF, 0xFF, 0xFF] + Blanks(12) + Blanks(0)
        + ([0x4B, 0x56, 0x30, 0x30, 48, 0, 0, 0] + crc + [1, 0xFF, 0xFF, 0xFF, 2, 0, 0, 0])
        + [0x6B, 0xFF, 0xFF, 0xFF] + [0x76, 0x77, 0xFF, 0xFF]
  {
  }

  lemma SampleHeader(l: Layout, crc: Bytes)
    requires l.Valid() && Sizes(l, [0x6B], [0x76, 0x77]) && crc == WordLe32(Crc32(0, SampleData(l)))
    ensures l.Len([0x6B], [0x76, 0x77]) < 256
    ensures HeaderBytes(l, [0x6B], [0x76, 0x77])
      == [0x4B, 0x56, 0x30, 0x30, l.Len([0x6B], [0x76, 0x77]) as bv8, 0, 0, 0] + crc
        + [1, 0xFF, 0xFF, 0xFF, 2, 0, 0, 0]
  {
    hide Crc32, WordLe32, Padded, CheckedData, ToLe32, SampleData;
    SamplePadded(l);
    NumberBytes(2, 2, 0, 0, 0);
    NumberBytes(l.Len([0x6B], [0x76, 0x77]), l.Len([0x6B], [0x76, 0x77]), 0, 0, 0);
  }
}
