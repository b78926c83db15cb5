/**
 A sector of the record level as it lies in flash, byte for byte, with unfinished records and
 lone status bytes, and what `read_sector_info` makes of these bytes.
 */
module KvImage {
  import opened Options
  import opened Crc
  import opened WriteUnits
  import opened StatusTable
  import opened ByteWords
  import opened RecordCodec
  import opened SectorScan
  import KF = KvFlash
  import KM = KvFirm

  // ---------- Record and sector images ----------

  /** The geometry of the record level that belongs to a layout and a place. */
  predicate Match(g: KF.Geometry, l: Layout, at: Place) {
    && l.Valid() && g.kvHdr == l.Hdr() && g.words == l.Words() && g.Valid()
    && at.secHdr == l.SecHdr() && at.secSize == at.secHdr + g.payload && g.payload < 0xFF00_0000
    && (l.Words() ==> at.First() % 4 == 0)
  }

  function StatusIndex(s: KF.KvStatus): nat {
    match s
    case Unused => 0
    case PreWrite => 1
    case Written => 2
    case PreDelete => 3
    case Deleted => 4
    case ErrHdr => 5
  }

  /** No byte of the magic word among `n` bytes. */
  predicate Quiet(mem: Bytes, a: nat, n: nat) {
    a + n <= |mem| && forall i :: a <= i < a + n ==> mem[i] != 0x4B && mem[i] != 0x56 && mem[i] != 0x30
  }

  function Status(l: Layout, mem: Bytes, addr: nat): nat
    requires l.Valid() && addr + TableLen(l) <= |mem|
  {
    StatusOf(l.gran, Slice(mem, addr, TableLen(l)), KV_STATUS_NUM, KV_STATUS_NUM - 1)
  }

  /** A status table as status writes leave it, and blank bytes up to the magic word. */
  ghost predicate HeadPlain(l: Layout, mem: Bytes, addr: nat)
    requires l.Valid()
  {
    && addr + l.MagicOff() <= |mem| && TableLen(l) <= l.MagicOff()
    && PlainTable(l.gran, Slice(mem, addr, TableLen(l))) && Erased(mem, addr + TableLen(l), l.MagicOff() - TableLen(l))
  }

  lemma PlainQuiet(l: Layout, mem: Bytes, addr: nat)
    requires l.Valid() && HeadPlain(l, mem, addr)
    ensures Quiet(mem, addr, l.MagicOff())
  {
    var t := Slice(mem, addr, TableLen(l));
    forall i | addr <= i < addr + l.MagicOff()
      ensures mem[i] != 0x4B && mem[i] != 0x56 && mem[i] != 0x30
    {
      if i < addr + TableLen(l) {
        assert mem[i] == t[i - addr];
      }
    }
  }

  /** The record `r` stands at `addr`. */
  ghost predicate RecImage(g: KF.Geometry, l: Layout, mem: Bytes, addr: nat, r: KF.Rec)
    requires l.Valid()
  {
    if KF.IsStub(r) then r.len == g.Units(1) && Quiet(mem, addr, g.Units(1)) && mem[addr] != 0xFF
    else if r.stage.StatusOnly? then
      && r.len == l.Hdr() && addr + l.Hdr() <= |mem| && HeadPlain(l, mem, addr) && Erased(mem, addr + l.MagicOff(), 20)
      && Status(l, mem, addr) == StatusIndex(r.status) == 5
    else
      && Sizes(l, r.name, r.value) && r.len == l.Len(r.name, r.value) && addr + r.len <= |mem|
      && HeadPlain(l, mem, addr) && Status(l, mem, addr) == StatusIndex(r.status)
      && Slice(mem, addr + l.MagicOff(), 20) == HeaderBytes(l, r.name, r.value)
      && |KM.Body(g, r)| == r.len - l.Hdr() && Slice(mem, addr + l.Hdr(), r.len - l.Hdr()) == KM.Body(g, r)
  }

  /** The sector `sec` stands at `at`: its records end to end, then erased flash. */
  ghost predicate Image(g: KF.Geometry, l: Layout, mem: Bytes, at: Place, sec: KF.Sector)
    requires l.Valid()
  {
    && at.End() <= |mem| && at.First() + KF.Used(sec.recs) < at.End()
    && (forall i: nat :: i < |sec.recs| ==> RecImage(g, l, mem, at.First() + KF.Used(sec.recs[..i]), sec.recs[i]))
    && Erased(mem, at.First() + KF.Used(sec.recs), at.End() - (at.First() + KF.Used(sec.recs)))
  }

  /** The bytes of a record from its magic word on. */
  function WholeRecord(l: Layout, name: Bytes, value: Bytes): Bytes
    requires Sizes(l, name, value)
  {
    HeaderBytes(l, name, value) + (PadTo(l.Words(), name) + PadTo(l.Words(), value))
  }

  /** The magic word stands in a record only at its head. */
  ghost predicate SingleMagic(l: Layout, name: Bytes, value: Bytes) {
    Sizes(l, name, value) ==> forall p :: 0 < p ==> !MagicAt(WholeRecord(l, name, value), p)
  }

  // ---------- The scan window ----------

  /** Every record of a sector in order starts where the scan window can still see it. */
  lemma InWindow(g: KF.Geometry, l: Layout, at: Place, sec: KF.Sector, i: nat)
    requires Match(g, l, at) && KF.SectorOk(g, sec) && i < |sec.recs|
    ensures at.First() + KF.Used(sec.recs[..i]) + l.MagicOff() + 32 < at.End() - at.secHdr && l.MagicOff() <= at.secHdr
  {
    assert KF.RecOk(g, sec.recs[i]);
  }

  // ---------- Where the magic word is, and where not ----------

  lemma MagicBytes(mem: Bytes, p: nat)
    requires p + 4 <= |mem|
    ensures MagicAt(mem, p) <==> mem[p] == 0x4B && mem[p + 1] == 0x56 && mem[p + 2] == 0x30 && mem[p + 3] == 0x30
  {
    var w := mem[p..p + 4];
    assert w[0] == mem[p] && w[1] == mem[p + 1] && w[2] == mem[p + 2] && w[3] == mem[p + 3];
    assert MAGIC == [0x4B, 0x56, 0x30, 0x30];
  }

  /** A window that touches a quiet byte is not the magic word. */
  lemma NoMagicAcross(mem: Bytes, p: nat, q: nat)
    requires p <= q < p + 4 && q < |mem| && mem[q] != 0x4B && mem[q] != 0x56 && mem[q] != 0x30
    ensures !MagicAt(mem, p)
  {
    if p + 4 <= |mem| {
      MagicBytes(mem, p);
    }
  }

  lemma NoMagicQuiet(mem: Bytes, a: nat, n: nat)
    requires Quiet(mem, a, n) && n > 0
    ensures forall p: nat :: p < a + n && a < p + 4 ==> !MagicAt(mem, p)
  {
    forall p: nat | p < a + n && a < p + 4
      ensures !MagicAt(mem, p)
    {
      NoMagicAcross(mem, p, if p < a then a else p);
    }
  }

  lemma ErasedQuiet(mem: Bytes, a: nat, n: nat)
    requires a + n <= |mem| && Erased(mem, a, n)
    ensures Quiet(mem, a, n)
  {
  }

  lemma RecordMagic(g: KF.Geometry, l: Layout, mem: Bytes, addr: nat, r: KF.Rec)
    requires l.Valid() && RecImage(g, l, mem, addr, r) && !r.stage.StatusOnly?
    ensures MagicAt(mem, addr + l.MagicOff())
  {
    hide Crc32, ToLe32, WordLe32, Lengths, Padded, StatusOf;
    SubSlice(mem, addr + l.MagicOff(), 20, 0, 4);
    assert HeaderBytes(l, r.name, r.value)[0..4] == MAGIC;
  }

  /** Where an unfinished record differs from the finished one, it is blank. */
  lemma BodyPart(g: KF.Geometry, r: KF.Rec)
    requires !r.stage.StatusOnly?
    ensures
      var whole, body := PadTo(g.words, r.name) + PadTo(g.words, r.value), KM.Body(g, r);
      |body| == |whole| && forall i :: 0 <= i < |body| ==> body[i] == whole[i] || body[i] == 0xFF
  {
  }

  /** Behind its own magic word a record holds none that the whole record would not hold. */
  lemma NoSecondMagic(g: KF.Geometry, l: Layout, mem: Bytes, addr: nat, r: KF.Rec, p: nat)
    requires l.Valid() && g.words == l.Words() && RecImage(g, l, mem, addr, r) && !r.stage.StatusOnly?
    requires SingleMagic(l, r.name, r.value) && addr + l.MagicOff() < p && p + 4 <= addr + r.len
    ensures !MagicAt(mem, p)
  {
    hide Crc32, StatusOf, HeaderBytes, HeadPlain, KM.Body, Sizes, PadTo;
    BodyPart(g, r);
    SizesOf(g, l, mem, addr, r);
    var whole, q := WholeRecord(l, r.name, r.value), p - (addr + l.MagicOff());
    assert !MagicAt(whole, q);
    WholeByte(g, l, mem, addr, r, q);
    WholeByte(g, l, mem, addr, r, q + 1);
    WholeByte(g, l, mem, addr, r, q + 2);
    WholeByte(g, l, mem, addr, r, q + 3);
    MagicBytes(mem, p);
    MagicBytes(whole, q);
  }

  lemma SizesOf(g: KF.Geometry, l: Layout, mem: Bytes, addr: nat, r: KF.Rec)
    requires l.Valid() && RecImage(g, l, mem, addr, r) && !r.stage.StatusOnly?
    ensures Sizes(l, r.name, r.value) && addr + r.len <= |mem|
    ensures |WholeRecord(l, r.name, r.value)| == r.len - l.MagicOff()
  {
  }

  lemma WholeByte(g: KF.Geometry, l: Layout, mem: Bytes, addr: nat, r: KF.Rec, q: nat)
    requires l.Valid() && g.words == l.Words() && RecImage(g, l, mem, addr, r) && !r.stage.StatusOnly?
    requires Sizes(l, r.name, r.value) && q < r.len - l.MagicOff() && addr + r.len <= |mem|
    ensures mem[addr + l.MagicOff() + q] == WholeRecord(l, r.name, r.value)[q] || mem[addr + l.MagicOff() + q] == 0xFF
  {
    hide Crc32, StatusOf, HeaderBytes, HeadPlain, KM.Body, PadTo;
    BodyPart(g, r);
    var b := addr + l.MagicOff();
    if q < 20 {
      assert mem[b + q] == Slice(mem, b, 20)[q];
    } else {
      assert mem[b + q] == Slice(mem, addr + l.Hdr(), r.len - l.Hdr())[q - 20];
    }
  }

  /** The address of record `i`, or of the free tail. */
  function Addr(at: Place, sec: KF.Sector, i: nat): nat
    requires i <= |sec.recs|
  {
    at.First() + KF.Used(sec.recs[..i])
  }

  lemma AddrStep(at: Place, sec: KF.Sector, i: nat)
    requires i < |sec.recs|
    ensures Addr(at, sec, i + 1) == Addr(at, sec, i) + sec.recs[i].len
  {
    KF.UsedStep(sec.recs, i);
  }

  lemma AddrEnd(at: Place, sec: KF.Sector)
    ensures Addr(at, sec, |sec.recs|) == at.First() + KF.Used(sec.recs)
  {
    assert sec.recs[..|sec.recs|] == sec.recs;
  }

  lemma ImageAt(g: KF.Geometry, l: Layout, mem: Bytes, at: Place, sec: KF.Sector, i: nat)
    requires l.Valid() && Image(g, l, mem, at, sec) && i < |sec.recs|
    ensures RecImage(g, l, mem, Addr(at, sec, i), sec.recs[i])
  {
  }

  lemma QuietJoin(mem: Bytes, a: nat, n: nat, k: nat)
    requires Quiet(mem, a, n) && Quiet(mem, a + n, k)
    ensures Quiet(mem, a, n + k)
  {
  }

  /** Lone status bytes hold nothing of a magic word. */
  lemma {:induction false} QuietStubs(g: KF.Geometry, l: Layout, mem: Bytes, at: Place, sec: KF.Sector, i: nat, j: nat)
    requires l.Valid() && Image(g, l, mem, at, sec) && i <= j <= |sec.recs|
    requires forall k :: i <= k < j ==> KF.IsStub(sec.recs[k])
    ensures Addr(at, sec, i) <= Addr(at, sec, j) && Quiet(mem, Addr(at, sec, i), Addr(at, sec, j) - Addr(at, sec, i))
    decreases j - i
  {
    hide Image, Quiet, KF.Used;
    if i < j {
      ImageAt(g, l, mem, at, sec, i);
      AddrStep(at, sec, i);
      QuietStubs(g, l, mem, at, sec, i + 1, j);
      QuietJoin(mem, Addr(at, sec, i), sec.recs[i].len, Addr(at, sec, j) - Addr(at, sec, i + 1));
    } else {
      AddrInside(g, l, mem, at, sec, i);
      QuietNone(mem, Addr(at, sec, i));
    }
  }

  lemma QuietNone(mem: Bytes, a: nat)
    requires a <= |mem|
    ensures Quiet(mem, a, 0)
  {
  }

  lemma AddrInside(g: KF.Geometry, l: Layout, mem: Bytes, at: Place, sec: KF.Sector, i: nat)
    requires l.Valid() && Image(g, l, mem, at, sec) && i <= |sec.recs|
    ensures Addr(at, sec, i) < at.End() <= |mem|
  {
    KF.UsedMonotone(sec.recs, i, |sec.recs|);
    assert sec.recs[..|sec.recs|] == sec.recs;
  }

  /** The search of `get_next_kv_addr` behind record `i` begins here. */
  function SearchFrom(g: KF.Geometry, at: Place, sec: KF.Sector, i: nat, crcOk: bool): nat
    requires i < |sec.recs|
  {
    Addr(at, sec, i) + if crcOk then sec.recs[i].len else g.Units(1)
  }

  /** No magic word lies between the search start behind record `i` and the end of that record. */
  ghost predicate Unspoiled(g: KF.Geometry, l: Layout, mem: Bytes, at: Place, sec: KF.Sector, i: nat, crcOk: bool)
    requires i < |sec.recs|
  {
    var from, end := SearchFrom(g, at, sec, i, crcOk) + l.MagicOff(), Addr(at, sec, i) + sec.recs[i].len;
    forall p: nat :: from <= p && p + 4 <= end ==> !MagicAt(mem, p)
  }

  /** An unfinished record is searched from its own start: it must not hold a second magic word. */
  ghost predicate Searchable(l: Layout, r: KF.Rec) {
    KM.Torn(r) ==> SingleMagic(l, r.name, r.value)
  }

  lemma SearchableUnspoiled(g: KF.Geometry, l: Layout, mem: Bytes, at: Place, sec: KF.Sector, i: nat, crcOk: bool)
    requires l.Valid() && g.words == l.Words() && Image(g, l, mem, at, sec) && i < |sec.recs| && !KF.IsStub(sec.recs[i])
    requires Searchable(l, sec.recs[i]) && (!crcOk ==> KM.Torn(sec.recs[i]) || sec.recs[i].stage.StatusOnly?)
    ensures Unspoiled(g, l, mem, at, sec, i, crcOk)
  {
    hide Image, Quiet, KF.Used, SingleMagic;
    var r, a := sec.recs[i], Addr(at, sec, i);
    ImageAt(g, l, mem, at, sec, i);
    forall p: nat | SearchFrom(g, at, sec, i, crcOk) + l.MagicOff() <= p && p + 4 <= a + r.len
      ensures !MagicAt(mem, p)
    {
      if r.stage.StatusOnly? {
        HeadQuiet(g, l, mem, a, r);
        NoMagicQuiet(mem, a, l.Hdr());
      } else {
        NoSecondMagic(g, l, mem, a, r, p);
      }
    }
  }

  /** From the search start to the end of record `i`, when a quiet byte follows it, no magic word begins. */
  lemma QuietInside(g: KF.Geometry, l: Layout, mem: Bytes, at: Place, sec: KF.Sector, i: nat, crcOk: bool, p: nat)
    requires i < |sec.recs| && Unspoiled(g, l, mem, at, sec, i, crcOk)
    requires SearchFrom(g, at, sec, i, crcOk) + l.MagicOff() <= p < Addr(at, sec, i + 1)
    requires Quiet(mem, Addr(at, sec, i + 1), 1)
    ensures !MagicAt(mem, p)
  {
    hide Quiet, KF.Used;
    AddrStep(at, sec, i);
    if p + 4 > Addr(at, sec, i + 1) {
      NoMagicQuiet(mem, Addr(at, sec, i + 1), 1);
    }
  }

  /** What follows record `i` up to the next record seen, or up to the end, is quiet. */
  lemma QuietBehind(g: KF.Geometry, l: Layout, mem: Bytes, at: Place, sec: KF.Sector, i: nat, j: nat)
    requires l.Valid() && Image(g, l, mem, at, sec) && i <= j <= |sec.recs|
    requires forall k :: i <= k < j ==> KF.IsStub(sec.recs[k])
    requires j < |sec.recs| ==> !sec.recs[j].stage.StatusOnly?
    ensures
      var end := if j < |sec.recs| then Addr(at, sec, j) + l.MagicOff() else at.End();
      Addr(at, sec, i) < end && Quiet(mem, Addr(at, sec, i), end - Addr(at, sec, i))
  {
    hide Image, Quiet, KF.Used, RecImage, Erased;
    QuietStubs(g, l, mem, at, sec, i, j);
    var a, b := Addr(at, sec, i), Addr(at, sec, j);
    if j < |sec.recs| {
      ImageAt(g, l, mem, at, sec, j);
      HeadQuiet(g, l, mem, b, sec.recs[j]);
      QuietJoin(mem, a, b - a, l.MagicOff());
    } else {
      AddrEnd(at, sec);
      TailErased(g, l, mem, at, sec);
      ErasedQuiet(mem, b, at.End() - b);
      QuietJoin(mem, a, b - a, at.End() - b);
    }
  }

  lemma HeadQuiet(g: KF.Geometry, l: Layout, mem: Bytes, addr: nat, r: KF.Rec)
    requires l.Valid() && RecImage(g, l, mem, addr, r) && !KF.IsStub(r)
    ensures Quiet(mem, addr, l.MagicOff())
    ensures r.stage.StatusOnly? ==> Quiet(mem, addr, l.Hdr())
  {
    hide Quiet, HeadPlain, StatusOf, HeaderBytes, KM.Body, Erased;
    PlainQuiet(l, mem, addr);
    if r.stage.StatusOnly? {
      ErasedQuiet(mem, addr + l.MagicOff(), 20);
      QuietJoin(mem, addr, l.MagicOff(), 20);
    }
  }

  lemma TailErased(g: KF.Geometry, l: Layout, mem: Bytes, at: Place, sec: KF.Sector)
    requires l.Valid() && Image(g, l, mem, at, sec)
    ensures
      var b := Addr(at, sec, |sec.recs|);
      b < at.End() <= |mem| && Erased(mem, b, at.End() - b)
  {
    AddrEnd(at, sec);
  }

  lemma QuietPrefix(mem: Bytes, a: nat, n: nat)
    requires Quiet(mem, a, n) && n > 0
    ensures Quiet(mem, a, 1)
  {
  }

  /**
   Between the search start and the magic word of the next record seen there is no other;
   without such a record there is none at all.
   */
  lemma NoMagicBefore(g: KF.Geometry, l: Layout, mem: Bytes, at: Place, sec: KF.Sector, i: nat, crcOk: bool, j: nat,
                      p: nat)
    requires l.Valid() && g.words == l.Words() && Image(g, l, mem, at, sec) && i < j <= |sec.recs|
    requires forall k :: i < k < j ==> KF.IsStub(sec.recs[k])
    requires j < |sec.recs| ==> !sec.recs[j].stage.StatusOnly?
    requires Unspoiled(g, l, mem, at, sec, i, crcOk)
    requires SearchFrom(g, at, sec, i, crcOk) + l.MagicOff() <= p
    requires p < if j < |sec.recs| then Addr(at, sec, j) + l.MagicOff() else at.End()
    ensures !MagicAt(mem, p)
  {
    hide Image, Quiet, KF.Used, Unspoiled;
    QuietBehind(g, l, mem, at, sec, i + 1, j);
    var a := Addr(at, sec, i + 1);
    var end := if j < |sec.recs| then Addr(at, sec, j) + l.MagicOff() else at.End();
    if p < a {
      QuietPrefix(mem, a, end - a);
      QuietInside(g, l, mem, at, sec, i, crcOk, p);
    } else {
      NoMagicQuiet(mem, a, end - a);
    }
  }

  /**
   `get_next_kv_addr` on the image of a sector: the next record seen, or nothing, unless a magic
   word within record `i` is taken for a record. That happens exactly when the bytes searched of
   record `i` hold one, where the search window reaches over the whole record.
   */
  method GetNextKvAddr(l: Layout, mem: Bytes, at: Place, addr: nat, len: nat, crcOk: bool, ghost g: KF.Geometry,
                       ghost sec: KF.Sector, ghost i: nat)
    returns (next: Option<nat>)
    requires Match(g, l, at) && KF.SectorOk(g, sec) && Image(g, l, mem, at, sec) && i < |sec.recs|
    requires !KF.IsStub(sec.recs[i])
    requires addr == Addr(at, sec, i) && len == sec.recs[i].len
    ensures Unspoiled(g, l, mem, at, sec, i, crcOk) ==> next == Following(at, sec, NextSeen(sec.recs, i + 1))
    ensures addr + len + 32 < at.End() - at.secHdr && next == Following(at, sec, NextSeen(sec.recs, i + 1)) ==>
      Unspoiled(g, l, mem, at, sec, i, crcOk)
  {
    hide Image, KF.Used, KF.SectorOk, MagicAt, RecImage, AlignUp, NextSeen;
    ghost var j := NextSeen(sec.recs, i + 1);
    NextIsRecord(g, sec, j);
    var start := if crcOk then addr + len else addr + l.Align(1);
    UnitIs(g, l);
    if Unspoiled(g, l, mem, at, sec, i, crcOk) {
      forall p: nat | start + l.MagicOff() <= p < if j < |sec.recs| then Addr(at, sec, j) + l.MagicOff() else at.End()
        ensures !MagicAt(mem, p)
      {
        NoMagicBefore(g, l, mem, at, sec, i, crcOk, j, p);
      }
    }
    AddrInside(g, l, mem, at, sec, j);
    SearchBehind(g, l, at, sec, i, j, crcOk);
    if j < |sec.recs| {
      ImageAt(g, l, mem, at, sec, j);
      RecordMagic(g, l, mem, Addr(at, sec, j), sec.recs[j]);
      InWindow(g, l, at, sec, j);
    }
    next := FindNextKvAddr(l, mem, start, at.End() - at.secHdr);
  }

  /** The first record from position `i` on that is not a lone status byte. */
  function NextSeen(recs: seq<KF.Rec>, i: nat): (j: nat)
    requires i <= |recs|
    ensures i <= j <= |recs| && (forall k :: i <= k < j ==> KF.IsStub(recs[k])) && (j < |recs| ==> !KF.IsStub(recs[j]))
    decreases |recs| - i
  {
    if i < |recs| && KF.IsStub(recs[i]) then NextSeen(recs, i + 1) else i
  }

  function Following(at: Place, sec: KF.Sector, j: nat): Option<nat>
    requires j <= |sec.recs|
  {
    if j < |sec.recs| then Some(Addr(at, sec, j)) else None
  }

  lemma UnitIs(g: KF.Geometry, l: Layout)
    requires g.words == l.Words()
    ensures l.Align(1) == g.Units(1)
  {
  }

  lemma NextIsRecord(g: KF.Geometry, sec: KF.Sector, j: nat)
    requires g.Valid() && KF.SectorOk(g, sec) && 0 < j
    ensures j < |sec.recs| && !KF.IsStub(sec.recs[j]) ==> !sec.recs[j].stage.StatusOnly?
  {
    if j < |sec.recs| {
      assert KF.RecOk(g, sec.recs[j]);
    }
  }

  /** The search starts no later than the next record. */
  lemma SearchBehind(g: KF.Geometry, l: Layout, at: Place, sec: KF.Sector, i: nat, j: nat, crcOk: bool)
    requires Match(g, l, at) && KF.SectorOk(g, sec) && i < j <= |sec.recs| && !KF.IsStub(sec.recs[i])
    ensures SearchFrom(g, at, sec, i, crcOk) <= Addr(at, sec, i) + sec.recs[i].len <= Addr(at, sec, j)
    ensures l.MagicOff() <= at.secHdr <= at.End()
  {
    hide KF.Used;
    assert KF.RecOk(g, sec.recs[i]);
    AddrStep(at, sec, i);
    KF.UsedMonotone(sec.recs, i + 1, j);
  }

  /** An unfinished record whose name holds the magic word is spoiled: a search from its start meets the name first. */
  lemma MagicInName(g: KF.Geometry, l: Layout, mem: Bytes, at: Place, sec: KF.Sector, i: nat, k: nat)
    requires l.Valid() && g.words == l.Words() && Image(g, l, mem, at, sec) && i < |sec.recs|
    requires sec.recs[i].stage.NameDone?
    requires MagicAt(PadTo(g.words, sec.recs[i].name), k)
    ensures !Unspoiled(g, l, mem, at, sec, i, false)
  {
    hide Image, KF.Used, PadTo, HeaderBytes, HeadPlain;
    var r, a := sec.recs[i], Addr(at, sec, i);
    ImageAt(g, l, mem, at, sec, i);
    var p, name := a + l.Hdr() + k, PadTo(g.words, r.name);
    BodyBytes(g, l, mem, a, r);
    MagicBytes(name, k);
    assert KM.Body(g, r)[k] == name[k] && KM.Body(g, r)[k + 1] == name[k + 1] && KM.Body(g, r)[k + 2] == name[k + 2]
      && KM.Body(g, r)[k + 3] == name[k + 3];
    assert mem[p] == KM.Body(g, r)[k] && mem[a + l.Hdr() + (k + 1)] == KM.Body(g, r)[k + 1];
    assert mem[a + l.Hdr() + (k + 2)] == KM.Body(g, r)[k + 2] && mem[a + l.Hdr() + (k + 3)] == KM.Body(g, r)[k + 3];
    MagicBytes(mem, p);
  }

  // ---------- Reading the records ----------

  /** The image of a finished record is what `create_kv_blob` programs. */
  lemma CompleteHolds(g: KF.Geometry, l: Layout, mem: Bytes, addr: nat, r: KF.Rec)
    requires l.Valid() && g.words == l.Words() && RecImage(g, l, mem, addr, r) && r.stage.Complete?
    ensures Sizes(l, r.name, r.value) && addr + TableLen(l) <= |mem|
    ensures Holds(l, mem, addr, Slice(mem, addr, TableLen(l)), r.name, r.value)
  {
    hide Crc32, StatusOf, HeaderBytes, HeadPlain, PadTo, AlignUp, Slice;
    var an, av := l.Align(|r.name|), l.Align(|r.value|);
    SubSlice(mem, addr + l.Hdr(), an + av, 0, an);
    SubSlice(mem, addr + l.Hdr(), an + av, an, av);
    var body := PadTo(l.Words(), r.name) + PadTo(l.Words(), r.value);
    assert body[0..an] == PadTo(l.Words(), r.name) && body[an..an + av] == PadTo(l.Words(), r.value);
  }

  /** The length field of a record whose header is there. */
  lemma LengthStored(g: KF.Geometry, l: Layout, mem: Bytes, addr: nat, r: KF.Rec)
    requires l.Valid() && g.words == l.Words() && RecImage(g, l, mem, addr, r) && !r.stage.StatusOnly?
    ensures addr + l.Hdr() <= |mem| && StoredLen(l, mem, addr) == r.len >= l.Hdr() && addr + r.len <= |mem|
    ensures addr + l.Hdr() + l.Align(mem[addr + l.NameLenOff()] as nat) <= |mem|
  {
    hide Crc32, StatusOf, HeadPlain, PadTo, KM.Body, ToLe32, FromLe32, WordLe32, CheckedData, AlignUp, Slice;
    HeaderFields(l, mem, addr, r.name, r.value);
    Le32RoundTrip(l.Len(r.name, r.value));
    ByteRoundTrip(|r.name|);
  }

  lemma JunkLength(g: KF.Geometry, l: Layout, mem: Bytes, addr: nat, r: KF.Rec)
    requires l.Valid() && RecImage(g, l, mem, addr, r) && KF.IsJunk(r)
    ensures addr + l.Hdr() <= |mem| && StoredLen(l, mem, addr) == 0xFFFF_FFFF
  {
    hide StatusOf;
    var b := Slice(mem, addr + l.MagicOff() + 4, 4);
    ByteRoundTrip(255);
    assert b == [0xFF, 0xFF, 0xFF, 0xFF];
  }

  lemma CrcStored(g: KF.Geometry, l: Layout, mem: Bytes, addr: nat, r: KF.Rec)
    requires l.Valid() && g.words == l.Words() && RecImage(g, l, mem, addr, r) && r.stage.Complete?
    ensures addr + l.Hdr() <= addr + r.len <= |mem|
    ensures Le32Word(Slice(mem, addr + l.MagicOff() + 8, 4))
      == Crc32(0, Slice(mem, addr + l.NameLenOff(), r.len - l.NameLenOff()))
  {
    hide Crc32, StatusOf, HeadPlain, PadTo, KM.Body, ToLe32, WordLe32, Le32Word, CheckedData, AlignUp, Slice, Holds,
      HeaderBytes;
    CompleteHolds(g, l, mem, addr, r);
    CheckedRegion(l, mem, addr, Slice(mem, addr, TableLen(l)), r.name, r.value);
    HeaderFields(l, mem, addr, r.name, r.value);
    WordRoundTrip(Crc32(0, CheckedData(l, r.name, r.value)));
  }

  /** `read_kv` on a record of the image: its length, and a bad checksum only for what is unfinished. */
  method ReadRecord(l: Layout, mem: Bytes, addr: nat, maxSize: nat, ghost g: KF.Geometry, ghost r: KF.Rec)
    returns (kv: KvObj)
    requires l.Valid() && g.Valid() && g.words == l.Words() && RecImage(g, l, mem, addr, r) && KF.RecOk(g, r)
    requires !KF.IsStub(r)
    requires r.len <= maxSize < 0xFFFF_FFFF
    ensures kv.len == r.len && (r.stage.Complete? ==> kv.crcOk)
    ensures !kv.crcOk ==> (KM.Torn(r) || r.stage.StatusOnly?) && (kv.status == 1 || kv.status == 5)
  {
    hide Crc32, StatusOf, HeadPlain, PadTo, KM.Body, Le32Word, FromLe32, AlignUp, Slice, StoredLen, HeaderBytes;
    if r.stage.StatusOnly? {
      JunkLength(g, l, mem, addr, r);
    } else {
      LengthStored(g, l, mem, addr, r);
      if r.stage.Complete? {
        CrcStored(g, l, mem, addr, r);
      }
    }
    kv := ReadKv(l, mem, addr, maxSize);
  }

  // ---------- The free tail ----------

  /** In words every record ends at a word. */
  lemma {:induction false} UsedAligned(g: KF.Geometry, recs: seq<KF.Rec>)
    requires g.words && g.kvHdr % 4 == 0 && forall i: nat :: i < |recs| ==> KF.RecOk(g, recs[i])
    ensures KF.Used(recs) % 4 == 0
  {
    hide KF.RecOk;
    if recs != [] {
      UsedAligned(g, recs[..|recs| - 1]);
      LenAligned(g, recs[|recs| - 1]);
    }
  }

  lemma LenAligned(g: KF.Geometry, r: KF.Rec)
    requires g.words && g.kvHdr % 4 == 0 && KF.RecOk(g, r)
    ensures r.len % 4 == 0
  {
  }

  /** From `n` on there is nothing but 0xFF. */
  predicate EndsBlank(b: Bytes, n: int) {
    0 <= n <= |b| && forall i :: n <= i < |b| ==> b[i] == 0xFF
  }

  /** Some byte of a range is not 0xFF. */
  predicate HasMark(b: Bytes, from: int, to: int) {
    0 <= from <= to <= |b| && exists i :: from <= i < to && b[i] != 0xFF
  }

  lemma EndsBlankMore(b: Bytes, u: nat, n: int)
    requires u <= |b| && KM.AllOnes(b[|b| - u..]) && EndsBlank(b[..|b| - u], n)
    ensures EndsBlank(b, n)
  {
    var c, last := b[..|b| - u], b[|b| - u..];
    forall i | n <= i < |b|
      ensures b[i] == 0xFF
    {
      if i < |c| {
        assert b[i] == c[i];
      } else {
        assert b[i] == last[i - |c|];
      }
    }
  }

  lemma HasMarkMore(b: Bytes, u: nat, from: int, to: int)
    requires u <= |b| && HasMark(b[..|b| - u], from, to)
    ensures HasMark(b, from, to)
  {
    var c := b[..|b| - u];
    var i :| from <= i < to && c[i] != 0xFF;
    assert b[i] == c[i];
  }

  lemma LastMark(b: Bytes, u: nat)
    requires u <= |b| && !KM.AllOnes(b[|b| - u..])
    ensures HasMark(b, |b| - u, |b|)
  {
    var last := b[|b| - u..];
    var i :| 0 <= i < |last| && last[i] != 0xFF;
    assert b[|b| - u + i] == last[i];
  }

  lemma {:induction false} BlankSplit(g: KF.Geometry, b: Bytes)
    ensures
      var n := |b| - g.Units(KM.BlankUnits(g, b));
      EndsBlank(b, n) && (g.Units(1) <= n ==> HasMark(b, n - g.Units(1), n))
  {
    hide EndsBlank, HasMark, KM.AllOnes;
    var u := g.Units(1);
    UnitApart(g, 0);
    if |b| >= u && KM.AllOnes(b[|b| - u..]) {
      var c := b[..|b| - u];
      BlankSplit(g, c);
      var n := |c| - g.Units(KM.BlankUnits(g, c));
      UnitApart(g, KM.BlankUnits(g, c));
      EndsBlankMore(b, u, n);
      if u <= n {
        HasMarkMore(b, u, n - u, n);
      }
    } else {
      NothingBlank(b);
      if |b| >= u {
        LastMark(b, u);
      }
    }
  }

  lemma NothingBlank(b: Bytes)
    ensures EndsBlank(b, |b|)
  {
  }

  /** In front of the blank units of a body there is one that is not. */
  lemma BlankEnds(g: KF.Geometry, b: Bytes)
    ensures forall i :: |b| - g.Units(KM.BlankUnits(g, b)) <= i < |b| ==> b[i] == 0xFF
    ensures
      var n := |b| - g.Units(KM.BlankUnits(g, b));
      g.Units(1) <= n ==> exists i :: n - g.Units(1) <= i < n && b[i] != 0xFF
  {
    hide KM.BlankUnits;
    BlankSplit(g, b);
  }

  /** The last unit of a header is the end of the value length, which is never blank. */
  lemma HeaderEnds(g: KF.Geometry, l: Layout, mem: Bytes, addr: nat, r: KF.Rec)
    requires l.Valid() && g.words == l.Words() && RecImage(g, l, mem, addr, r) && !r.stage.StatusOnly?
    requires r.len < 0xFF00_0000
    ensures addr + l.Hdr() <= |mem| && mem[addr + l.Hdr() - 1] != 0xFF
  {
    hide Crc32, StatusOf, HeadPlain, PadTo, KM.Body, FromLe32, WordLe32, CheckedData, AlignUp, HeaderBytes;
    HeaderFields(l, mem, addr, r.name, r.value);
    var w := Slice(mem, addr + l.MagicOff() + 16, 4);
    assert mem[addr + l.Hdr() - 1] == w[3];
    var top := |r.value| / 0x100_0000;
    assert top < 255;
    ByteRoundTrip(top);
    ByteRoundTrip(255);
  }

  /** How the last record ends: blank units, and in front of them a byte that is not blank. */
  lemma LastRecord(g: KF.Geometry, l: Layout, mem: Bytes, addr: nat, r: KF.Rec)
    requires l.Valid() && g.words == l.Words() && RecImage(g, l, mem, addr, r) && !KF.IsJunk(r)
    requires (r.stage.StatusOnly? ==> KF.IsStub(r)) && r.len < 0xFF00_0000
    ensures
      var b := KM.BlankUnits(g, KM.Body(g, r));
      var n := addr + r.len - g.Units(b);
      && addr + r.len <= |mem| && addr + g.Units(1) <= n
      && (forall i :: n <= i < addr + r.len ==> mem[i] == 0xFF)
      && exists i :: n - g.Units(1) <= i < n && mem[i] != 0xFF
  {
    hide RecImage, KM.BlankUnits, KM.Body;
    if KF.IsStub(r) {
      LastStub(g, l, mem, addr, r);
    } else {
      BodyUnits(g, r);
      BodyBytes(g, l, mem, addr, r);
      HeaderEnds(g, l, mem, addr, r);
      LastBody(g, mem, addr + l.Hdr(), KM.Body(g, r));
    }
  }

  lemma LastStub(g: KF.Geometry, l: Layout, mem: Bytes, addr: nat, r: KF.Rec)
    requires l.Valid() && RecImage(g, l, mem, addr, r) && KF.IsStub(r)
    ensures KM.BlankUnits(g, KM.Body(g, r)) == 0 && r.len == g.Units(1) && addr + r.len <= |mem| && mem[addr] != 0xFF
  {
    NoBlank(g);
  }

  /** A body behind a header that does not end blank. */
  lemma LastBody(g: KF.Geometry, mem: Bytes, h: nat, body: Bytes)
    requires 4 <= h && h + |body| <= |mem| && mem[h - 1] != 0xFF && (g.words ==> |body| % 4 == 0)
    requires forall i :: 0 <= i < |body| ==> mem[h + i] == body[i]
    ensures
      var n := h + |body| - g.Units(KM.BlankUnits(g, body));
      && h <= n && (forall i :: n <= i < h + |body| ==> mem[i] == 0xFF)
      && exists i :: n - g.Units(1) <= i < n && mem[i] != 0xFF
  {
    hide KM.BlankUnits;
    BlankEnds(g, body);
    var n := |body| - g.Units(KM.BlankUnits(g, body));
    forall i | h + n <= i < h + |body|
      ensures mem[i] == 0xFF
    {
      assert mem[h + (i - h)] == body[i - h];
    }
    if g.Units(1) <= n {
      var i :| n - g.Units(1) <= i < n && body[i] != 0xFF;
      assert mem[h + i] != 0xFF;
    } else {
      assert n == 0;
    }
  }

  lemma NoBlank(g: KF.Geometry)
    ensures KM.BlankUnits(g, []) == 0
  {
  }

  lemma BodyBytes(g: KF.Geometry, l: Layout, mem: Bytes, addr: nat, r: KF.Rec)
    requires l.Valid() && RecImage(g, l, mem, addr, r) && !r.stage.StatusOnly?
    ensures addr + r.len <= |mem| && |KM.Body(g, r)| == r.len - l.Hdr()
    ensures forall i :: 0 <= i < r.len - l.Hdr() ==> mem[addr + l.Hdr() + i] == KM.Body(g, r)[i]
  {
    hide Crc32, StatusOf, PadTo, KM.Body, HeaderBytes;
    forall i | 0 <= i < r.len - l.Hdr()
      ensures mem[addr + l.Hdr() + i] == KM.Body(g, r)[i]
    {
      assert Slice(mem, addr + l.Hdr(), r.len - l.Hdr())[i] == mem[addr + l.Hdr() + i];
    }
  }

  lemma BodyUnits(g: KF.Geometry, r: KF.Rec)
    requires !r.stage.StatusOnly?
    ensures g.words ==> |KM.Body(g, r)| % 4 == 0
  {
  }

  /**
   The last run of 0xFF, searched from `k` units before the end `e` of the records: it begins at
   `e` less the blank units there, but not before the search.
   */
  method FreeTail(l: Layout, mem: Bytes, start: nat, end: nat, ghost g: KF.Geometry, ghost e: nat, ghost k: nat,
                  ghost b: nat) returns (r: nat)
    requires l.Valid() && g.words == l.Words() && (l.Words() ==> e % 4 == 0)
    requires g.Units(k) <= e && start == e - g.Units(k) && e < end <= |mem| && Erased(mem, e, end - e)
    requires k > 0 ==> g.Units(b + 1) <= e && (forall i :: e - g.Units(b) <= i < e ==> mem[i] == 0xFF)
    requires k > 0 ==> exists i :: e - g.Units(b + 1) <= i < e - g.Units(b) && mem[i] != 0xFF
    ensures r == e - g.Units(KM.Min(k, b))
  {
    hide AlignUp, Erased;
    ghost var a;
    LastBlank(mem, e, end);
    r, a := ContinueFfAddr(l, mem, start, end);
    TailStart(l, mem, start, end, g, e, k, b, a);
  }

  lemma LastBlank(mem: Bytes, e: nat, end: nat)
    requires e < end <= |mem| && Erased(mem, e, end - e)
    ensures mem[end - 1] == 0xFF && forall i :: e <= i < end ==> mem[i] == 0xFF
  {
  }

  /** Where the last run of 0xFF begins, rounded up. */
  lemma TailStart(l: Layout, mem: Bytes, start: nat, end: nat, g: KF.Geometry, e: nat, k: nat, b: nat, a: nat)
    requires l.Valid() && g.words == l.Words() && (l.Words() ==> e % 4 == 0)
    requires g.Units(k) <= e && start == e - g.Units(k) && e < end <= |mem| && Erased(mem, e, end - e)
    requires k > 0 ==> g.Units(b + 1) <= e && (forall i :: e - g.Units(b) <= i < e ==> mem[i] == 0xFF)
    requires k > 0 ==> exists i :: e - g.Units(b + 1) <= i < e - g.Units(b) && mem[i] != 0xFF
    requires start <= a < end && Erased(mem, a, end - a) && (a == start || mem[a - 1] != 0xFF)
    ensures l.Align(a) == e - g.Units(KM.Min(k, b))
  {
    hide AlignUp, Erased;
    LastBlank(mem, e, end);
    var q := e - g.Units(KM.Min(k, b));
    if b < k {
      var i :| e - g.Units(b + 1) <= i < e - g.Units(b) && mem[i] != 0xFF;
      assert forall j :: q <= j < end ==> mem[j] == 0xFF;
      RunBehind(mem, start, end, a, i, q);
      UnitApart(g, b);
    } else {
      assert q == start;
      RunFrom(mem, start, end, a, e, q);
    }
    AlignedTo(l.Words(), a, q);
  }

  lemma UnitApart(g: KF.Geometry, b: nat)
    ensures g.Units(b + 1) == g.Units(b) + g.Units(1) && (g.words ==> g.Units(b) % 4 == 0)
  {
  }

  /** Nothing but 0xFF from `start` on: the run begins there. */
  lemma RunFrom(mem: Bytes, start: nat, end: nat, a: nat, e: nat, q: nat)
    requires start <= a < end <= |mem| && (a == start || mem[a - 1] != 0xFF) && q == start <= e <= end
    requires (forall i :: e <= i < end ==> mem[i] == 0xFF) && (q < e ==> forall i :: q <= i < e ==> mem[i] == 0xFF)
    ensures a == start
  {
  }

  /** The last run of 0xFF begins behind `i`, where there is another byte, and not after `q`. */
  lemma RunBehind(mem: Bytes, start: nat, end: nat, a: nat, i: nat, q: nat)
    requires start <= a < end <= |mem| && Erased(mem, a, end - a) && (a == start || mem[a - 1] != 0xFF)
    requires i < q < end && mem[i] != 0xFF && start <= q && forall j :: q <= j < end ==> mem[j] == 0xFF
    ensures i < a <= q
  {
  }

  lemma AlignedTo(words: bool, a: nat, q: nat)
    requires if words then q % 4 == 0 && q < a + 4 && a <= q else a == q
    ensures AlignUp(words, a) == q
  {
  }

  // ---------- read_sector_info ----------

  /** From record `i` on only lone status bytes up to `j`: they are what the sum of lengths misses. */
  lemma {:induction false} HiddenRun(g: KF.Geometry, at: Place, sec: KF.Sector, i: nat, j: nat)
    requires 0 < i <= j <= |sec.recs|
    requires forall k :: i <= k < j ==> KF.IsStub(sec.recs[k]) && sec.recs[k].len == g.Units(1)
    ensures KM.Hidden(sec.recs[..j]) == KM.Hidden(sec.recs[..i]) + (j - i)
    ensures Addr(at, sec, j) == Addr(at, sec, i) + g.Units(j - i)
    decreases j - i
  {
    hide KF.Used;
    if i < j {
      HiddenRun(g, at, sec, i, j - 1);
      AddrStep(at, sec, j - 1);
      assert sec.recs[..j] == sec.recs[..j - 1] + [sec.recs[j - 1]];
      KM.HiddenAppend(sec.recs[..j - 1], sec.recs[j - 1]);
    }
  }

  lemma HiddenSeen(recs: seq<KF.Rec>, i: nat)
    requires i < |recs| && !KF.IsStub(recs[i])
    ensures KM.Hidden(recs[..i + 1]) == KM.Hidden(recs[..i])
  {
    assert recs[..i + 1] == recs[..i] + [recs[i]];
    KM.HiddenAppend(recs[..i], recs[i]);
  }

  /** `idxs` lists the records of `recs[..n]` that are not lone status bytes. */
  ghost predicate Lists(recs: seq<KF.Rec>, n: nat, idxs: seq<nat>) {
    && n <= |recs| && (forall m :: 0 <= m < |idxs| ==> idxs[m] < n && !KF.IsStub(recs[idxs[m]]))
    && (forall m, m' :: 0 <= m < m' < |idxs| ==> idxs[m] < idxs[m'])
    && (forall i: nat :: i < n && !KF.IsStub(recs[i]) ==> i in idxs)
  }

  lemma ListsOneMore(recs: seq<KF.Rec>, i: nat, j: nat, idxs: seq<nat>)
    requires Lists(recs, i, idxs) && i < j <= |recs| && !KF.IsStub(recs[i])
    requires forall k :: i < k < j ==> KF.IsStub(recs[k])
    ensures Lists(recs, j, idxs + [i])
  {
    var next := idxs + [i];
    assert next[|idxs|] == i;
    forall k: nat | k < j && !KF.IsStub(recs[k])
      ensures k in next
    {
      if k < i {
        assert k in idxs;
      }
    }
  }

  /**
   `read_sector_info` with traversal on the bytes of a sector in use, unfinished records and lone
   status bytes included: it meets exactly the records that are not lone status bytes, and the
   free address it ends with is the one FreeOffset gives.
   */
  method ReadSectorInfo(l: Layout, mem: Bytes, at: Place, maxSize: nat, ghost g: KF.Geometry, ghost sec: KF.Sector)
    returns (addrs: seq<nat>, emptyKv: int, remain: int, ghost idxs: seq<nat>)
    requires Match(g, l, at) && KF.SectorOk(g, sec) && Image(g, l, mem, at, sec) && g.payload <= maxSize < 0xFFFF_FFFF
    requires sec.recs != [] && !KF.IsStub(sec.recs[0]) && forall i :: 0 <= i < |sec.recs| ==> Searchable(l, sec.recs[i])
    ensures Lists(sec.recs, |sec.recs|, idxs) && |addrs| == |idxs|
    ensures forall m :: 0 <= m < |addrs| ==> addrs[m] == Addr(at, sec, idxs[m])
    ensures emptyKv == at.First() + KM.FreeOffset(g, sec.recs) && remain == at.End() - emptyKv
  {
    hide Image, KF.Used, SingleMagic, KF.SectorOk, RecImage, KM.FreeOffset, KM.Hidden, Searchable, KF.RecOk, Unspoiled,
      NextSeen;
    var addr, more := at.First(), true;
    addrs, emptyKv, remain, idxs := [], at.First(), at.secSize - at.secHdr, [];
    ghost var i: nat := 0;
    StartFacts(at, sec);
    KM.StubLens(g, sec);
    while more
      invariant 0 <= i <= |sec.recs| && (more <==> i < |sec.recs|)
      invariant (more ==> addr == Addr(at, sec, i) && !KF.IsStub(sec.recs[i]))
      invariant at.First() <= emptyKv && emptyKv + g.Units(KM.Hidden(sec.recs[..i])) == Addr(at, sec, i)
      invariant remain == at.End() - emptyKv
      invariant Lists(sec.recs, i, idxs) && |addrs| == |idxs|
      invariant forall m :: 0 <= m < |addrs| ==> addrs[m] == Addr(at, sec, idxs[m])
      decreases |sec.recs| - i
    {
      ghost var r := sec.recs[i];
      ImageAt(g, l, mem, at, sec, i);
      RecordFits(g, sec, i);
      var kv := ReadRecord(l, mem, addr, maxSize, g, r);
      addrs := addrs + [addr];
      emptyKv, remain := emptyKv + kv.len, remain - kv.len;
      ghost var j := NextSeen(sec.recs, i + 1);
      SearchableUnspoiled(g, l, mem, at, sec, i, kv.crcOk);
      var next := GetNextKvAddr(l, mem, at, addr, kv.len, kv.crcOk, g, sec, i);
      ListsOneMore(sec.recs, i, j, idxs);
      AddrStep(at, sec, i);
      HiddenSeen(sec.recs, i);
      HiddenRun(g, at, sec, i + 1, j);
      idxs := idxs + [i];
      more := next.Some?;
      if more {
        addr := next.value;
      }
      i := j;
    }
    emptyKv, remain := FindTail(l, mem, at, emptyKv, remain, g, sec);
  }

  lemma StartFacts(at: Place, sec: KF.Sector)
    ensures Addr(at, sec, 0) == at.First() && KM.Hidden(sec.recs[..0]) == 0
  {
  }

  lemma RecordFits(g: KF.Geometry, sec: KF.Sector, i: nat)
    requires g.Valid() && KF.SectorOk(g, sec) && i < |sec.recs|
    ensures KF.RecOk(g, sec.recs[i]) && sec.recs[i].len <= g.payload
  {
    assert KF.RecOk(g, sec.recs[i]);
  }

  /** The end of `read_sector_info`: the free address is moved to the start of the last run of 0xFF. */
  method FindTail(l: Layout, mem: Bytes, at: Place, emptyKv: int, remain: int, ghost g: KF.Geometry,
                  ghost sec: KF.Sector)
    returns (emptyKv': int, remain': int)
    requires Match(g, l, at) && KF.SectorOk(g, sec) && Image(g, l, mem, at, sec) && sec.recs != []
    requires emptyKv + g.Units(KM.Hidden(sec.recs[..|sec.recs|])) == Addr(at, sec, |sec.recs|)
    requires remain == at.End() - emptyKv
    requires at.First() <= emptyKv
    ensures emptyKv' == at.First() + KM.FreeOffset(g, sec.recs) && remain' == at.End() - emptyKv'
  {
    hide Image, KF.Used, KF.SectorOk, RecImage, KM.Hidden, KM.BlankUnits, KM.Body, AlignUp;
    ghost var n := |sec.recs|;
    ghost var last := sec.recs[n - 1];
    assert sec.recs[..n] == sec.recs;
    AddrEnd(at, sec);
    TailErased(g, l, mem, at, sec);
    ghost var k, b, e := KM.Hidden(sec.recs), KM.BlankUnits(g, KM.Body(g, last)), Addr(at, sec, n);
    EndAligned(g, l, at, sec);
    if k > 0 {
      AddrStep(at, sec, n - 1);
      ImageAt(g, l, mem, at, sec, n - 1);
      LastKind(g, sec);
      LastRecord(g, l, mem, Addr(at, sec, n - 1), last);
    }
    var ff := FreeTail(l, mem, emptyKv, at.End(), g, e, k, b);
    emptyKv', remain' := emptyKv, remain;
    if emptyKv != ff {
      emptyKv', remain' := ff, at.secSize - (ff - at.base);
    }
  }

  lemma EndAligned(g: KF.Geometry, l: Layout, at: Place, sec: KF.Sector)
    requires Match(g, l, at) && KF.SectorOk(g, sec)
    ensures l.Words() ==> (at.First() + KF.Used(sec.recs)) % 4 == 0
  {
    hide KF.RecOk;
    if l.Words() {
      UsedAligned(g, sec.recs);
    }
  }

  lemma LastKind(g: KF.Geometry, sec: KF.Sector)
    requires g.Valid() && KF.SectorOk(g, sec) && KM.Hidden(sec.recs) > 0
    ensures
      var r := sec.recs[|sec.recs| - 1];
      !KF.IsJunk(r) && (r.stage.StatusOnly? ==> KF.IsStub(r)) && r.len <= g.payload
  {
    assert KF.RecOk(g, sec.recs[|sec.recs| - 1]);
  }
}
