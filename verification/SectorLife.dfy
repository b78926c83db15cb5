/**
 The life of a sector on both levels: records are created where the allocator allows it and
 change their status. The bytes stay the image of the record-level sector, so that a traversal
 always meets exactly its records.
 */
module SectorLife {
  import opened KvConfig
  import opened Crc
  import opened WriteUnits
  import opened StatusTable
  import opened RecordCodec
  import opened SectorScan
  import opened KvImage
  import KF = KvFlash
  import KS = KvSteps
  import KW = KvWrites
  import KM = KvFirm

  // ---------- Images and writes ----------

  /** A write elsewhere leaves the image of a record as it is. */
  lemma RecImageKept(g: KF.Geometry, l: Layout, a: Bytes, b: Bytes, at: nat, n: nat, addr: nat, r: KF.Rec)
    requires l.Valid() && OnlyIn(a, b, at, n) && RecImage(g, l, a, addr, r) && (addr + r.len <= at || at + n <= addr)
    requires g.words == l.Words()
    ensures RecImage(g, l, b, addr, r)
  {
    hide HeaderBytes, Slice, OnlyIn, StatusOf, Erased, PlainTable, KM.Body, Quiet, Sizes;
    OnlyInSize(a, b, at, n);
    if KF.IsStub(r) {
      StubKept(g, l, a, b, at, n, addr, r);
    } else {
      HeadIn(g, l, a, addr, r);
      SliceOutside(a, b, at, n, addr, TableLen(l));
      ErasedKept(a, b, at, n, addr + TableLen(l), l.MagicOff() - TableLen(l));
      if r.stage.StatusOnly? {
        ErasedKept(a, b, at, n, addr + l.MagicOff(), 20);
      } else {
        SliceOutside(a, b, at, n, addr + l.MagicOff(), 20);
        SliceOutside(a, b, at, n, addr + l.Hdr(), r.len - l.Hdr());
      }
    }
  }

  lemma HeadIn(g: KF.Geometry, l: Layout, mem: Bytes, addr: nat, r: KF.Rec)
    requires l.Valid() && RecImage(g, l, mem, addr, r) && !KF.IsStub(r)
    ensures TableLen(l) <= l.MagicOff() && l.Hdr() <= r.len && addr + r.len <= |mem|
  {
    hide HeaderBytes, Slice, StatusOf, PlainTable, KM.Body;
  }

  lemma StubKept(g: KF.Geometry, l: Layout, a: Bytes, b: Bytes, at: nat, n: nat, addr: nat, r: KF.Rec)
    requires l.Valid() && OnlyIn(a, b, at, n) && RecImage(g, l, a, addr, r) && (addr + r.len <= at || at + n <= addr)
    requires KF.IsStub(r)
    ensures RecImage(g, l, b, addr, r)
  {
  }

  /** The image after a record was programmed at the free address. */
  lemma ImageAppend(g: KF.Geometry, l: Layout, mem: Bytes, r: Bytes, at: Place, sec: KF.Sector, sec': KF.Sector,
                    x: KF.Rec)
    requires l.Valid() && g.words == l.Words() && Image(g, l, mem, at, sec) && sec'.recs == sec.recs + [x]
    requires at.First() + KF.Used(sec.recs) + x.len < at.End()
    requires OnlyIn(mem, r, at.First() + KF.Used(sec.recs), x.len)
    requires RecImage(g, l, r, at.First() + KF.Used(sec.recs), x)
    ensures Image(g, l, r, at, sec')
  {
    hide RecImage, KF.Used, OnlyIn, Erased;
    var free, n := at.First() + KF.Used(sec.recs), |sec.recs|;
    OnlyInSize(mem, r, free, x.len);
    KF.UsedAppend(sec.recs, x);
    forall i: nat | i < n + 1
      ensures RecImage(g, l, r, at.First() + KF.Used(sec'.recs[..i]), sec'.recs[i])
    {
      assert sec'.recs[..i] == sec.recs[..i];
      if i < n {
        KF.UsedStep(sec.recs, i);
        KF.UsedMonotone(sec.recs, i + 1, n);
        assert sec.recs[..n] == sec.recs;
        RecImageKept(g, l, mem, r, free, x.len, at.First() + KF.Used(sec.recs[..i]), sec.recs[i]);
      } else {
        assert sec.recs[..n] == sec.recs;
      }
    }
    ErasedPart(mem, free, at.End() - free, free + x.len, at.End() - free - x.len);
    ErasedKept(mem, r, free, x.len, free + x.len, at.End() - free - x.len);
  }

  /** The image after the status of record `k` was programmed. */
  lemma ImageMark(g: KF.Geometry, l: Layout, mem: Bytes, r: Bytes, at: Place, sec: KF.Sector, k: nat, x: KF.Rec)
    requires l.Valid() && g.words == l.Words() && Image(g, l, mem, at, sec) && k < |sec.recs|
    requires x.len == sec.recs[k].len
    requires !KF.IsStub(sec.recs[k])
    requires OnlyIn(mem, r, Addr(at, sec, k), TableLen(l)) && RecImage(g, l, r, Addr(at, sec, k), x)
    ensures Image(g, l, r, at, sec.(recs := sec.recs[k := x]))
  {
    hide RecImage, KF.Used, OnlyIn, Erased;
    var recs, recs', addr, t := sec.recs, sec.recs[k := x], Addr(at, sec, k), TableLen(l);
    OnlyInSize(mem, r, addr, t);
    KF.UsedSameLens(recs, recs');
    HeadIn(g, l, mem, addr, recs[k]);
    KF.UsedStep(recs, k);
    KF.UsedMonotone(recs, k + 1, |recs|);
    assert recs[..|recs|] == recs;
    forall i: nat | i < |recs'|
      ensures RecImage(g, l, r, at.First() + KF.Used(recs'[..i]), recs'[i])
    {
      KF.UsedSameLens(recs[..i], recs'[..i]);
      if i != k {
        KF.UsedStep(recs, i);
        if i < k {
          KF.UsedMonotone(recs, i + 1, k);
        } else {
          KF.UsedMonotone(recs, k + 1, i);
        }
        RecImageKept(g, l, mem, r, addr, t, at.First() + KF.Used(recs[..i]), recs[i]);
      }
    }
    var free := at.First() + KF.Used(recs);
    ErasedKept(mem, r, addr, t, free, at.End() - free);
  }

  // ---------- The record level of a change ----------

  datatype Change = Create(name: Bytes, value: Bytes) | Mark(index: nat, status: nat)

  function StatusAt(i: nat): KF.KvStatus
    requires i < KV_STATUS_NUM
  {
    match i
    case 0 => KF.Unused
    case 1 => KF.PreWrite
    case 2 => KF.Written
    case 3 => KF.PreDelete
    case 4 => KF.Deleted
    case 5 => KF.ErrHdr
  }

  /**
   Names and values that a header can describe, of a size that fits with the threshold or not at
   all; a status of the table.
   */
  predicate ChangeOk(g: KF.Geometry, l: Layout, c: Change) {
    match c
    case Create(name, value) => Sizes(l, name, value)
      && (l.Len(name, value) <= g.payload - g.Threshold() || l.Len(name, value) >= g.payload)
    case Mark(_, status) => status < KV_STATUS_NUM
  }

  /** The test of `alloc_kv_cb`: the sector takes `len` more bytes. */
  predicate Takes(g: KF.Geometry, sec: KF.Sector, len: nat) {
    (sec.store.Empty? || sec.store.Using?) && g.payload - KF.Used(sec.recs) > len
  }

  function Raised(r: KF.Rec, status: nat): KF.Rec
    requires status < KV_STATUS_NUM
  {
    if status > StatusIndex(r.status) then r.(status := StatusAt(status)) else r
  }

  function Applied(g: KF.Geometry, sec: KF.Sector, c: Change): KF.Sector
    requires c.Mark? ==> c.status < KV_STATUS_NUM
  {
    match c
    case Create(name, value) =>
      var len := g.KvLen(name, value);
      if Takes(g, sec, len)
      then sec.(store := KW.PlacedStore(g, sec, len), recs := sec.recs + [KM.Finished(g, name, value)])
      else sec
    case Mark(k, status) =>
      if k < |sec.recs| then sec.(recs := sec.recs[k := Raised(sec.recs[k], status)]) else sec
  }

  function AppliedAll(g: KF.Geometry, l: Layout, changes: seq<Change>): KF.Sector
    requires forall i :: 0 <= i < |changes| ==> ChangeOk(g, l, changes[i])
  {
    if changes == [] then KF.Sector(true, KF.Empty, KF.Clean, [])
    else
      assert ChangeOk(g, l, changes[|changes| - 1]);
      Applied(g, AppliedAll(g, l, changes[..|changes| - 1]), changes[|changes| - 1])
  }

  /** A sector without unfinished records, as crash-free changes leave it. */
  ghost predicate Finished(g: KF.Geometry, sec: KF.Sector)
    requires g.Valid()
  {
    && KF.SectorOk(g, sec) && (sec.store.Empty? || sec.store.Using? || sec.store.Full?)
    && (sec.store.Empty? <==> sec.recs == [])
    && forall i :: 0 <= i < |sec.recs| ==> sec.recs[i].stage.Complete? && StatusIndex(sec.recs[i].status) >= 2
  }

  lemma LenSame(g: KF.Geometry, l: Layout, name: Bytes, value: Bytes)
    requires g.kvHdr == l.Hdr() && g.words == l.Words()
    ensures g.KvLen(name, value) == l.Len(name, value)
  {
  }

  /** The allocator's own test keeps the sector in order: every record starts with the threshold left. */
  lemma CreateKeeps(g: KF.Geometry, sec: KF.Sector, name: Bytes, value: Bytes)
    requires g.Valid() && Finished(g, sec) && Takes(g, sec, g.KvLen(name, value))
    requires g.KvLen(name, value) <= g.payload - g.Threshold()
    ensures Finished(g, Applied(g, sec, Create(name, value)))
  {
    hide KF.SectorOk, KF.Used;
    var len, x := g.KvLen(name, value), KM.Finished(g, name, value);
    SettledSector(g, sec);
    KW.PlaceSector(g, sec, len);
    var placed := sec.(store := KW.PlacedStore(g, sec, len));
    PlacedHasRoom(g, sec, len);
    KS.AddRecSector(g, placed, x);
    forall i | 0 <= i < |sec.recs| + 1
      ensures (sec.recs + [x])[i].stage.Complete? && StatusIndex((sec.recs + [x])[i].status) >= 2
    {
      assert i < |sec.recs| ==> sec.recs[i].stage.Complete?;
    }
  }

  lemma SettledSector(g: KF.Geometry, sec: KF.Sector)
    requires g.Valid() && Finished(g, sec)
    ensures !KF.Unsettled(sec) && (|sec.recs| > 0 ==> !KF.IsStub(sec.recs[0]))
  {
    hide KF.SectorOk;
    assert |sec.recs| > 0 ==> sec.recs[0].stage.Complete?;
  }

  lemma PlacedHasRoom(g: KF.Geometry, sec: KF.Sector, len: nat)
    requires g.Valid() && Finished(g, sec) && Takes(g, sec, len) && len <= g.payload - g.Threshold()
    ensures
      var placed := sec.(store := KW.PlacedStore(g, sec, len));
      && !placed.store.Empty? && KF.Used(sec.recs) <= g.payload - g.Threshold()
      && (placed.store.Using? ==> KF.Used(sec.recs) + len <= g.payload - g.Threshold())
      && (sec.recs == [] ==> placed.store.Using?)
  {
    assert KF.Used([]) == 0;
  }

  lemma MarkKeeps(g: KF.Geometry, sec: KF.Sector, k: nat, status: nat)
    requires g.Valid() && Finished(g, sec) && k < |sec.recs| && status < KV_STATUS_NUM
    ensures Finished(g, Applied(g, sec, Mark(k, status)))
  {
    hide KF.Used;
    var r := Raised(sec.recs[k], status);
    assert KF.RecOk(g, sec.recs[k]) && sec.recs[k].stage.Complete?;
    var a, b := sec.recs, sec.recs[k := r];
    KF.UsedSameLens(a, b);
    forall i: nat | i < |b|
      ensures KF.Used(b[..i]) <= g.payload - g.Threshold() && KF.RecOk(g, b[i])
    {
      KF.UsedSameLens(a[..i], b[..i]);
      assert KF.RecOk(g, a[i]);
    }
  }

  // ---------- Both levels together ----------

  /** The record after write `k` of its creation, as the record level tells it. */
  function StageRec(g: KF.Geometry, k: nat, name: Bytes, value: Bytes): KF.Rec {
    if k == 0 then KF.Stub(g)
    else if k == 1 then KW.NewRec(g, KF.PreWrite, KF.HeaderDone, name, value)
    else if k == 2 then KW.NewRec(g, KF.PreWrite, KF.NameDone, name, value)
    else if k == 3 then KW.NewRec(g, KF.PreWrite, KF.Complete, name, value)
    else KW.NewRec(g, KF.Written, KF.Complete, name, value)
  }

  /** A status byte alone. */
  lemma StubImage(g: KF.Geometry, l: Layout, mem: Bytes, r: Bytes, addr: nat)
    requires l.Valid() && g.words == l.Words() && addr + TableLen(l) <= |mem| && Erased(mem, addr, TableLen(l))
    requires OnlyIn(mem, r, addr, TableLen(l)) && Slice(r, addr, TableLen(l)) == PreTable(l)
    ensures RecImage(g, l, r, addr, KF.Stub(g)) && OnlyIn(mem, r, addr, g.Units(1))
  {
    var t := PreTable(l);
    assert t[0] == (if l.gran.Bit? then 0x7F else 0) && forall i :: 1 <= i < |t| ==> t[i] == 0xFF;
    assert forall i :: addr <= i < addr + TableLen(l) ==> r[i] == t[i - addr];
  }

  lemma PrePlain(l: Layout)
    requires l.Valid()
    ensures PlainTable(l.gran, PreTable(l))
    ensures StatusOf(l.gran, PreTable(l), KV_STATUS_NUM, KV_STATUS_NUM - 1) == PRE_WRITE
  {
    var blank := Blank(l.gran, KV_STATUS_NUM);
    hide PlainTable;
    PlainBlank(l.gran, KV_STATUS_NUM);
    PlainWritten(l.gran, blank, KV_STATUS_NUM, PRE_WRITE);
    assert WrittenAll(l.gran, blank, KV_STATUS_NUM, []) == blank;
    hide Written;
    assert WrittenAll(l.gran, blank, KV_STATUS_NUM, [PRE_WRITE]) == PreTable(l) by {
      assert [PRE_WRITE][..0] == [];
    }
    ReadsBackMax(l.gran, KV_STATUS_NUM, [PRE_WRITE]);
    assert Max([]) == 0 && Max([PRE_WRITE]) == PRE_WRITE by {
      assert [PRE_WRITE][..0] == [];
    }
  }

  /** The bytes after write `k` of a creation are the image of the record at that stage. */
  lemma StageImage(g: KF.Geometry, l: Layout, mem: Bytes, addr: nat, name: Bytes, value: Bytes, k: nat)
    requires Sizes(l, name, value) && g.kvHdr == l.Hdr() && g.words == l.Words() && 1 <= k < 5
    requires Standing(l, mem, addr, TableAfter(l, k), name, value, NameAfter(l, name, k), ValueAfter(l, value, k))
    ensures RecImage(g, l, mem, addr, StageRec(g, k, name, value))
  {
    hide Crc32, StatusOf, HeaderBytes, PadTo, AlignUp, Slice, Erased, Written, PlainTable, LiveTable, PreTable;
    LenSame(g, l, name, value);
    LiveStatus(l);
    LivePlain(l);
    PrePlain(l);
    JoinSlices(mem, addr + l.Hdr(), l.Align(|name|), l.Align(|value|));
  }

  /**
   The writes of `create_kv_blob` on the bytes of any sector with room: after each of them the
   bytes are the image of the sector with the record at that stage.
   */
  method ProgramIn(l: Layout, mem: Bytes, at: Place, addr: nat, name: Bytes, value: Bytes, ghost g: KF.Geometry,
                   ghost sec: KF.Sector)
    returns (r: Bytes, ghost steps: seq<Bytes>)
    requires Match(g, l, at) && Image(g, l, mem, at, sec) && addr == at.First() + KF.Used(sec.recs)
    requires Sizes(l, name, value) && addr + l.Len(name, value) < at.End()
    ensures |steps| == 5 && r == steps[4]
    ensures forall k :: 0 <= k < 5 ==> Image(g, l, steps[k], at, sec.(recs := sec.recs + [StageRec(g, k, name, value)]))
  {
    hide Image, KF.Used, Erased, OnlyIn, Holds, RecImage, Sizes, AlignUp, Standing, Slice, PreTable, TableAfter,
      NameAfter, ValueAfter, PadTo;
    ImageTail(g, l, mem, at, sec);
    TableFits(l);
    ErasedPart(mem, addr, at.End() - addr, addr, l.Len(name, value));
    ErasedPart(mem, addr, at.End() - addr, addr, TableLen(l));
    r, steps := CreateKv(l, mem, addr, name, value);
    forall k | 0 <= k < 5
      ensures Image(g, l, steps[k], at, sec.(recs := sec.recs + [StageRec(g, k, name, value)]))
    {
      var x := StageRec(g, k, name, value);
      StageLen(g, l, k, name, value);
      if k == 0 {
        StubImage(g, l, mem, steps[0], addr);
      } else {
        StageImage(g, l, steps[k], addr, name, value, k);
      }
      ImageAppend(g, l, mem, steps[k], at, sec, sec.(recs := sec.recs + [x]), x);
    }
  }

  lemma StageLen(g: KF.Geometry, l: Layout, k: nat, name: Bytes, value: Bytes)
    requires Sizes(l, name, value) && g.kvHdr == l.Hdr() && g.words == l.Words()
    ensures StageRec(g, k, name, value).len == (if k == 0 then g.Units(1) else l.Len(name, value)) <= l.Len(name, value)
  {
    LenSame(g, l, name, value);
  }

  /** `create_kv_blob` at the free address of a sector that takes the record. */
  method CreateIn(l: Layout, mem: Bytes, at: Place, addr: nat, name: Bytes, value: Bytes, ghost g: KF.Geometry,
                  ghost sec: KF.Sector) returns (r: Bytes)
    requires Match(g, l, at) && Finished(g, sec) && Image(g, l, mem, at, sec) && addr == at.First() + KF.Used(sec.recs)
    requires Sizes(l, name, value) && Takes(g, sec, l.Len(name, value))
    requires l.Len(name, value) <= g.payload - g.Threshold()
    ensures Image(g, l, r, at, Applied(g, sec, Create(name, value)))
    ensures Finished(g, Applied(g, sec, Create(name, value)))
  {
    hide Image, KF.Used, KF.SectorOk, Sizes, AlignUp, Finished;
    LenSame(g, l, name, value);
    ghost var steps;
    r, steps := ProgramIn(l, mem, at, addr, name, value, g, sec);
    ImageOfRecs(g, l, r, at, sec.(recs := sec.recs + [StageRec(g, 4, name, value)]),
      Applied(g, sec, Create(name, value)));
    CreateKeeps(g, sec, name, value);
  }

  lemma ImageOfRecs(g: KF.Geometry, l: Layout, mem: Bytes, at: Place, a: KF.Sector, b: KF.Sector)
    requires l.Valid() && Image(g, l, mem, at, a) && a.recs == b.recs
    ensures Image(g, l, mem, at, b)
  {
  }

  lemma ImageTail(g: KF.Geometry, l: Layout, mem: Bytes, at: Place, sec: KF.Sector)
    requires l.Valid() && Image(g, l, mem, at, sec)
    ensures at.First() + KF.Used(sec.recs) < at.End() <= |mem|
    ensures Erased(mem, at.First() + KF.Used(sec.recs), at.End() - (at.First() + KF.Used(sec.recs)))
  {
  }

  lemma LivePlain(l: Layout)
    requires l.Valid()
    ensures PlainTable(l.gran, LiveTable(l))
  {
    hide PlainTable, Written;
    var blank := Blank(l.gran, KV_STATUS_NUM);
    PlainBlank(l.gran, KV_STATUS_NUM);
    PlainWritten(l.gran, blank, KV_STATUS_NUM, PRE_WRITE);
    PlainWritten(l.gran, Written(l.gran, blank, KV_STATUS_NUM, PRE_WRITE), KV_STATUS_NUM, WRITE);
  }

  /** A status write on record `k`. */
  method MarkIn(l: Layout, mem: Bytes, at: Place, addr: nat, k: nat, status: nat, ghost g: KF.Geometry,
                ghost sec: KF.Sector) returns (r: Bytes)
    requires Match(g, l, at) && Finished(g, sec) && Image(g, l, mem, at, sec) && k < |sec.recs|
    requires addr == Addr(at, sec, k) && status < KV_STATUS_NUM
    ensures Image(g, l, r, at, Applied(g, sec, Mark(k, status))) && Finished(g, Applied(g, sec, Mark(k, status)))
  {
    hide Image, KF.Used, Erased, OnlyIn, Holds, RecImage, KF.SectorOk, Finished, Written;
    ImageAt(g, l, mem, at, sec, k);
    FinishedAt(g, sec, k);
    HeadIn(g, l, mem, addr, sec.recs[k]);
    r := WriteKvStatus(l, mem, addr, status);
    MarkedImage(g, l, mem, r, addr, sec.recs[k], status);
    ImageMark(g, l, mem, r, at, sec, k, Raised(sec.recs[k], status));
    MarkKeeps(g, sec, k, status);
  }

  lemma FinishedAt(g: KF.Geometry, sec: KF.Sector, k: nat)
    requires g.Valid() && Finished(g, sec) && k < |sec.recs|
    ensures sec.recs[k].stage.Complete?
  {
  }

  lemma MarkedImage(g: KF.Geometry, l: Layout, a: Bytes, b: Bytes, addr: nat, r: KF.Rec, status: nat)
    requires l.Valid() && g.words == l.Words() && RecImage(g, l, a, addr, r) && r.stage.Complete?
    requires status < KV_STATUS_NUM
    requires addr + TableLen(l) <= |a| && OnlyIn(a, b, addr, TableLen(l)) && addr + TableLen(l) <= |b|
    requires Slice(b, addr, TableLen(l)) == Written(l.gran, Slice(a, addr, TableLen(l)), KV_STATUS_NUM, status)
    ensures RecImage(g, l, b, addr, Raised(r, status))
  {
    hide Crc32, StatusOf, HeaderBytes, AlignUp, Slice, Erased, Written, PlainTable, OnlyIn, Sizes;
    var t := TableLen(l);
    OnlyInSize(a, b, addr, t);
    StatusAfterWrite(l.gran, Slice(a, addr, t), KV_STATUS_NUM, status);
    PlainWritten(l.gran, Slice(a, addr, t), KV_STATUS_NUM, status);
    HeadIn(g, l, a, addr, r);
    ErasedKept(a, b, addr, t, addr + t, l.MagicOff() - t);
    SliceOutside(a, b, addr, t, addr + l.MagicOff(), 20);
    SliceOutside(a, b, addr, t, addr + l.Hdr(), r.len - l.Hdr());
    SameBody(g, r, status);
  }

  lemma SameBody(g: KF.Geometry, r: KF.Rec, status: nat)
    requires status < KV_STATUS_NUM
    ensures KM.Body(g, Raised(r, status)) == KM.Body(g, r)
    ensures StatusIndex(Raised(r, status).status)
      == if status > StatusIndex(r.status) then status else StatusIndex(r.status)
  {
  }

  /**
   Any sequence of creations and status changes on an erased sector, each creation taken exactly
   when the allocator's test allows it: the bytes are the image of the record-level sector, which
   is in order, the records found by a traversal are all of them in order, and free address and
   remaining space are the true ones.
   */
  method SectorRun(l: Layout, mem: Bytes, at: Place, maxSize: nat, changes: seq<Change>, ghost g: KF.Geometry)
    returns (r: Bytes, found: seq<nat>, emptyKv: int, remain: int)
    requires Match(g, l, at) && at.End() <= |mem| && g.payload <= maxSize < 0xFFFF_FFFF
    requires Erased(mem, at.First(), at.End() - at.First())
    requires forall i :: 0 <= i < |changes| ==> ChangeOk(g, l, changes[i])
    ensures
      var sec := AppliedAll(g, l, changes);
      && Finished(g, sec) && Image(g, l, r, at, sec)
      && |found| == |sec.recs| && (forall i :: 0 <= i < |found| ==> found[i] == Addr(at, sec, i))
      && emptyKv == at.First() + KF.Used(sec.recs) && remain == at.End() - emptyKv
  {
    hide Image, KF.Used, Erased, Sizes, AlignUp, Finished, AppliedAll, KF.SectorOk, RecImage;
    r := mem;
    var store, free, addrs := KF.Empty, at.First(), [];
    ghost var sec := AppliedAll(g, l, changes[..0]);
    EmptySector(g, l, mem, at, changes);
    for j := 0 to |changes|
      invariant sec == AppliedAll(g, l, changes[..j]) && Finished(g, sec) && Image(g, l, r, at, sec)
      invariant store == sec.store && free == at.First() + KF.Used(sec.recs) && |addrs| == |sec.recs|
      invariant forall i :: 0 <= i < |addrs| ==> addrs[i] == Addr(at, sec, i)
    {
      assert ChangeOk(g, l, changes[j]);
      OneMore(g, l, changes, j);
      ImageTail(g, l, r, at, sec);
      match changes[j] {
        case Create(name, value) =>
          var len := l.Len(name, value);
          LenSame(g, l, name, value);
          if (store.Empty? || store.Using?) && at.End() - free > len {
            r := CreateIn(l, r, at, free, name, value, g, sec);
            AddrsGrow(g, at, sec, Applied(g, sec, changes[j]), KM.Finished(g, name, value));
            if store.Empty? {
              store := KF.Using;
            } else if at.End() - free < l.Hdr() + NAME_MAX || at.End() - free - len < l.Hdr() + NAME_MAX {
              store := KF.Full;
            }
            addrs, free := addrs + [free], free + len;
          }
        case Mark(k, status) =>
          if k < |addrs| {
            r := MarkIn(l, r, at, addrs[k], k, status, g, sec);
            AddrsSame(at, sec, Applied(g, sec, changes[j]));
          }
      }
      sec := Applied(g, sec, changes[j]);
    }
    assert changes[..|changes|] == changes;
    if addrs == [] {
      return r, [], free, at.End() - free;
    }
    AllSeen(g, l, sec);
    ghost var idxs;
    found, emptyKv, remain, idxs := ReadSectorInfo(l, r, at, maxSize, g, sec);
    AllListed(sec.recs, idxs);
  }

  lemma EmptySector(g: KF.Geometry, l: Layout, mem: Bytes, at: Place, changes: seq<Change>)
    requires Match(g, l, at) && at.End() <= |mem| && Erased(mem, at.First(), at.End() - at.First())
    ensures
      var sec := AppliedAll(g, l, changes[..0]);
      Finished(g, sec) && Image(g, l, mem, at, sec) && KF.Used(sec.recs) == 0 && sec.recs == [] && sec.store.Empty?
  {
  }

  lemma OneMore(g: KF.Geometry, l: Layout, changes: seq<Change>, j: nat)
    requires j < |changes| && forall i :: 0 <= i < |changes| ==> ChangeOk(g, l, changes[i])
    ensures AppliedAll(g, l, changes[..j + 1]) == Applied(g, AppliedAll(g, l, changes[..j]), changes[j])
  {
    hide Applied;
    assert changes[..j + 1][..j] == changes[..j];
  }

  lemma AddrsGrow(g: KF.Geometry, at: Place, sec: KF.Sector, sec': KF.Sector, x: KF.Rec)
    requires sec'.recs == sec.recs + [x]
    ensures KF.Used(sec'.recs) == KF.Used(sec.recs) + x.len
    ensures Addr(at, sec', |sec.recs|) == at.First() + KF.Used(sec.recs)
    ensures forall i :: 0 <= i < |sec.recs| ==> Addr(at, sec', i) == Addr(at, sec, i)
  {
    hide KF.Used;
    KF.UsedAppend(sec.recs, x);
    assert sec'.recs[..|sec.recs|] == sec.recs;
    forall i | 0 <= i < |sec.recs|
      ensures Addr(at, sec', i) == Addr(at, sec, i)
    {
      assert sec'.recs[..i] == sec.recs[..i];
    }
  }

  lemma AddrsSame(at: Place, sec: KF.Sector, sec': KF.Sector)
    requires |sec'.recs| == |sec.recs| && forall i: nat :: i < |sec.recs| ==> sec'.recs[i].len == sec.recs[i].len
    ensures KF.Used(sec'.recs) == KF.Used(sec.recs)
    ensures forall i :: 0 <= i < |sec.recs| ==> Addr(at, sec', i) == Addr(at, sec, i)
  {
    hide KF.Used;
    KF.UsedSameLens(sec'.recs, sec.recs);
    forall i | 0 <= i < |sec.recs|
      ensures Addr(at, sec', i) == Addr(at, sec, i)
    {
      KF.UsedSameLens(sec'.recs[..i], sec.recs[..i]);
    }
  }

  /** Without unfinished records everything is seen and nothing is hidden. */
  lemma AllSeen(g: KF.Geometry, l: Layout, sec: KF.Sector)
    requires g.Valid() && Finished(g, sec) && sec.recs != []
    ensures KF.SectorOk(g, sec)
    ensures (forall i :: 0 <= i < |sec.recs| ==> !KF.IsStub(sec.recs[i]) && Searchable(l, sec.recs[i]))
    ensures KM.FreeOffset(g, sec.recs) == KF.Used(sec.recs)
  {
    hide KF.SectorOk, KF.Used, KM.FreeOffset, KM.Hidden;
    NothingHidden(sec.recs);
    KM.FreeOffsetIff(g, sec.recs);
  }

  lemma {:induction false} NothingHidden(recs: seq<KF.Rec>)
    requires forall i :: 0 <= i < |recs| ==> !KF.IsStub(recs[i])
    ensures KM.Hidden(recs) == 0
  {
    if |recs| > 1 {
      NothingHidden(recs[..|recs| - 1]);
    }
  }

  /** A list of all positions in order. */
  lemma AllListed(recs: seq<KF.Rec>, idxs: seq<nat>)
    requires Lists(recs, |recs|, idxs) && forall i :: 0 <= i < |recs| ==> !KF.IsStub(recs[i])
    ensures |idxs| == |recs| && forall m :: 0 <= m < |idxs| ==> idxs[m] == m
  {
    if idxs != [] {
      PlacesUpTo(recs, idxs, |idxs| - 1);
      assert idxs[|idxs| - 1] < |recs|;
    }
    if recs != [] {
      assert |recs| - 1 in idxs;
      var k :| 0 <= k < |idxs| && idxs[k] == |recs| - 1;
      assert idxs[k] == k;
    }
  }

  lemma {:induction false} PlacesUpTo(recs: seq<KF.Rec>, idxs: seq<nat>, m: nat)
    requires Lists(recs, |recs|, idxs) && (forall i :: 0 <= i < |recs| ==> !KF.IsStub(recs[i])) && m < |idxs|
    ensures forall k :: 0 <= k <= m ==> idxs[k] == k
  {
    if m > 0 {
      PlacesUpTo(recs, idxs, m - 1);
      assert idxs[m - 1] < idxs[m];
    }
    assert m <= idxs[m];
    assert m in idxs;
    var k :| 0 <= k < |idxs| && idxs[k] == m;
    InOrder(idxs, m, k);
  }

  lemma InOrder(idxs: seq<nat>, m: nat, k: nat)
    requires m < |idxs| && k < |idxs| && idxs[k] == m <= idxs[m]
    requires (forall i, j :: 0 <= i < j < |idxs| ==> idxs[i] < idxs[j]) && forall j :: 0 <= j < m ==> idxs[j] == j
    ensures idxs[m] == m
  {
  }
}
