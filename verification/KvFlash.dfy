/**
 The flash contents of the key-value database at record level: a sector is a header (store
 and dirty status) followed by a sequence of records, and each function of the section
 "Flash writes" is one call of `_fdb_flash_write` or `_fdb_flash_erase`.
 */
module KvFlash {
  import opened KvConfig
  import opened Options
  import opened WriteUnits

  type Name = seq<bv8>
  type Value = seq<bv8>

  datatype KvStatus = Unused | PreWrite | Written | PreDelete | Deleted | ErrHdr

  /** How much of a record has been programmed: its status byte, its header, its name, all of it. */
  datatype Stage = StatusOnly | HeaderDone | NameDone | Complete

  datatype Rec = Rec(status: KvStatus, stage: Stage, name: Name, value: Value, len: nat)

  datatype StoreStatus = StoreUnused | Empty | Using | Full

  datatype DirtyStatus = DirtyUnused | Clean | Dirty | Gc

  datatype Sector = Sector(hdrOk: bool, store: StoreStatus, dirty: DirtyStatus, recs: seq<Rec>)

  type Flash = seq<Sector>

  /** The position of a record: the record-level form of its start address. */
  datatype Loc = Loc(sec: nat, idx: nat)

  /**
   `payload` is the sector size without the sector header, `kvHdr` the aligned record header,
   and `words` tells whether the write granularity is 32 bits (otherwise it is 1 or 8 bits).
   */
  datatype Geometry = Geometry(payload: nat, kvHdr: nat, words: bool) {
    function Align(n: nat): (r: nat)
      ensures n <= r < n + 4
    {
      AlignUp(words, n)
    }

    /** The bytes of `n` write units. */
    function Units(n: nat): (r: nat)
      ensures n <= r && (n == 0 <==> r == 0)
    {
      if words then 4 * n else n
    }

    function Threshold(): nat {
      kvHdr + NAME_MAX
    }

    function KvLen(name: Name, value: Value): (r: nat)
      ensures r >= kvHdr + |name| + |value|
    {
      kvHdr + Align(|name|) + Align(|value|)
    }

    predicate Valid() {
      4 <= kvHdr && Threshold() + kvHdr <= payload
    }
  }

  // ---------- Reading positions ----------

  predicate In(fl: Flash, l: Loc) {
    l.sec < |fl| && l.idx < |fl[l.sec].recs|
  }

  function At(fl: Flash, l: Loc): Rec
    requires In(fl, l)
  {
    fl[l.sec].recs[l.idx]
  }

  /** The bytes a run of records occupies. */
  function Used(recs: seq<Rec>): nat {
    if recs == [] then 0 else Used(recs[..|recs| - 1]) + recs[|recs| - 1].len
  }

  function EmptySet(fl: Flash): set<nat> {
    set s: nat | s < |fl| && fl[s].store.Empty?
  }

  // ---------- Flash writes ----------

  function SetRec(fl: Flash, l: Loc, r: Rec): (fl': Flash)
    requires In(fl, l)
    ensures |fl'| == |fl|
    ensures forall l' :: In(fl', l') <==> In(fl, l')
    ensures forall l' :: In(fl', l') ==> At(fl', l') == if l' == l then r else At(fl, l')
    ensures forall s: nat :: s < |fl| ==> fl'[s].(recs := fl[s].recs) == fl[s] && |fl'[s].recs| == |fl[s].recs|
    ensures forall s: nat :: s < |fl| && s != l.sec ==> fl'[s] == fl[s]
  {
    fl[l.sec := fl[l.sec].(recs := fl[l.sec].recs[l.idx := r])]
  }

  function SetStatus(fl: Flash, l: Loc, status: KvStatus): (fl': Flash)
    requires In(fl, l)
  {
    SetRec(fl, l, At(fl, l).(status := status))
  }

  function SetHead(fl: Flash, s: nat, store: StoreStatus, dirty: DirtyStatus): (fl': Flash)
    requires s < |fl|
    ensures |fl'| == |fl|
    ensures forall l' :: In(fl', l') <==> In(fl, l')
    ensures forall l' :: In(fl', l') ==> At(fl', l') == At(fl, l')
  {
    fl[s := fl[s].(store := store, dirty := dirty)]
  }

  function AddRec(fl: Flash, s: nat, r: Rec): (fl': Flash)
    requires s < |fl|
    ensures |fl'| == |fl|
    ensures forall l' :: In(fl', l') <==> In(fl, l') || l' == Loc(s, |fl[s].recs|)
    ensures forall l' :: In(fl', l') ==> At(fl', l') == if l' == Loc(s, |fl[s].recs|) then r else At(fl, l')
  {
    fl[s := fl[s].(recs := fl[s].recs + [r])]
  }

  function Erase(fl: Flash, s: nat): (fl': Flash)
    requires s < |fl|
    ensures |fl'| == |fl|
    ensures forall l' :: In(fl', l') <==> In(fl, l') && l'.sec != s
    ensures forall l' :: In(fl', l') ==> At(fl', l') == At(fl, l')
  {
    fl[s := Sector(false, StoreUnused, DirtyUnused, [])]
  }

  function WriteSectorHeader(fl: Flash, s: nat): (fl': Flash)
    requires s < |fl|
    ensures |fl'| == |fl|
    ensures forall l' :: In(fl', l') <==> In(fl, l')
    ensures forall l' :: In(fl', l') ==> At(fl', l') == At(fl, l')
  {
    fl[s := fl[s].(hdrOk := true, store := Empty, dirty := Clean)]
  }

  /** The record a status byte alone makes: it occupies one write unit. */
  function Stub(g: Geometry): Rec {
    Rec(PreWrite, StatusOnly, [], [], g.Align(1))
  }

  /** What reading a header whose length was never written leaves behind. */
  function Junk(g: Geometry): Rec {
    Rec(ErrHdr, StatusOnly, [], [], g.kvHdr)
  }

  predicate IsStub(r: Rec) {
    r.status.PreWrite? && r.stage.StatusOnly?
  }

  predicate IsJunk(r: Rec) {
    r.status.ErrHdr? && r.stage.StatusOnly?
  }

  /** A sector that was put into use and holds no readable record header yet. */
  predicate Unsettled(sec: Sector) {
    sec.store.Using? && (sec.recs == [] || (|sec.recs| == 1 && IsStub(sec.recs[0])))
  }

  /** The sector after `read_kv` looked at its first record and marked the unwritten length. */
  function Settle(g: Geometry, sec: Sector): Sector {
    if Unsettled(sec) then sec.(recs := [Junk(g)]) else sec
  }

  // ---------- Invariants ----------

  /** `r` is the live record of key `k`. */
  predicate IsCopy(r: Rec, k: Name) {
    r.stage.Complete? && r.name == k && |k| < NAME_MAX
  }

  /**
   `idx` locates exactly the records in status WRITE, `pd` the only record in PRE_DELETE and
   `pw` the records in PRE_WRITE whose header was written.
   */
  ghost predicate Mid(fl: Flash, idx: map<Name, Loc>, pd: Option<Loc>, pw: set<Loc>) {
    && (forall k :: k in idx ==> In(fl, idx[k]) && At(fl, idx[k]).status.Written? && IsCopy(At(fl, idx[k]), k))
    && (forall l :: In(fl, l) && At(fl, l).status.Written? ==> At(fl, l).name in idx && idx[At(fl, l).name] == l)
    && (forall l :: In(fl, l) && At(fl, l).status.PreDelete? ==> pd == Some(l))
    && (pd.Some? ==> In(fl, pd.value) && At(fl, pd.value).status.PreDelete?)
    && (pd.Some? ==> IsCopy(At(fl, pd.value), At(fl, pd.value).name))
    && (forall l :: In(fl, l) && At(fl, l).status.PreWrite? && !At(fl, l).stage.StatusOnly? ==> l in pw)
    && (forall l :: l in pw ==> In(fl, l) && At(fl, l).status.PreWrite? && !At(fl, l).stage.StatusOnly?)
  }

  ghost function Contents(fl: Flash, idx: map<Name, Loc>): map<Name, Value>
    requires forall k :: k in idx ==> In(fl, idx[k])
  {
    map k | k in idx :: At(fl, idx[k]).value
  }

  /** The map that a power loss would leave: a key being replaced keeps its old value until the new one is in WRITE. */
  ghost function Recov(fl: Flash, idx: map<Name, Loc>, pd: Option<Loc>): map<Name, Value>
    requires forall k :: k in idx ==> In(fl, idx[k])
    requires pd.Some? ==> In(fl, pd.value)
  {
    if pd.Some? && At(fl, pd.value).name !in idx
    then Contents(fl, idx)[At(fl, pd.value).name := At(fl, pd.value).value]
    else Contents(fl, idx)
  }

  /** Flash `fl` still determines the map `m`. */
  ghost predicate Recoverable(fl: Flash, m: map<Name, Value>) {
    exists idx, pd, pw :: Mid(fl, idx, pd, pw) && Recov(fl, idx, pd) == m
  }

  predicate RecOk(g: Geometry, r: Rec) {
    && 0 < r.len <= g.payload - g.Threshold()
    && !r.status.Unused?
    && (r.status.Written? || r.status.PreDelete? || r.status.Deleted? ==> r.stage.Complete?)
    && (!r.stage.StatusOnly? ==> r.len == g.KvLen(r.name, r.value))
    && (r.stage.StatusOnly? ==> r == Stub(g) || r == Junk(g))
  }

  ghost predicate SectorOk(g: Geometry, sec: Sector)
    requires g.Valid()
  {
    && sec.hdrOk && !sec.store.StoreUnused? && !sec.dirty.DirtyUnused?
    && (sec.store.Empty? ==> sec.recs == [] && sec.dirty.Clean?)
    && (sec.store.Using? ==> Used(sec.recs) <= g.payload - g.Threshold())
    && (sec.store.Full? ==> |sec.recs| > 0 && !IsStub(sec.recs[0]))
    && (|sec.recs| > 1 ==> !IsStub(sec.recs[0]))
    && Used(sec.recs) < g.payload
    && (forall i: nat :: 0 < i < |sec.recs| ==> !IsJunk(sec.recs[i]))
    && (forall i: nat :: i < |sec.recs| ==> Used(sec.recs[..i]) <= g.payload - g.Threshold() && RecOk(g, sec.recs[i]))
  }

  ghost predicate Space(g: Geometry, fl: Flash)
    requires g.Valid()
  {
    forall s: nat :: s < |fl| ==> SectorOk(g, fl[s])
  }

  ghost predicate Settled(fl: Flash) {
    forall s: nat :: s < |fl| ==> !Unsettled(fl[s])
  }

  ghost predicate NoGc(fl: Flash) {
    forall s: nat :: s < |fl| ==> !fl[s].dirty.Gc?
  }

  /** What the flash looks like after a power loss outside garbage collection, `m` being the map to bring back. */
  ghost predicate Interrupted(g: Geometry, fl: Flash, m: map<Name, Value>)
    requires g.Valid()
  {
    && Space(g, fl) && NoGc(fl) && EmptySet(fl) != {}
    && exists idx, pd, pw :: Mid(fl, idx, pd, pw) && Recov(fl, idx, pd) == m && |pw| <= 1 && (pw == {} || Settled(fl))
  }

  // ---------- Sums of lengths ----------

  lemma UsedAppend(recs: seq<Rec>, r: Rec)
    ensures Used(recs + [r]) == Used(recs) + r.len
  {
    assert (recs + [r])[..|recs|] == recs;
  }

  lemma UsedStep(recs: seq<Rec>, i: nat)
    requires i < |recs|
    ensures Used(recs[..i + 1]) == Used(recs[..i]) + recs[i].len
  {
    assert recs[..i + 1] == recs[..i] + [recs[i]];
    UsedAppend(recs[..i], recs[i]);
  }

  lemma {:induction false} UsedMonotone(recs: seq<Rec>, i: nat, j: nat)
    requires i <= j <= |recs|
    ensures Used(recs[..i]) <= Used(recs[..j])
    decreases j
  {
    if i < j {
      UsedStep(recs, j - 1);
      UsedMonotone(recs, i, j - 1);
    }
  }

  lemma {:induction false} UsedSameLens(a: seq<Rec>, b: seq<Rec>)
    requires |a| == |b|
    requires forall i: nat :: i < |a| ==> a[i].len == b[i].len
    ensures Used(a) == Used(b)
  {
    if a != [] {
      UsedSameLens(a[..|a| - 1], b[..|b| - 1]);
    }
  }

  lemma PrefixSmaller(recs: seq<Rec>, i: nat)
    requires i < |recs| && recs[i].len > 0
    ensures Used(recs[..i]) < Used(recs)
  {
    UsedStep(recs, i);
    UsedMonotone(recs, i + 1, |recs|);
    assert recs[..|recs|] == recs;
  }
}
