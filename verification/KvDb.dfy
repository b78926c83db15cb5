/** The key-value database object: flash, RAM tables and flags, with the operations of fdb_kvdb.c. */
module KvDb {
  import opened KvConfig
  import opened Options
  import opened KvFlash
  import opened KvSteps
  import opened KvWrites
  import opened KvUpdate
  import opened KvCache
  import opened KvCoherence
  import opened KvLog
  import opened KvRoom
  import opened KvGrowth
  import opened KvIndex
  import opened KvGc
  import opened KvRecovery
  import opened KvFirm
  import opened KvResume
  import opened KvGcRoom
  import opened KvGcTrace
  import opened KvTidy

  datatype Error = NoErr | KvNameErr | SavedFull

  /** The part of `kvdb_sec_info` that allocation hands on. */
  datatype SecInfo = SecInfo(sec: nat, store: StoreStatus, dirty: DirtyStatus, remain: nat, emptyOff: nat)

  ghost predicate InfoOk(g: Geometry, fl: Flash, info: SecInfo) {
    && info.sec < |fl|
    && info.store == fl[info.sec].store && info.dirty == fl[info.sec].dirty
    && info.emptyOff == Used(fl[info.sec].recs) && info.remain + info.emptyOff == g.payload
  }

  /** The name as `read_kv` leaves it in `kv->name`: a name that fills the buffer loses its last byte. */
  function ReadName(name: Name): Name {
    if |name| >= NAME_MAX then name[..NAME_MAX - 1] else name
  }

  /** `find_kv_cb`: equal recorded length, finished, in WRITE, and `strncmp` on the name read. */
  predicate ScanMatch(r: Rec, key: Name) {
    && |key| == |r.name| && r.stage.Complete? && r.status.Written?
    && |ReadName(r.name)| >= |key| && ReadName(r.name)[..|key|] == key
  }

  /** The scan finds a finished live record under its own name exactly when the name is short enough. */
  lemma ScanMatchIff(r: Rec, key: Name)
    requires r.stage.Complete? && r.status.Written?
    ensures ScanMatch(r, key) <==> r.name == key && |key| < NAME_MAX
  {
  }

  lemma ScanFound(fl: Flash, idx: Index, pd: Option<Loc>, pw: set<Loc>, s: nat, i: nat, key: Name)
    requires Mid(fl, idx, pd, pw) && s < |fl| && i < |fl[s].recs| && ScanMatch(fl[s].recs[i], key)
    ensures OldOf(idx, key) == Some(Loc(s, i))
  {
    assert In(fl, Loc(s, i)) && At(fl, Loc(s, i)).name == key;
  }

  lemma ScanMissed(fl: Flash, idx: Index, pd: Option<Loc>, pw: set<Loc>, s: nat, key: Name)
    requires Mid(fl, idx, pd, pw) && s < |fl|
    requires forall i :: 0 <= i < |fl[s].recs| ==> !ScanMatch(fl[s].recs[i], key)
    ensures key in idx ==> idx[key].sec != s
  {
    if key in idx && idx[key].sec == s {
      ScanMatchIff(At(fl, idx[key]), key);
    }
  }

  lemma IndexInRange(fl: Flash, idx: Index, pd: Option<Loc>, pw: set<Loc>, key: Name)
    requires Mid(fl, idx, pd, pw)
    ensures key in idx ==> idx[key].sec < |fl|
  {
  }

  lemma SectorHasRecords(g: Geometry, fl: Flash, s: nat)
    requires g.Valid() && Space(g, fl) && s < |fl|
    ensures fl[s].recs == [] ==> fl[s].store.Empty? || Unsettled(fl[s])
    ensures fl[s].store.Using? || fl[s].store.Full? || fl[s].recs == []
  {
    assert SectorOk(g, fl[s]);
  }

  lemma SectorBound(g: Geometry, fl: Flash, s: nat)
    requires g.Valid() && Space(g, fl) && s < |fl|
    ensures Used(fl[s].recs) <= g.payload && (fl[s].store.Empty? ==> Used(fl[s].recs) == 0 && !Unsettled(fl[s]))
    ensures forall i :: 0 <= i < |fl[s].recs| && IsStub(fl[s].recs[i]) ==> fl[s].recs[i].len == g.Units(1)
  {
    assert SectorOk(g, fl[s]);
    StubLens(g, fl[s]);
  }

  lemma NotUnsettledAt(fl: Flash, s: nat)
    requires s < |fl|
    ensures Settled(fl) ==> !Unsettled(fl[s])
  {
  }

  lemma RecLength(g: Geometry, r: Rec)
    requires RecOk(g, r)
    ensures r.len > 0
  {
  }

  /**
   What a boot relies on: room for the record that waits in PRE_DELETE, or for the rest of the
   collection that was interrupted in sector `s0`.
   */
  ghost predicate Loadable(g: Geometry, single: Single, torn: bool, fl: Flash, pd: Option<Loc>, pw: set<Loc>, f: nat,
                           s0: nat)
    requires g.Valid()
  {
    && Space(g, fl) && Firm(g, single, fl, torn) && (pw == {} || Settled(fl)) && (pd.Some? ==> In(fl, pd.value))
    && if NoGc(fl) then EmptySet(fl) != {} && (pd.Some? ==> CanTake(g, fl, f, At(fl, pd.value).len))
      else Resumable(g, fl, pd, pw, s0)
  }

  /** The record that waits when the scan begins: a resumed collection has dealt with it. */
  ghost function StillWaiting(fl: Flash, pd: Option<Loc>): Option<Loc> {
    if NoGc(fl) || |EmptySet(fl)| > 1 then pd else None
  }

  /** After a boot that stopped at the only unfinished record the next one finds what it needs. */
  lemma LoadableAgain(g: Geometry, single: Single, torn: bool, a: Flash, b: Flash, idx: Index, pd: Option<Loc>,
                      pd': Option<Loc>, f: nat, f1: nat, s0: nat)
    requires g.Valid() && Space(g, b) && Firm(g, single, b, torn) && Settled(b) && EmptySet(b) != {}
    requires Mid(b, idx, pd', {})
    requires NoGc(a) ==> f1 == f
    requires pd'.Some? ==> (NoGc(a) <==> NoGc(b))
    requires pd' == None || (pd' == pd && EmptySet(b) == EmptySet(a) && CanTake(g, b, f1, At(b, pd'.value).len))
    requires pd'.Some? && !NoGc(a) ==> |EmptySet(a)| > 1
    ensures Loadable(g, single, torn, b, pd', {}, f, s0)
  {
    hide Space, Firm, Settled, NoGc, CanTake, EmptySet, RoomToResume;
  }

  lemma AllBare(fl: Flash)
    ensures (forall s: nat :: s < |fl| ==> !fl[s].hdrOk) ==>
      forall s: nat :: s < |fl| ==> Headed(fl)[s] == Sector(true, Empty, Clean, [])
  {
  }

  /** What the update phase keeps, write by write and in the end. */
  lemma ReplaceFacts(g: Geometry, single: Single, torn: bool, fl: Flash, idx: Index, t: nat, key: Name, value: Value)
    requires g.Valid() && Space(g, fl) && Mid(fl, idx, None, {}) && Settled(fl) && Firm(g, single, fl, torn)
    requires EmptySet(fl) - {t} != {}
    requires t < |fl| && Fits(g, fl, t, g.KvLen(key, value)) && g.KvLen(key, value) <= g.payload - g.Threshold()
    requires |key| < NAME_MAX
    requires torn ==> EndsFirm(g, Finished(g, key, value))
    ensures
      var fl', m := AfterUpdate(g, fl, OldOf(idx, key), t, key, value), Contents(fl, idx);
      var idx' := idx[key := Loc(t, |fl[t].recs|)];
      && Space(g, fl') && Mid(fl', idx', None, {}) && Contents(fl', idx') == m[key := value]
      && Settled(fl') && EmptySet(fl') != {} && Firm(g, single, fl', torn) && (NoGc(fl) ==> NoGc(fl'))
    ensures var w, m := UpdateWrites(g, fl, OldOf(idx, key), t, key, value), Contents(fl, idx);
      && AllRecoverable(w, m, m[key := value]) && (NoGc(fl) ==> AllInterrupted(g, w, m, m[key := value]))
      && forall i :: 0 <= i < |w| ==> Untouched(fl, w[i], OldOf(idx, key))
  {
    hide Space, Firm, Contents, Settled, AfterDel, AfterUpdate, UpdateWrites, EmptySet, NoGc, Untouched, AllInterrupted,
      AllRecoverable, Geometry.KvLen, Fits, EndsFirm;
    IndexedShort(fl, idx, key);
    UpdateSteps(g, fl, idx, {}, t, key, value);
    UpdateCalm(g, fl, idx, t, key, value);
    if NoGc(fl) {
      UpdateInterrupted(g, fl, idx, t, key, value);
    }
    UpdateUntouched(g, fl, OldOf(idx, key), t, key, value);
    if key in idx {
      DelPreSteps(g, fl, idx, {}, idx[key]);
      ActiveRecord(g, fl, idx, None, {}, idx[key]);
    }
    FirmUpdate(g, single, fl, torn, OldOf(idx, key), t, key, value);
  }

  lemma CreatedStore(g: Geometry, fl: Flash, fl1: Flash, t: nat, key: Name, value: Value)
    requires t < |fl| && t < |fl1| && fl1[t].store == fl[t].store && Used(fl1[t].recs) == Used(fl[t].recs)
    ensures |AfterCreate(g, fl1, t, key, value)| == |fl1|
    ensures AfterCreate(g, fl1, t, key, value)[t].store == PlacedStore(g, fl[t], g.KvLen(key, value))
  {
    hide Used;
  }

  /** A live record that is marked, copied and deleted: the update of the key with its own value. */
  lemma MovedLive(g: Geometry, fl: Flash, idx: Index, l: Loc, t: nat, log: seq<Flash>)
    requires In(fl, l) && t < |fl|
    ensures
      var r, a := At(fl, l), AfterDel(fl, l, false);
      && In(a, l) && t < |a| && |a[t].recs| == |fl[t].recs| && At(a, l) == r.(status := PreDelete)
      && MovedAgain(g, a, l, t, false) == AfterUpdate(g, fl, Some(l), t, r.name, r.value)
      && (idx - {r.name})[r.name := Loc(t, |fl[t].recs|)] == idx[r.name := Loc(t, |fl[t].recs|)]
      && In(AfterCreate(g, a, t, r.name, r.value), l)
      && log + DelWrites(fl, l, false) + CreateWrites(g, a, t, r.name, r.value)
           + DelWrites(AfterCreate(g, a, t, r.name, r.value), l, true)
        == log + UpdateWrites(g, fl, Some(l), t, r.name, r.value)
  {
    AfterDelFrame(g, fl, l, false, t, 0);
    CreateFrame(g, AfterDel(fl, l, false), t, At(fl, l).name, At(fl, l).value, l);
    hide AfterDel, AfterCreate, DelWrites, CreateWrites;
  }

  lemma StillThere(fl: Flash, idx: Index, pd: Option<Loc>, pw: set<Loc>)
    requires Mid(fl, idx, pd, pw)
    ensures AllRecoverable([fl], Recov(fl, idx, pd), Recov(fl, idx, pd))
  {
    assert Recoverable(fl, Recov(fl, idx, pd));
  }

  class Kvdb {
    const g: Geometry
    const hash: Hash
    const single: Single
    /** A power loss may have left unfinished records. */
    ghost const torn: bool
    var flash: Flash
    var gcRequest: bool
    var lastIsCompleteDel: bool
    var inRecovery: bool
    var kvCache: seq<KvSlot>
    var secCache: seq<SecSlot>
    /** Where each live key is. */
    ghost var index: Index
    /** The flash contents after every single flash write so far. */
    ghost var trace: seq<Flash>

    /** `fdb_kvdb_init` up to the load: the tables hold no address, whatever else was in their memory. */
    constructor Open(g: Geometry, hash: Hash, single: Single, fl: Flash, keys: seq<KvSlot>, slots: seq<SecSlot>,
                     ghost idx: Index, ghost torn: bool)
      ensures this.g == g && this.hash == hash && this.single == single && this.torn == torn && flash == fl
      ensures index == idx && trace == []
      ensures kvCache == keys && secCache == slots && !gcRequest && !lastIsCompleteDel && !inRecovery
    {
      this.g, this.hash, this.single, this.torn := g, hash, single, torn;
      flash, kvCache, secCache := fl, keys, slots;
      gcRequest, lastIsCompleteDel, inRecovery := false, false, false;
      index, trace := idx, [];
    }

    ghost predicate Inv(pd: Option<Loc>, pw: set<Loc>)
      reads this
    {
      && g.Valid() && |flash| > 1 && Space(g, flash) && Mid(flash, index, pd, pw) && SecCacheOk(secCache, flash, {})
      && Firm(g, single, flash, torn)
    }

    /** The map a power loss at this moment would leave. */
    ghost function Saved(pd: Option<Loc>, pw: set<Loc>): map<Name, Value>
      requires Mid(flash, index, pd, pw)
      reads this
    {
      Recov(flash, index, pd)
    }

    /** Every flash write goes through here. */
    method Commit(fl: Flash)
      modifies `flash, `trace
      ensures flash == fl && trace == old(trace) + [fl]
    {
      flash := fl;
      trace := trace + [fl];
    }

    // ---------- Reading ----------

    /** `read_kv` on the first record of sector `s`: an unwritten length is marked ERR_HDR. */
    method Touch(s: nat, ghost pd: Option<Loc>, ghost pw: set<Loc>)
      requires Inv(pd, pw) && s < |flash|
      modifies `flash, `trace
      ensures Inv(pd, pw) && Touched(g, old(flash), flash) && Saved(pd, pw) == old(Saved(pd, pw))
      ensures flash == old(flash)[s := Settle(g, old(flash)[s])] && !Unsettled(flash[s])
      ensures flash[s].store == old(flash)[s].store
      ensures !Unsettled(old(flash)[s]) ==> trace == old(trace)
      ensures Logged(old(trace), trace, Saved(pd, pw), Saved(pd, pw))
    {
      hide Mid, Space, SecCacheOk, Firm, Recov, Logged, Used;
      ghost var m, before, log := Saved(pd, pw), flash, trace;
      LoggedRefl(trace, m, m);
      if Unsettled(flash[s]) {
        Commit(flash[s := Settle(g, flash[s])]);
        TouchedKeeps(g, before, flash, index, pd, pw);
        FirmTouched(g, single, before, flash, torn);
        SecCacheFrame(secCache, before, flash, {}, {});
        assert Recoverable(flash, m);
        LoggedAdd(log, log, [flash], m, m);
      } else {
        assert flash[s := Settle(g, flash[s])] == flash;
      }
    }

    /** `read_sector_info` with traversal, for a sector that is empty or in use. */
    method ReadSectorInfo(s: nat, ghost pd: Option<Loc>, ghost pw: set<Loc>) returns (info: SecInfo)
      requires Inv(pd, pw) && s < |flash| && (flash[s].store.Empty? || flash[s].store.Using?)
      modifies `flash, `trace, `secCache
      ensures Inv(pd, pw) && Touched(g, old(flash), flash) && Saved(pd, pw) == old(Saved(pd, pw))
      ensures !Unsettled(flash[s]) && info.sec == s && InfoOk(g, flash, info)
      ensures Logged(old(trace), trace, Saved(pd, pw), Saved(pd, pw))
      ensures Settled(old(flash)) ==> trace == old(trace)
    {
      hide Mid, Space, SecCacheOk, Firm, Recov, Logged, Touched, Used, FreeOffset, Settle;
      SectorBound(g, flash, s);
      SecCacheShape(secCache, flash, {});
      LoggedRefl(trace, Saved(pd, pw), Saved(pd, pw));
      TouchedRefl(g, flash);
      if flash[s].store.Empty? {
        return SecInfo(s, flash[s].store, flash[s].dirty, g.payload, 0);
      }
      var cached := LookupSector(secCache, s);
      if cached.Some? {
        CachedRight(secCache, flash, s, cached.value);
        return SecInfo(s, flash[s].store, flash[s].dirty, g.payload - cached.value, cached.value);
      }
      Touch(s, pd, pw);
      SectorBound(g, flash, s);
      SectorHasRecords(g, flash, s);
      FoundIsTrue(g, single, flash, torn, s);
      var emptyOff := FindFree(g, flash[s].recs);
      info := SecInfo(s, flash[s].store, flash[s].dirty, g.payload - emptyOff, emptyOff);
      ghost var slots := secCache;
      secCache := StoreSector(secCache, g.payload, s, emptyOff);
      SecCacheFrame(slots, flash, flash, {}, {s});
      SectorRepaired(slots, secCache, flash, s);
    }

    /**
     `get_next_kv_addr` behind record `i` of sector `s`: the sector table answers first, then the
     search for the next magic word, which a lone status byte does not have. An unfinished record
     is searched from its own start, so it must not hold a second magic word.
     */
    method NextKv(s: nat, i: nat) returns (next: Option<nat>)
      requires g.Valid() && SecCacheOk(secCache, flash, {}) && Space(g, flash) && In(flash, Loc(s, i))
      requires Torn(flash[s].recs[i]) ==> single(flash[s].recs[i].name, flash[s].recs[i].value)
      ensures next.Some? ==> i < next.value < |flash[s].recs| && !IsStub(flash[s].recs[next.value])
      ensures forall j :: i < j < (if next.Some? then next.value else |flash[s].recs|) ==> IsStub(flash[s].recs[j])
    {
      hide RecOk, Used;
      var recs := flash[s].recs;
      assert SectorOk(g, flash[s]);
      if i + 1 < |recs| {
        assert RecOk(g, recs[i + 1]);
        RecLength(g, recs[i + 1]);
        PrefixSmaller(recs, i + 1);
      }
      var cached := LookupSector(secCache, s);
      if cached.Some? && Used(recs[..i + 1]) == cached.value {
        assert i + 1 == |recs|;
        return None;
      }
      var j := i + 1;
      while j < |recs|
        invariant i < j <= |recs| && forall k :: i < k < j ==> IsStub(recs[k])
      {
        if !IsStub(recs[j]) {
          return Some(j);
        }
        j := j + 1;
      }
      next := None;
    }

    /** One sector of the scan. */
    method ScanSector(s: nat, key: Name) returns (r: Option<nat>)
      requires g.Valid() && SecCacheOk(secCache, flash, {}) && Space(g, flash) && Firm(g, single, flash, torn)
      requires s < |flash| && |flash[s].recs| > 0
      ensures r.Some? ==> r.value < |flash[s].recs| && ScanMatch(flash[s].recs[r.value], key)
      ensures r.None? ==> forall i :: 0 <= i < |flash[s].recs| ==> !ScanMatch(flash[s].recs[i], key)
    {
      hide SecCacheOk, Space, Firm, ReadName;
      var i, more := 0, true;
      while more
        invariant 0 <= i <= |flash[s].recs| && (more <==> i < |flash[s].recs|)
        invariant forall j :: 0 <= j < i ==> !ScanMatch(flash[s].recs[j], key)
        decreases |flash[s].recs| - i
      {
        if ScanMatch(flash[s].recs[i], key) {
          return Some(i);
        }
        FirmAt(g, single, flash, torn, Loc(s, i));
        var next := NextKv(s, i);
        more := next.Some?;
        i := if more then next.value else |flash[s].recs|;
      }
      r := None;
    }

    /** `find_kv_no_cache`: scan every record of every sector that has any. */
    method FindNoCache(key: Name, ghost pd: Option<Loc>, ghost pw: set<Loc>) returns (r: Option<Loc>)
      requires Inv(pd, pw)
      modifies `flash, `trace
      ensures Inv(pd, pw) && Touched(g, old(flash), flash) && Saved(pd, pw) == old(Saved(pd, pw))
      ensures r == OldOf(index, key)
      ensures Logged(old(trace), trace, Saved(pd, pw), Saved(pd, pw))
      ensures Settled(old(flash)) ==> trace == old(trace)
    {
      hide Touched, Logged, SecCacheOk, Firm, Recov, Unsettled, Mid, Space, ScanMatch, Settle;
      LoggedRefl(trace, Saved(pd, pw), Saved(pd, pw));
      TouchedRefl(g, flash);
      var s := 0;
      while s < |flash|
        invariant s <= |flash| == |old(flash)|
        invariant Inv(pd, pw) && Touched(g, old(flash), flash) && Saved(pd, pw) == old(Saved(pd, pw))
        invariant Logged(old(trace), trace, Saved(pd, pw), Saved(pd, pw))
        invariant Settled(old(flash)) ==> flash == old(flash) && trace == old(trace)
        invariant key in index ==> index[key].sec >= s
      {
        SectorHasRecords(g, flash, s);
        if flash[s].store.Using? || flash[s].store.Full? {
          ghost var before, log := flash, trace;
          NotUnsettledAt(flash, s);
          Touch(s, pd, pw);
          TouchedKeeps(g, before, flash, index, pd, pw);
          TouchedTrans(g, old(flash), before, flash);
          LoggedTrans(old(trace), log, trace, Saved(pd, pw), Saved(pd, pw));
          SectorHasRecords(g, flash, s);
          var i := ScanSector(s, key);
          if i.Some? {
            ScanFound(flash, index, pd, pw, s, i.value, key);
            return Some(Loc(s, i.value));
          }
        }
        ScanMissed(flash, index, pd, pw, s, key);
        s := s + 1;
      }
      IndexInRange(flash, index, pd, pw, key);
      r := None;
    }

    // ---------- Allocation ----------

    /** The statistics pass of `alloc_kv`. */
    method CountSectors() returns (empty: nat, using: nat)
      ensures empty == |EmptySet(flash)|
      ensures using == 0 ==> forall s: nat :: s < |flash| ==> !flash[s].store.Using?
    {
      empty, using := 0, 0;
      assert EmptyBelow(flash, 0) == {};
      for s := 0 to |flash|
        invariant empty == |EmptyBelow(flash, s)|
        invariant using == 0 ==> forall j: nat :: j < s ==> !flash[j].store.Using?
      {
        EmptyBelowStep(flash, s);
        if flash[s].store.Empty? {
          empty := empty + 1;
        } else if flash[s].store.Using? {
          using := using + 1;
        }
      }
      assert EmptyBelow(flash, |flash|) == EmptySet(flash);
    }

    /** First fit among the sectors in use. */
    method AllocUsing(size: nat, ghost pd: Option<Loc>, ghost pw: set<Loc>) returns (r: Option<SecInfo>)
      requires Inv(pd, pw)
      modifies `flash, `trace, `secCache
      ensures Inv(pd, pw) && Touched(g, old(flash), flash) && Saved(pd, pw) == old(Saved(pd, pw))
      ensures Logged(old(trace), trace, Saved(pd, pw), Saved(pd, pw))
      ensures Settled(old(flash)) ==> trace == old(trace)
      ensures r.Some? ==> InfoOk(g, flash, r.value) && UsingFits(g, flash, gcRequest, r.value.sec, size)
      ensures r.Some? ==> forall s: nat :: s < r.value.sec ==> !UsingFits(g, flash, gcRequest, s, size)
      ensures r.Some? ==> Searched(flash, r.value.sec)
      ensures r.None? ==> NoUsingFits(g, flash, gcRequest, size) && Settled(flash)
    {
      hide Searched, Logged, SecCacheOk, Firm, Recov, Mid, Space, Settle, Touched;
      LoggedRefl(trace, Saved(pd, pw), Saved(pd, pw));
      TouchedRefl(g, flash);
      var s := 0;
      while s < |flash|
        invariant s <= |flash| == |old(flash)|
        invariant Inv(pd, pw) && Touched(g, old(flash), flash) && Saved(pd, pw) == old(Saved(pd, pw))
        invariant Logged(old(trace), trace, Saved(pd, pw), Saved(pd, pw))
        invariant Settled(old(flash)) ==> flash == old(flash) && trace == old(trace)
        invariant forall j: nat :: j < s ==> Refused(g, flash, gcRequest, j, size)
      {
        if flash[s].store.Using? {
          ghost var before, log := flash, trace;
          var info := ReadSectorInfo(s, pd, pw);
          TouchedKeeps(g, before, flash, index, pd, pw);
          TouchedTrans(g, old(flash), before, flash);
          LoggedTrans(old(trace), log, trace, Saved(pd, pw), Saved(pd, pw));
          TouchedStore(g, before, flash, s);
          forall j: nat | j < s
            ensures Refused(g, flash, gcRequest, j, size)
          {
            RefusedTouched(g, before, flash, gcRequest, j, size);
          }
          if info.remain > size && (info.dirty.Clean? || (info.dirty.Dirty? && !gcRequest)) {
            AllRefused(g, flash, gcRequest, s, size);
            return Some(info);
          }
        }
        s := s + 1;
      }
      AllRefused(g, flash, gcRequest, s, size);
      r := None;
    }

    /** First fit among the empty sectors. */
    method AllocEmpty(size: nat) returns (r: Option<SecInfo>)
      requires g.Valid() && Space(g, flash)
      ensures r.Some? ==> InfoOk(g, flash, r.value) && r.value.store.Empty? && size < g.payload
      ensures r.Some? ==> forall s: nat :: s < r.value.sec ==> !flash[s].store.Empty?
      ensures r.None? ==> EmptySet(flash) == {} || size >= g.payload
    {
      for s := 0 to |flash|
        invariant forall j: nat :: j < s && flash[j].store.Empty? ==> size >= g.payload
      {
        if flash[s].store.Empty? && g.payload > size {
          assert SectorOk(g, flash[s]);
          return Some(SecInfo(s, flash[s].store, flash[s].dirty, g.payload, 0));
        }
      }
      r := None;
    }

    /** `alloc_kv`: a sector for `size` more bytes, keeping the last empty sector for collection. */
    method AllocKv(size: nat, ghost pd: Option<Loc>, ghost pw: set<Loc>) returns (r: Option<SecInfo>)
      requires Inv(pd, pw)
      modifies `flash, `trace, `secCache, `gcRequest
      ensures Inv(pd, pw) && Touched(g, old(flash), flash) && Saved(pd, pw) == old(Saved(pd, pw))
      ensures Logged(old(trace), trace, Saved(pd, pw), Saved(pd, pw))
      ensures Settled(old(flash)) ==> trace == old(trace)
      ensures r.Some? ==> InfoOk(g, flash, r.value) && Chosen(g, flash, gcRequest, r.value.sec, size)
      ensures r.Some? ==> gcRequest == old(gcRequest) && Searched(flash, r.value.sec)
      ensures r.None? ==>
        NoUsingFits(g, flash, old(gcRequest), size) && forall s :: !EmptyFits(g, flash, old(gcRequest), s, size)
      ensures r.None? ==> (gcRequest <==> old(gcRequest) || |EmptySet(flash)| == 1)
      ensures r.None? ==> Settled(flash)
    {
      hide Logged, SecCacheOk, Firm, Recov, Mid, Space, Settle, Touched, EmptySet;
      var empty, using := CountSectors();
      r := None;
      ghost var before := flash;
      LoggedRefl(trace, Saved(pd, pw), Saved(pd, pw));
      TouchedRefl(g, flash);
      if using > 0 {
        r := AllocUsing(size, pd, pw);
      } else {
        NoneInUse(flash);
      }
      TouchedKeeps(g, before, flash, index, pd, pw);
      if empty > 0 && r.None? {
        if empty > 1 || gcRequest {
          r := AllocEmpty(size);
        } else {
          gcRequest := true;
        }
      }
      NoEmpty(flash);
    }

    // ---------- Writing ----------

    /** `del_kv` on a record already found; the table entry goes only when no replacement was just stored. */
    method DelKv(l: Loc, complete: bool)
      requires In(flash, l) && FirstMatch(kvCache) && CacheInRange(kvCache)
      modifies `flash, `trace, `kvCache, `lastIsCompleteDel
      ensures flash == AfterDel(old(flash), l, complete)
      ensures trace == old(trace) + DelWrites(old(flash), l, complete)
      ensures lastIsCompleteDel == !complete
      ensures |kvCache| == |old(kvCache)| && FirstMatch(kvCache) && CacheInRange(kvCache)
      ensures if complete && !old(lastIsCompleteDel)
        then forall i :: 0 <= i < |kvCache| ==>
          if old(kvCache)[i].crc == hash(At(old(flash), l).name) then kvCache[i].loc.None?
            else kvCache[i] == old(kvCache)[i]
        else kvCache == old(kvCache)
    {
      var name := At(flash, l).name;
      Commit(SetStatus(flash, l, if complete then Deleted else PreDelete));
      if !complete {
        lastIsCompleteDel := true;
      } else {
        if !lastIsCompleteDel {
          kvCache := DropKv(kvCache, hash(name));
        }
        lastIsCompleteDel := false;
      }
      if flash[l.sec].dirty.Clean? {
        Commit(SetHead(flash, l.sec, flash[l.sec].store, Dirty));
      }
    }

    /** `update_sec_status`. */
    method PlaceStatus(info: SecInfo, len: nat) returns (isFull: bool)
      requires info.sec < |flash| && info.store == flash[info.sec].store
      requires info.remain + Used(flash[info.sec].recs) == g.payload
      requires len < info.remain && OncePerSector(secCache)
      modifies `flash, `trace, `secCache
      ensures flash == AfterPlace(g, old(flash), info.sec, len)
      ensures trace == old(trace) + PlaceWrites(g, old(flash), info.sec, len)
      ensures isFull <==> info.store.Using? && PlacedStore(g, old(flash)[info.sec], len).Full?
      ensures |secCache| == |old(secCache)| && OncePerSector(secCache)
      ensures forall i :: 0 <= i < |secCache| && secCache[i].sec.Some? ==>
        secCache[i] == old(secCache)[i] && !(isFull && secCache[i].sec == Some(info.sec))
    {
      isFull := false;
      if info.store.Empty? {
        Commit(SetHead(flash, info.sec, Using, flash[info.sec].dirty));
      } else if info.store.Using? {
        if info.remain < g.Threshold() || info.remain - len < g.Threshold() {
          Commit(SetHead(flash, info.sec, Full, flash[info.sec].dirty));
          secCache := StoreSector(secCache, g.payload, info.sec, g.payload);
          isFull := true;
        }
      }
      assert SetHead(old(flash), info.sec, old(flash)[info.sec].store, old(flash)[info.sec].dirty) == old(flash);
    }

    /** The flash writes of `create_kv_blob`, and of the copy in `move_kv`. */
    method ProgramRecord(t: nat, name: Name, value: Value)
      requires t < |flash|
      modifies `flash, `trace
      ensures flash == AddRec(old(flash), t, NewRec(g, Written, Complete, name, value))
      ensures trace == old(trace) + ProgramWrites(g, old(flash), t, name, value)
    {
      var l := Loc(t, |flash[t].recs|);
      ghost var fl := flash;
      Commit(AddRec(flash, t, Stub(g)));
      ReplaceLast(fl, t, Stub(g), NewRec(g, PreWrite, HeaderDone, name, value));
      Commit(SetRec(flash, l, NewRec(g, PreWrite, HeaderDone, name, value)));
      ReplaceLast(fl, t, NewRec(g, PreWrite, HeaderDone, name, value), NewRec(g, PreWrite, NameDone, name, value));
      Commit(SetRec(flash, l, NewRec(g, PreWrite, NameDone, name, value)));
      ReplaceLast(fl, t, NewRec(g, PreWrite, NameDone, name, value), NewRec(g, PreWrite, Complete, name, value));
      Commit(SetRec(flash, l, NewRec(g, PreWrite, Complete, name, value)));
      ReplaceLast(fl, t, NewRec(g, PreWrite, Complete, name, value), NewRec(g, Written, Complete, name, value));
      Commit(SetStatus(flash, l, Written));
    }

    /**
     Place and program a record, then bring both tables up to date. `create_kv_blob` leaves the
     sector table alone when the sector became full, `move_kv` always stores the new offset.
     */
    method InsertRecord(info: SecInfo, name: Name, value: Value, always: bool) returns (isFull: bool)
      requires g.Valid() && Space(g, flash) && info.sec < |flash| && Fits(g, flash, info.sec, g.KvLen(name, value))
      requires info.store == flash[info.sec].store && info.remain + Used(flash[info.sec].recs) == g.payload
      requires SecCacheOk(secCache, flash, {}) && KvCacheOk(hash, kvCache, flash, index, {hash(name)})
      modifies `flash, `trace, `secCache, `kvCache, `index
      ensures flash == AfterCreate(g, old(flash), info.sec, name, value)
      ensures trace == old(trace) + CreateWrites(g, old(flash), info.sec, name, value)
      ensures index == old(index)[name := Loc(info.sec, |old(flash)[info.sec].recs|)]
      ensures SecCacheOk(secCache, flash, {}) && KvCacheOk(hash, kvCache, flash, index, {})
      ensures isFull <==> info.store.Using? && flash[info.sec].store.Full?
    {
      hide SecCacheOk, Firm, KvCacheOk, Space, Geometry.KvLen, Unsettled, Used, AddRec, AfterPlace, PlacedStore,
        SetHead;
      ghost var fl, slots := flash, secCache;
      var t, len := info.sec, g.KvLen(name, value);
      InsertedSettled(g, fl, t, name, value);
      AfterPlaceSame(g, fl, t, len, None);
      assert OncePerSector(secCache) by {
        SecCacheShape(secCache, flash, {});
      }
      isFull := PlaceStatus(info, len);
      var loc := Loc(t, |flash[t].recs|);
      var emptyOff := Used(flash[t].recs) + len;
      ProgramRecord(t, name, value);
      AfterCreateSectors(slots, g, fl, t, name, value);
      SecCacheSub(slots, secCache, flash, {t});
      StoreOffset(t, emptyOff, always || !isFull);
      StorePlace(fl, t, name, value, loc);
    }

    /** The sector table after a record was programmed into sector `t`. */
    method StoreOffset(t: nat, emptyOff: nat, store: bool)
      requires SecCacheOk(secCache, flash, {t}) && t < |flash| && emptyOff == Used(flash[t].recs)
      requires (flash[t].store.Using? || flash[t].store.Full?) && !Unsettled(flash[t])
      requires store || forall i :: 0 <= i < |secCache| ==> secCache[i].sec != Some(t)
      modifies `secCache
      ensures SecCacheOk(secCache, flash, {})
    {
      hide SecCacheOk, Used, Unsettled;
      ghost var before := secCache;
      SecCacheShape(secCache, flash, {t});
      if store {
        secCache := StoreSector(secCache, g.payload, t, emptyOff);
      }
      SectorRepaired(before, secCache, flash, t);
    }

    /** The key table and the index after the record of `name` was programmed at `loc`. */
    method StorePlace(ghost fl: Flash, ghost t: nat, name: Name, ghost value: Value, loc: Loc)
      requires t < |fl| && flash == AfterCreate(g, fl, t, name, value) && loc == Loc(t, |fl[t].recs|)
      requires KvCacheOk(hash, kvCache, fl, index, {hash(name)})
      modifies `kvCache, `index
      ensures index == old(index)[name := loc] && KvCacheOk(hash, kvCache, flash, index, {})
    {
      hide KvCacheOk, AfterCreate, SamePlaces;
      AfterCreatePlaces(hash, g, fl, index, t, name, value);
      KvCacheFrame(hash, kvCache, fl, index, flash, index[name := loc], {hash(name)}, {hash(name)});
      index := index[name := loc];
      KvCacheShape(hash, kvCache, flash, index, {hash(name)});
      ghost var keys := kvCache;
      kvCache := StoreKv(kvCache, hash(name), loc);
      StoreKvOk(hash, keys, kvCache, flash, index, name, loc);
    }

    /** `create_kv_blob` with a sector already allocated. */
    method CreateKv(info: SecInfo, key: Name, value: Value) returns (e: Error)
      requires g.Valid() && Space(g, flash) && |key| != NAME_MAX
      requires info.sec < |flash|
      requires (g.KvLen(key, value) <= g.payload ==> Fits(g, flash, info.sec, g.KvLen(key, value)))
      requires info.store == flash[info.sec].store && info.remain + Used(flash[info.sec].recs) == g.payload
      requires SecCacheOk(secCache, flash, {}) && KvCacheOk(hash, kvCache, flash, index, {hash(key)})
      modifies `flash, `trace, `secCache, `kvCache, `index, `gcRequest
      ensures e == if |key| > NAME_MAX then KvNameErr else if g.KvLen(key, value) > g.payload then SavedFull else NoErr
      ensures e.NoErr? ==>
        && flash == AfterCreate(g, old(flash), info.sec, key, value)
        && trace == old(trace) + CreateWrites(g, old(flash), info.sec, key, value)
        && index == old(index)[key := Loc(info.sec, |old(flash)[info.sec].recs|)]
        && SecCacheOk(secCache, flash, {}) && KvCacheOk(hash, kvCache, flash, index, {})
        && (gcRequest <==> old(gcRequest) || (info.store.Using? && flash[info.sec].store.Full?))
      ensures !e.NoErr? ==> unchanged(this)
    {
      if |key| > NAME_MAX {
        return KvNameErr;
      }
      if g.KvLen(key, value) > g.payload {
        return SavedFull;
      }
      hide SecCacheOk, Firm, KvCacheOk, Space, Geometry.KvLen, Fits, AfterCreate, CreateWrites;
      var isFull := InsertRecord(info, key, value, false);
      if isFull {
        gcRequest := true;
      }
      e := NoErr;
    }

    // ---------- Garbage collection ----------

    /** The first step of `move_kv`: a live record becomes PRE_DELETE. */
    method MovePrepare(l: Loc, ghost pd: Option<Loc>, ghost pw: set<Loc>)
      requires Inv(pd, pw) && In(flash, l) && KvCacheOk(hash, kvCache, flash, index, {})
      requires if At(flash, l).status.Written? then pd == None else At(flash, l).status.PreDelete? && pd == Some(l)
      modifies `flash, `trace, `kvCache, `index, `lastIsCompleteDel
      ensures Inv(Some(l), pw) && Saved(Some(l), pw) == old(Saved(pd, pw))
      ensures flash == if pd.None? then AfterDel(old(flash), l, false) else old(flash)
      ensures index == if pd.None? then old(index) - {At(old(flash), l).name} else old(index)
      ensures KvCacheOk(hash, kvCache, flash, index, {hash(At(old(flash), l).name)})
      ensures Logged(old(trace), trace, old(Saved(pd, pw)), old(Saved(pd, pw)))
      ensures In(flash, l) && At(flash, l) == At(old(flash), l).(status := PreDelete)
      ensures pd.Some? ==> lastIsCompleteDel == old(lastIsCompleteDel)
      ensures trace == if pd.None? then old(trace) + DelWrites(old(flash), l, false) else old(trace)
      ensures Grows(old(flash), flash) && EmptySet(flash) == EmptySet(old(flash))
      ensures (Settled(old(flash)) ==> Settled(flash))
    {
      hide Mid, Space, SecCacheOk, Firm, KvCacheOk, Logged, Contents, Recov, AfterDel, DelWrites, SamePlaces, Grows,
        Settled, EmptySet;
      ghost var m, fl, idx, log := Saved(pd, pw), flash, index, trace;
      var kv := At(flash, l);
      RecovNone(flash, index, pw);
      LoggedRefl(trace, m, m);
      GrowsRefl(flash);
      KvCacheShape(hash, kvCache, flash, index, {});
      ActiveRecord(g, flash, index, pd, pw, l);
      if kv.status.Written? {
        GrowsDel(flash, l, false);
        if Settled(flash) {
          AfterDelSettled(g, flash, l, false);
        }
        DelPreSteps(g, flash, index, pw, l);
        AfterDelSectors(secCache, flash, l, false, {});
        AfterDelPlaces(hash, flash, index, l, false);
        FirmDel(g, single, flash, torn, l, false);
        DelKv(l, false);
        index := index - {kv.name};
        KvCacheFrame(hash, kvCache, fl, idx, flash, index, {}, {hash(kv.name)});
        LoggedAdd(log, log, DelWrites(fl, l, false), m, m);
        AfterDelFrame(g, fl, l, false, 0, 0);
      } else {
        KvCacheWeaken(hash, kvCache, flash, index, {hash(kv.name)});
      }
    }

    /** The last step of `move_kv`: the source of the copy is deleted. */
    method MoveDrop(l: Loc, ghost pw: set<Loc>)
      requires Inv(Some(l), pw) && In(flash, l) && At(flash, l).name in index
      requires KvCacheOk(hash, kvCache, flash, index, {hash(At(flash, l).name)})
      requires lastIsCompleteDel ==> KvCacheOk(hash, kvCache, flash, index, {})
      requires At(flash, l).status.PreDelete?
      modifies `flash, `trace, `kvCache, `lastIsCompleteDel
      ensures Inv(None, pw) && Saved(None, pw) == old(Saved(Some(l), pw)) && !lastIsCompleteDel
      ensures flash == AfterDel(old(flash), l, true) && KvCacheOk(hash, kvCache, flash, index, {})
      ensures trace == old(trace) + DelWrites(old(flash), l, true)
      ensures Logged(old(trace), trace, Saved(None, pw), Saved(None, pw))
      ensures Grows(old(flash), flash) && EmptySet(flash) == EmptySet(old(flash))
    {
      hide Mid, Space, SecCacheOk, Firm, KvCacheOk, Logged, Contents, Recov, AfterDel, DelWrites, SamePlaces, Grows,
        EmptySet;
      GrowsDel(flash, l, true);
      ghost var m, fl, slots, log, last := Saved(Some(l), pw), flash, kvCache, trace, lastIsCompleteDel;
      ghost var h := hash(At(flash, l).name);
      LoggedRefl(trace, m, m);
      KvCacheShape(hash, kvCache, flash, index, {h});
      DelDoneSteps(g, flash, index, pw, l);
      RecovNone(AfterDel(fl, l, true), index, pw);
      AfterDelSectors(secCache, flash, l, true, {});
      AfterDelPlaces(hash, flash, index, l, true);
      AfterDelFrame(g, fl, l, true, 0, 0);
      MovableRecord(g, flash, index, pw, l);
      FirmDel(g, single, flash, torn, l, true);
      DelKv(l, true);
      LoggedAdd(log, log, DelWrites(fl, l, true), m, m);
      SamePlacesWeaken(hash, fl, index, flash, index, {h});
      if last {
        KvCacheFrame(hash, slots, fl, index, flash, index, {}, {});
      } else {
        KvCacheFrame(hash, slots, fl, index, flash, index, {h}, {h});
        DropKvOk(hash, slots, kvCache, flash, index, h);
      }
    }

    /** The copy of `move_kv` into the allocated sector, then the deletion of the source. */
    method MoveCopy(info: SecInfo, l: Loc, ghost pw: set<Loc>)
      requires Inv(Some(l), pw) && In(flash, l) && At(flash, l).name !in index
      requires KvCacheOk(hash, kvCache, flash, index, {hash(At(flash, l).name)})
      requires InfoOk(g, flash, info) && Fits(g, flash, info.sec, At(flash, l).len)
      modifies `flash, `trace, `secCache, `kvCache, `index, `lastIsCompleteDel
      ensures Inv(None, pw) && Saved(None, pw) == old(Saved(Some(l), pw)) && !lastIsCompleteDel
      ensures KvCacheOk(hash, kvCache, flash, index, {})
      ensures
        var kv := At(old(flash), l);
        var fl1 := AfterCreate(g, old(flash), info.sec, kv.name, kv.value);
        && In(fl1, l) && flash == AfterDel(fl1, l, true)
        && trace == old(trace) + CreateWrites(g, old(flash), info.sec, kv.name, kv.value) + DelWrites(fl1, l, true)
      ensures index == old(index)[At(old(flash), l).name := Loc(info.sec, |old(flash)[info.sec].recs|)]
      ensures Logged(old(trace), trace, Saved(None, pw), Saved(None, pw))
      ensures Grows(old(flash), flash) && EmptySet(flash) == EmptySet(old(flash)) - {info.sec}
    {
      hide Mid, Space, SecCacheOk, Firm, KvCacheOk, Logged, Contents, AfterCreate, CreateWrites, SamePlaces,
        Geometry.KvLen, Fits, AfterDel, Grows, EmptySet;
      ghost var m, fl, idx, log := Saved(Some(l), pw), flash, index, trace;
      var kv := At(flash, l);
      MovableRecord(g, flash, index, pw, l);
      LoggedRefl(trace, m, m);
      GrowsCreate(g, flash, info.sec, kv.name, kv.value);
      CreatedEmpty(g, flash, info.sec, kv.name, kv.value);
      CreateSteps(g, flash, index, Some(l), pw, info.sec, kv.name, kv.value);
      CreateFrame(g, flash, info.sec, kv.name, kv.value, l);
      FirmAt(g, single, flash, torn, l);
      FinishedEnds(g, kv);
      FirmCreate(g, single, flash, torn, info.sec, kv.name, kv.value);
      var isFull := InsertRecord(info, kv.name, kv.value, true);
      AfterCreateSize(g, fl, info.sec, kv.name, kv.value);
      LoggedAdd(log, log, CreateWrites(g, fl, info.sec, kv.name, kv.value), m, m);
      ghost var log1 := trace;
      KvCacheWeaken(hash, kvCache, flash, index, {hash(kv.name)});
      ghost var fl1 := flash;
      MoveDrop(l, pw);
      GrowsTrans(fl, fl1, flash);
      LoggedTrans(log, log1, trace, m, m);
    }

    /** The state of `move_kv` between marking the source and copying it. */
    ghost predicate Moving(l: Loc, pw: set<Loc>, kv: Rec)
      reads this
    {
      && Inv(Some(l), pw) && In(flash, l) && At(flash, l) == kv && kv.status.PreDelete?
      && KvCacheOk(hash, kvCache, flash, index, {hash(kv.name)})
    }

    /** The allocation of `move_kv`; in recovery also the check whether the key is already live. */
    method MoveAlloc(l: Loc, ghost pw: set<Loc>, kv: Rec) returns (a: Option<SecInfo>, dup: bool, ghost mid: Flash)
      requires Moving(l, pw, kv)
      modifies `flash, `trace, `secCache, `gcRequest
      ensures Moving(l, pw, kv) && Saved(Some(l), pw) == old(Saved(Some(l), pw)) && Touched(g, old(flash), flash)
      ensures Logged(old(trace), trace, Saved(Some(l), pw), Saved(Some(l), pw))
      ensures Settled(old(flash)) ==> trace == old(trace)
      ensures dup <==> a.Some? && inRecovery && kv.name in index
      ensures a.Some? ==>
        gcRequest == old(gcRequest) && InfoOk(g, flash, a.value) && Fits(g, flash, a.value.sec, kv.len)
      ensures a.Some? && !gcRequest && EmptySet(old(flash)) != {} ==> EmptySet(flash) - {a.value.sec} != {}
      // `mid` is the flash as the allocator left it
      ensures Touched(g, old(flash), mid) && Touched(g, mid, flash)
      ensures a.Some? ==> Chosen(g, mid, gcRequest, a.value.sec, kv.len) && Searched(mid, a.value.sec)
      ensures a.None? ==> Settled(flash)
      ensures a.None? ==>
        NoUsingFits(g, flash, old(gcRequest), kv.len) && forall s :: !EmptyFits(g, flash, old(gcRequest), s, kv.len)
    {
      hide Mid, Space, SecCacheOk, Firm, KvCacheOk, Logged, Contents, Recov, Touched, Chosen, EmptySet, Settled,
        NoUsingFits, EmptyFits, Searched, Fits;
      ghost var m, fl, log := Saved(Some(l), pw), flash, trace;
      dup := false;
      a := AllocMoving(l, pw, kv);
      mid := flash;
      TouchedRefl(g, flash);
      if a.Some? {
        ChosenFits(g, flash, gcRequest, a.value.sec, kv.len);
        if !gcRequest && EmptySet(fl) != {} {
          ChosenLeavesEmpty(g, flash, a.value.sec, kv.len);
        }
        if inRecovery {
          ghost var fl1, log1 := flash, trace;
          dup := AlreadyLive(l, pw, kv);
          TouchedKeeps(g, fl1, flash, index, Some(l), pw);
          LoggedTrans(log, log1, trace, m, m);
          TouchedTrans(g, fl, fl1, flash);
          TouchedFits(g, fl1, flash, a.value.sec, kv.len);
        }
      }
    }

    /** `alloc_kv` for the record to be moved. */
    method AllocMoving(l: Loc, ghost pw: set<Loc>, kv: Rec) returns (a: Option<SecInfo>)
      requires Moving(l, pw, kv)
      modifies `flash, `trace, `secCache, `gcRequest
      ensures Moving(l, pw, kv) && Saved(Some(l), pw) == old(Saved(Some(l), pw)) && Touched(g, old(flash), flash)
      ensures Logged(old(trace), trace, Saved(Some(l), pw), Saved(Some(l), pw))
      ensures EmptySet(flash) == EmptySet(old(flash))
      ensures Settled(old(flash)) ==> trace == old(trace) && flash == old(flash)
      ensures a.Some? ==> gcRequest == old(gcRequest) && InfoOk(g, flash, a.value)
      ensures a.Some? ==> Chosen(g, flash, gcRequest, a.value.sec, kv.len) && Searched(flash, a.value.sec)
      ensures a.None? ==> Settled(flash)
      ensures a.None? ==>
        NoUsingFits(g, flash, old(gcRequest), kv.len) && forall s :: !EmptyFits(g, flash, old(gcRequest), s, kv.len)
    {
      hide Mid, Space, SecCacheOk, Firm, KvCacheOk, Logged, Contents, SamePlaces, Recov, Touched, Chosen, EmptySet,
        Settled, NoUsingFits, EmptyFits, Searched;
      ghost var fl := flash;
      a := AllocKv(kv.len, Some(l), pw);
      TouchedKeeps(g, fl, flash, index, Some(l), pw);
      TouchedPlaces(hash, g, fl, flash, index, Some(l), pw);
      SamePlacesWeaken(hash, fl, index, flash, index, {hash(kv.name)});
      KvCacheFrame(hash, kvCache, fl, index, flash, index, {hash(kv.name)}, {hash(kv.name)});
    }

    /** The check of `move_kv` in recovery: was the copy finished before the power loss? */
    method AlreadyLive(l: Loc, ghost pw: set<Loc>, kv: Rec) returns (dup: bool)
      requires Moving(l, pw, kv)
      modifies `flash, `trace
      ensures Moving(l, pw, kv) && Saved(Some(l), pw) == old(Saved(Some(l), pw)) && Touched(g, old(flash), flash)
      ensures dup <==> kv.name in index
      ensures Logged(old(trace), trace, Saved(Some(l), pw), Saved(Some(l), pw))
      ensures Settled(old(flash)) ==> trace == old(trace)
    {
      hide Mid, Space, SecCacheOk, Firm, KvCacheOk, Logged, Contents, SamePlaces, Recov, Touched, Settled;
      ghost var fl := flash;
      var f := FindNoCache(kv.name, Some(l), pw);
      TouchedPlaces(hash, g, fl, flash, index, Some(l), pw);
      SamePlacesWeaken(hash, fl, index, flash, index, {hash(kv.name)});
      KvCacheFrame(hash, kvCache, fl, index, flash, index, {hash(kv.name)}, {hash(kv.name)});
      dup := f.Some?;
    }

    /**
     `move_kv`: copy the record at `l` to fresh space and delete it. In recovery a copy that is
     already live is not made twice. `t` is the sector the allocator chose.
     */
    method MoveKv(l: Loc, ghost pd: Option<Loc>, ghost pw: set<Loc>) returns (e: Error, ghost t: nat, ghost mid: Flash)
      requires Inv(pd, pw) && In(flash, l) && KvCacheOk(hash, kvCache, flash, index, {})
      requires if At(flash, l).status.Written? then pd == None && Settled(flash)
        else At(flash, l).status.PreDelete? && pd == Some(l) && inRecovery && !lastIsCompleteDel
      modifies `flash, `trace, `secCache, `kvCache, `index, `gcRequest, `lastIsCompleteDel
      ensures Logged(old(trace), trace, old(Saved(pd, pw)), old(Saved(pd, pw)))
      ensures e.NoErr? ==> Inv(None, pw) && Saved(None, pw) == old(Saved(pd, pw))
      ensures e.NoErr? ==>
        KvCacheOk(hash, kvCache, flash, index, {}) && !lastIsCompleteDel && gcRequest == old(gcRequest)
      ensures e.NoErr? ==> Grows(old(flash), flash)
      ensures e.NoErr? && !gcRequest && EmptySet(old(flash)) != {} ==> EmptySet(flash) != {}
      ensures e.NoErr? || e.SavedFull?
      // no space was found: the allocator refuses every sector
      ensures e.SavedFull? ==> Touched(g, if pd.None? then AfterDel(old(flash), l, false) else old(flash), flash)
      ensures e.SavedFull? ==> Settled(flash) && NoUsingFits(g, flash, old(gcRequest), At(old(flash), l).len)
      ensures e.SavedFull? ==> forall s :: !EmptyFits(g, flash, old(gcRequest), s, At(old(flash), l).len)
      // a live record: the flash is exactly the update of the key with its own value
      ensures e.NoErr? && pd.None? ==>
        t < |old(flash)| && Chosen(g, AfterDel(old(flash), l, false), gcRequest, t, At(old(flash), l).len)
      ensures e.NoErr? && pd.None? ==>
        && flash == AfterUpdate(g, old(flash), Some(l), t, At(old(flash), l).name, At(old(flash), l).value)
        && index == old(index)[At(old(flash), l).name := Loc(t, |old(flash)[t].recs|)]
        && trace == old(trace)
             + UpdateWrites(g, old(flash), Some(l), t, At(old(flash), l).name, At(old(flash), l).value)
      // a record in PRE_DELETE: `mid` is the flash as the allocator left it
      ensures e.NoErr? && pd.Some? ==>
        && Touched(g, old(flash), mid) && In(mid, l) && At(mid, l) == At(old(flash), l) && t < |mid|
        && Chosen(g, mid, gcRequest, t, At(mid, l).len) && Searched(mid, t)
      ensures e.NoErr? && pd.Some? && Settled(mid) ==>
        var k := At(old(flash), l).name;
        && flash == MovedAgain(g, mid, l, t, k in old(index))
        && index == if k in old(index) then old(index) else old(index)[k := Loc(t, |mid[t].recs|)]
    {
      hide Mid, Space, SecCacheOk, Firm, KvCacheOk, Logged, Contents, AfterDel, DelWrites, CreateWrites, Recov, Touched,
        Grows, Chosen,
        AfterCreate, EmptySet, Settled, Fits, NoUsingFits, EmptyFits, Searched, MovedAgain, AfterUpdate, UpdateWrites;
      ghost var m, fl0, log0 := Saved(pd, pw), flash, trace;
      t := 0;
      MovePrepare(l, pd, pw);
      var kv := At(flash, l);
      assert Moving(l, pw, kv);
      ghost var fl1, log1 := flash, trace;
      var a, dup;
      a, dup, mid := MoveAlloc(l, pw, kv);
      LoggedTrans(log0, log1, trace, m, m);
      TouchedKeeps(g, fl1, flash, index, Some(l), pw);
      TouchedAt(hash, g, fl1, mid, index, pw, l);
      TouchedKeeps(g, fl1, mid, index, Some(l), pw);
      TouchedKeeps(g, mid, flash, index, Some(l), pw);
      GrowsTouched(g, fl1, flash);
      GrowsTrans(fl0, fl1, flash);
      if a.None? {
        return SavedFull, t, mid;
      }
      t := a.value.sec;
      ghost var fl2, log2 := flash, trace;
      MoveRest(a.value, l, pw, kv, dup);
      GrowsTrans(fl0, fl2, flash);
      LoggedTrans(log0, log2, trace, m, m);
      if pd.None? {
        MovedLive(g, fl0, old(index), l, t, log0);
      }
      e := NoErr;
    }

    /** The part of `move_kv` behind the allocation. */
    method MoveRest(info: SecInfo, l: Loc, ghost pw: set<Loc>, kv: Rec, dup: bool)
      requires Moving(l, pw, kv) && InfoOk(g, flash, info) && Fits(g, flash, info.sec, kv.len)
      requires if dup then kv.name in index && !lastIsCompleteDel else kv.name !in index
      modifies `flash, `trace, `secCache, `kvCache, `index, `lastIsCompleteDel
      ensures Inv(None, pw) && Saved(None, pw) == old(Saved(Some(l), pw)) && !lastIsCompleteDel
      ensures KvCacheOk(hash, kvCache, flash, index, {}) && Grows(old(flash), flash)
      ensures In(old(flash), l) && info.sec < |old(flash)| && flash == MovedAgain(g, old(flash), l, info.sec, dup)
      ensures index == if dup then old(index) else old(index)[kv.name := Loc(info.sec, |old(flash)[info.sec].recs|)]
      ensures !dup ==> In(AfterCreate(g, old(flash), info.sec, kv.name, kv.value), l)
      ensures !dup ==>
        trace == old(trace) + CreateWrites(g, old(flash), info.sec, kv.name, kv.value)
          + DelWrites(AfterCreate(g, old(flash), info.sec, kv.name, kv.value), l, true)
      ensures EmptySet(flash) == if dup then EmptySet(old(flash)) else EmptySet(old(flash)) - {info.sec}
      ensures Logged(old(trace), trace, Saved(None, pw), Saved(None, pw))
    {
      hide Mid, Space, SecCacheOk, Firm, KvCacheOk, Logged, Contents, AfterDel, DelWrites, CreateWrites, Recov, Grows,
        AfterCreate, EmptySet, Fits;
      if dup {
        MoveDrop(l, pw);
      } else {
        MoveCopy(info, l, pw);
      }
    }

    /** `format_sector`: erase, then write a fresh header. */
    method FormatSector(s: nat)
      requires s < |flash| && OncePerSector(secCache)
      modifies `flash, `trace, `secCache
      ensures flash == WriteSectorHeader(Erase(old(flash), s), s)
      ensures trace == old(trace) + [Erase(old(flash), s), flash]
      ensures |secCache| == |old(secCache)| && OncePerSector(secCache)
      ensures forall i :: 0 <= i < |secCache| && secCache[i].sec.Some? ==>
        secCache[i] == old(secCache)[i] && secCache[i].sec != Some(s)
    {
      Commit(Erase(flash, s));
      Commit(WriteSectorHeader(flash, s));
      secCache := StoreSector(secCache, g.payload, s, g.payload);
    }

    /**
     The invariant between the steps of a collection. At boot a record may still wait in
     PRE_DELETE from the collection that a power loss interrupted, and its copy in PRE_WRITE.
     */
    ghost predicate GcInv(pd: Option<Loc>, pw: set<Loc>)
      reads this
    {
      && Inv(pd, pw) && KvCacheOk(hash, kvCache, flash, index, {}) && gcRequest && !lastIsCompleteDel
      && (pd.Some? ==> inRecovery) && KeptApart(flash, pw)
      && (Settled(flash) || (pd.Some? && Unplaced(g, flash, At(flash, pd.value).len)))
    }

    /** The erasing step of `do_gc`, for a sector that holds no live record any more. */
    method Reclaim(s: nat, ghost pw: set<Loc>)
      requires GcInv(None, pw) && s < |flash| && !flash[s].dirty.Clean? && forall k :: k in index ==> index[k].sec != s
      modifies `flash, `trace, `secCache
      ensures GcInv(None, pw) && Saved(None, pw) == old(Saved(None, pw))
      ensures flash == old(flash)[s := Sector(true, Empty, Clean, [])]
      ensures trace == old(trace) + [Erase(old(flash), s), flash]
      ensures Logged(old(trace), trace, Saved(None, pw), Saved(None, pw))
    {
      hide Mid, Space, SecCacheOk, Firm, KvCacheOk, Logged, Contents, Settled, AllRecoverable;
      ghost var m, fl, slots, log := Saved(None, pw), flash, secCache, trace;
      SecCacheShape(secCache, flash, {});
      FirmErased(g, single, flash, torn, s);
      FormatSector(s);
      ReclaimFacts(g, hash, kvCache, slots, secCache, fl, index, pw, s);
      LoggedRefl(log, m, m);
      LoggedAdd(log, log, [Erase(fl, s), flash], m, m);
    }

    /** Sector `s` is being collected: records from `i` on are still to be dealt with, and all of them find room. */
    ghost predicate Emptying(s: nat, i: nat, n: nat, pd: Option<Loc>, pw: set<Loc>)
      reads this
    {
      && GcInv(pd, pw) && s < |flash| && |flash[s].recs| == n && flash[s].dirty.Gc?
      && WaitsFirst(flash, s, pd) && (pd.Some? ==> pd.value.idx >= i)
      && FitsFrom(g, SettleAll(g, flash), s, i, n) && forall k :: k in index ==> index[k].sec != s || index[k].idx >= i
    }

    /** One turn of the loop of `do_gc`: a live record is moved, any other left behind. */
    method CollectRecord(s: nat, i: nat, ghost n: nat, ghost pd: Option<Loc>, ghost pw: set<Loc>)
      returns (ghost pd': Option<Loc>)
      requires Emptying(s, i, n, pd, pw) && i < n
      modifies `flash, `trace, `secCache, `kvCache, `index, `gcRequest, `lastIsCompleteDel
      ensures Emptying(s, i + 1, n, pd', pw) && Saved(pd', pw) == old(Saved(pd, pw)) && |flash| == |old(flash)|
      ensures forall j: nat :: j < |flash| && j != s ==> flash[j].dirty == old(flash)[j].dirty
      ensures Logged(old(trace), trace, Saved(pd', pw), Saved(pd', pw))
      ensures SettleAll(g, flash) == Turn(g, old(SettleAll(g, flash)), s, i)
      ensures pd.None? ==> pd'.None? && trace == old(trace) + TurnWrites(g, old(SettleAll(g, flash)), s, i)
    {
      hide Mid, Space, SecCacheOk, Firm, KvCacheOk, Logged, Contents, Recov, Settled, FitsFrom, SettleAll, Unplaced,
        KeptApart, Turn, TurnWrites;
      ghost var m := Saved(pd, pw);
      var l := Loc(s, i);
      LoggedRefl(trace, m, m);
      var kv := flash[s].recs[i];
      ScanCases(flash, index, pd, pw, l);
      WaitingAt(flash, index, pd, pw);
      SettledHere(s, pd, pw);
      if kv.stage.Complete? && (kv.status.Written? || kv.status.PreDelete?) {
        if kv.status.PreDelete? {
          CollectWaiting(s, i, n, pw);
          pd' := None;
        } else {
          NotWaiting(flash, s, i, pd);
          CollectLive(s, i, n, pw);
          pd' := None;
        }
      } else {
        FitsSkip(g, SettleAll(g, flash), s, i, n);
        NotLive(flash, index, pd, pw, l);
        TurnIdle(g, SettleAll(g, flash), s, i);
        TurnSilent(g, SettleAll(g, flash), s, i);
        pd' := pd;
      }
    }

    /** A live record goes to the sector that the allocator chooses. */
    method CollectLive(s: nat, i: nat, ghost n: nat, ghost pw: set<Loc>)
      requires Emptying(s, i, n, None, pw) && i < n && Active(flash[s].recs[i]) && flash[s].recs[i].status.Written?
      modifies `flash, `trace, `secCache, `kvCache, `index, `gcRequest, `lastIsCompleteDel
      ensures Emptying(s, i + 1, n, None, pw) && Saved(None, pw) == old(Saved(None, pw)) && |flash| == |old(flash)|
      ensures forall j: nat :: j < |flash| && j != s ==> flash[j].dirty == old(flash)[j].dirty
      ensures Logged(old(trace), trace, Saved(None, pw), Saved(None, pw))
      ensures SettleAll(g, flash) == Turn(g, old(SettleAll(g, flash)), s, i)
      ensures trace == old(trace) + TurnWrites(g, old(SettleAll(g, flash)), s, i)
    {
      hide Mid, Space, SecCacheOk, Firm, KvCacheOk, Logged, Contents, Recov, Settled, FitsFrom, SettleAll, Touched,
        Chosen, Grows, AfterUpdate, AfterDel, NoUsingFits, EmptyFits, Turn, TurnWrites, UpdateWrites, RecOk;
      ghost var fl, l := flash, Loc(s, i);
      ghost var kv := flash[s].recs[i];
      SettleAllSettled(g, flash);
      ghost var t := FitsMove(g, flash, s, i, n);
      OneKeyPerPlace(flash, index, None, pw, l);
      ActiveRecord(g, flash, index, None, pw, l);
      AfterDelSettled(g, flash, l, false);
      GcInUse(g, flash, s);
      SectorShape(g, flash, s);
      LiveTurn(g, flash, index, pw, s, i, n, t);
      ghost var t', mid;
      var e;
      e, t', mid := MoveKv(Loc(s, i), None, pw);
      if e.SavedFull? {
        SettledSame(g, AfterDel(fl, l, false), flash);
        SettleAllSettled(g, AfterDel(fl, l, false));
        ChosenNotRefused(g, flash, true, t, kv.len);
      }
      ChosenUnique(g, AfterDel(fl, l, false), true, t, t', kv.len);
      ChosenNotGc(g, fl, l, t, kv.len);
      UpdateElsewhere(g, fl, l, t, kv.name, kv.value);
      GrowsSettled(fl, flash);
      SettleAllSettled(g, flash);
    }

    /** A record waiting in PRE_DELETE is copied, unless its key is live already, and deleted. */
    method CollectWaiting(s: nat, i: nat, ghost n: nat, ghost pw: set<Loc>)
      requires Emptying(s, i, n, Some(Loc(s, i)), pw) && i < n && Active(flash[s].recs[i])
      requires flash[s].recs[i].status.PreDelete?
      modifies `flash, `trace, `secCache, `kvCache, `index, `gcRequest, `lastIsCompleteDel
      ensures Emptying(s, i + 1, n, None, pw) && Saved(None, pw) == old(Saved(Some(Loc(s, i)), pw))
      ensures |flash| == |old(flash)|
      ensures forall j: nat :: j < |flash| && j != s ==> flash[j].dirty == old(flash)[j].dirty
      ensures Logged(old(trace), trace, Saved(None, pw), Saved(None, pw))
      ensures SettleAll(g, flash) == Turn(g, old(SettleAll(g, flash)), s, i)
    {
      hide Mid, Space, SecCacheOk, Firm, KvCacheOk, Logged, Contents, Recov, Settled, FitsFrom, SettleAll, Touched,
        Chosen, Grows, MovedAgain, NoUsingFits, EmptyFits, Live, Searched, Turn, Unplaced;
      ghost var fl, l, idx, sigma := flash, Loc(s, i), index, SettleAll(g, flash);
      ghost var kv := flash[s].recs[i];
      CollectedSettled(g, flash, s, kv.len);
      GcInUse(g, flash, s);
      ghost var t := FitsMoveAgain(g, sigma, s, i, n);
      WaitingTurn(g, sigma, s, i, t);
      SettleAllTouched(g, flash);
      TouchedKeeps(g, fl, sigma, index, Some(l), pw);
      LiveIff(sigma, index, Some(l), pw, kv.name);
      NoKeyHere(flash, index, Some(l), pw, l);
      ghost var t', mid;
      var e;
      e, t', mid := MoveKv(Loc(s, i), Some(l), pw);
      if e.SavedFull? {
        SettledSame(g, fl, flash);
        ChosenNotRefused(g, flash, true, t, kv.len);
      }
      WaitingPlaced(g, fl, sigma, mid, l, t, t', kv.name in idx);
      SettleAllSettled(g, flash);
    }

    /** One turn of the loop of `do_gc` and the search for the next record. */
    method CollectNext(s: nat, i: nat, ghost n: nat, ghost pd: Option<Loc>, ghost pw: set<Loc>)
      returns (j: nat, ghost pd': Option<Loc>)
      requires Emptying(s, i, n, pd, pw) && i < n
      modifies `flash, `trace, `secCache, `kvCache, `index, `gcRequest, `lastIsCompleteDel
      ensures i < j <= n && Emptying(s, j, n, pd', pw) && Saved(pd', pw) == old(Saved(pd, pw))
      ensures |flash| == |old(flash)|
      ensures forall j: nat :: j < |flash| && j != s ==> flash[j].dirty == old(flash)[j].dirty
      ensures Logged(old(trace), trace, Saved(pd', pw), Saved(pd', pw))
      ensures Collected(g, SettleAll(g, flash), s, j, n) == old(Collected(g, SettleAll(g, flash), s, i, n))
      ensures pd.None? ==> pd'.None?
      ensures pd.None? ==>
        trace + LoopWrites(g, SettleAll(g, flash), s, j, n) == old(trace + LoopWrites(g, SettleAll(g, flash), s, i, n))
    {
      hide Mid, Space, SecCacheOk, Firm, KvCacheOk, Logged, Contents, Recov, Settled, FitsFrom, SettleAll, Unplaced,
        WaitsFirst, Turn, TurnWrites, LoopWrites, Collected;
      ghost var a := SettleAll(g, flash);
      SettledHere(s, pd, pw);
      pd' := CollectRecord(s, i, n, pd, pw);
      LoopStep(g, a, s, i, n);
      FirmAt(g, single, flash, torn, Loc(s, i));
      var next := NextKv(s, i);
      j := if next.Some? then next.value else |flash[s].recs|;
      SettledHere(s, pd', pw);
      StubsDone(s, i + 1, j, n, pd', pw);
      LoopIdle(g, SettleAll(g, flash), s, i + 1, j, n);
    }

    /** The loop of `do_gc`: the records of the sector, one after the other. */
    method EmptySector(s: nat, ghost n: nat, ghost pd: Option<Loc>, ghost pw: set<Loc>)
      requires Emptying(s, 0, n, pd, pw) && n > 0
      modifies `flash, `trace, `secCache, `kvCache, `index, `gcRequest, `lastIsCompleteDel
      ensures GcInv(None, pw) && Saved(None, pw) == old(Saved(pd, pw)) && |flash| == |old(flash)|
      ensures !flash[s].dirty.Clean? && forall k :: k in index ==> index[k].sec != s
      ensures flash == Collected(g, old(SettleAll(g, flash)), s, 0, n)
      ensures pd.None? ==> trace == old(trace) + LoopWrites(g, old(SettleAll(g, flash)), s, 0, n)
      ensures forall j: nat :: j < |flash| && j != s ==> flash[j].dirty == old(flash)[j].dirty
      ensures Logged(old(trace), trace, Saved(None, pw), Saved(None, pw))
    {
      hide Mid, Space, SecCacheOk, Firm, KvCacheOk, Logged, Contents, Recov, Settled, FitsFrom, SettleAll, Unplaced,
        WaitsFirst, Collected, LoopWrites;
      ghost var m, fl, log, a := Saved(pd, pw), flash, trace, SettleAll(g, flash);
      LoggedRefl(trace, m, m);
      ghost var pd' := pd;
      var i, more := 0, true;
      while more
        invariant 0 <= i <= n && |flash| == |fl| && (more <==> i < n)
        invariant Emptying(s, i, n, pd', pw) && Saved(pd', pw) == m
        invariant forall j: nat :: j < |flash| && j != s ==> flash[j].dirty == fl[j].dirty
        invariant Logged(log, trace, m, m)
        invariant Collected(g, SettleAll(g, flash), s, i, n) == Collected(g, a, s, 0, n)
        invariant pd.None? ==>
          pd'.None? && trace + LoopWrites(g, SettleAll(g, flash), s, i, n) == log + LoopWrites(g, a, s, 0, n)
        decreases n - i
      {
        ghost var log1 := trace;
        i, pd' := CollectNext(s, i, n, pd', pw);
        LoggedTrans(log, log1, trace, m, m);
        more := i < |flash[s].recs|;
      }
      EmptiedOut(s, n, pd', pw);
      LoopEnds(g, SettleAll(g, flash), s, n);
      SettleAllSettled(g, flash);
    }

    /**
     `do_gc`: a dirty sector is marked, emptied of its live records and formatted. Outside
     recovery the writes are exactly GcWrites.
     */
    method DoGc(s: nat, ghost pd: Option<Loc>, ghost pw: set<Loc>) returns (ghost pd': Option<Loc>)
      requires GcInv(pd, pw) && s < |flash|
      requires flash[s].dirty.Clean? || (pd.None? && EmptySet(flash) != {}) || Emptying(s, 0, |flash[s].recs|, pd, pw)
      modifies `flash, `trace, `secCache, `kvCache, `index, `gcRequest, `lastIsCompleteDel
      ensures GcInv(pd', pw) && Saved(pd', pw) == old(Saved(pd, pw))
      ensures |flash| == |old(flash)| && flash[s].dirty.Clean?
      ensures if old(flash[s].dirty.Clean?) then unchanged(this) && pd' == pd
        else pd' == None && EmptySet(flash) != {} && flash == AfterGc(g, SettleAll(g, old(flash)), s)
      ensures pd.None? ==> trace == old(trace) + GcWrites(g, old(flash), s)
      ensures forall j: nat :: j < |flash| && j != s ==> flash[j].dirty == old(flash)[j].dirty
      ensures Logged(old(trace), trace, Saved(pd', pw), Saved(pd', pw))
    {
      hide Mid, Space, SecCacheOk, Firm, KvCacheOk, Logged, Contents, Recov, Settled, FitsFrom, SettleAll, Unplaced,
        WaitsFirst, Collected, LoopWrites, GcMarked, Emptying, GcWrites, AfterGc;
      ghost var m, fl, log := Saved(pd, pw), flash, trace;
      LoggedRefl(trace, m, m);
      SectorKnown(g, flash, s);
      pd' := pd;
      if flash[s].dirty.Dirty? || flash[s].dirty.Gc? {
        ghost var n := |flash[s].recs|;
        StartEmptying(s, pd, pw);
        ghost var a, w := SettleAll(g, flash), trace;
        EmptySector(s, n, pd, pw);
        pd' := None;
        LoggedTrans(log, w, trace, m, m);
        ghost var log2, x := trace, flash;
        Reclaim(s, pw);
        LoggedTrans(log, log2, trace, m, m);
        assert s in EmptySet(flash);
        GcDone(g, SettleAll(g, fl), a, x, s, n);
        if pd.None? {
          SettleAllSettled(g, fl);
          Joined(log, GcMarked(fl, s), LoopWrites(g, a, s, 0, n), [Erase(x, s), flash]);
        }
      } else {
        GcNothing(g, flash, s);
      }
    }

    /** The GC mark: with an empty sector in reserve, or with the room that an interrupted collection needs. */
    method StartEmptying(s: nat, ghost pd: Option<Loc>, ghost pw: set<Loc>)
      requires GcInv(pd, pw) && s < |flash| && !flash[s].dirty.Clean?
      requires (pd.None? && EmptySet(flash) != {}) || Emptying(s, 0, |flash[s].recs|, pd, pw)
      modifies `flash, `trace
      ensures Emptying(s, 0, |old(flash)[s].recs|, pd, pw) && Saved(pd, pw) == old(Saved(pd, pw))
      ensures |old(flash)[s].recs| > 0
      ensures flash == GcMarked(old(flash), s) && SettleAll(g, flash) == GcMarked(SettleAll(g, old(flash)), s)
      ensures trace == old(trace) + [flash]
      ensures |flash| == |old(flash)| && forall j: nat :: j < |flash| && j != s ==> flash[j] == old(flash)[j]
      ensures Logged(old(trace), trace, Saved(pd, pw), Saved(pd, pw))
    {
      hide Mid, Space, SecCacheOk, Firm, KvCacheOk, Logged, Contents, Recov, FitsFrom, SettleAll, Collecting,
        Unplaced, Used, Recoverable;
      ghost var m, fl, log, n := Saved(pd, pw), flash, trace, |flash[s].recs|;
      LoggedRefl(trace, m, m);
      ghost var reserve, f := pd.None? && EmptySet(flash) != {}, 0;
      if reserve {
        f := StartCollecting(g, hash, kvCache, secCache, flash, index, pw, s);
        FirmHead(g, single, flash, torn, s, flash[s].store, Gc);
      } else {
        SettledHere(s, pd, pw);
        GcInUse(g, flash, s);
        SectorHasRecords(g, flash, s);
      }
      Commit(SetHead(flash, s, flash[s].store, Gc));
      if reserve {
        ReserveFits(g, flash, index, pw, s, fl[s].recs, 0, f);
        SettleAllSettled(g, flash);
        SettleAllSettled(g, fl);
      } else {
        assert flash == fl;
        MarkedAgain(SettleAll(g, fl), s);
      }
      StillThere(flash, index, pd, pw);
      LoggedAdd(log, log, [flash], m, m);
    }

    lemma SettledHere(s: nat, pd: Option<Loc>, pw: set<Loc>)
      requires GcInv(pd, pw) && s < |flash| && flash[s].dirty.Gc?
      ensures !Unsettled(flash[s]) && SettleAll(g, flash)[s] == flash[s]
    {
      hide Space, SecCacheOk, Firm, KvCacheOk, SettleAll, Unplaced;
      CollectedSettled(g, flash, s, if pd.Some? then At(flash, pd.value).len else 0);
    }

    /** Lone status bytes are passed over. */
    lemma StubsDone(s: nat, i: nat, j: nat, n: nat, pd: Option<Loc>, pw: set<Loc>)
      requires Emptying(s, i, n, pd, pw) && i <= j <= n && forall k :: i <= k < j ==> IsStub(flash[s].recs[k])
      ensures Emptying(s, j, n, pd, pw)
    {
      hide Mid, Space, SecCacheOk, Firm, KvCacheOk, FitsFrom, SettleAll, Unplaced;
      SettledHere(s, pd, pw);
      FitsSkipStubs(g, SettleAll(g, flash), s, i, j, n);
      StubsNotLive(flash, index, pd, pw, s, i, j);
    }

    lemma EmptiedOut(s: nat, n: nat, pd: Option<Loc>, pw: set<Loc>)
      requires Emptying(s, n, n, pd, pw)
      ensures pd == None && forall k :: k in index ==> index[k].sec != s
    {
      hide Space, SecCacheOk, Firm, KvCacheOk, FitsFrom, SettleAll, Unplaced;
    }

    /**
     A collection that has reached sector `s` finds room: an empty sector is in reserve, or `s0`
     is still to be resumed.
     */
    ghost predicate Ahead(s: nat, s0: nat, pd: Option<Loc>, pw: set<Loc>)
      reads this
    {
      || (pd.None? && EmptySet(flash) != {})
      || (s <= s0 < |flash| && Emptying(s0, 0, |flash[s0].recs|, pd, pw)
          && forall j: nat :: j < s0 ==> flash[j].dirty.Clean?)
    }

    /** One sector of `gc_collect`. */
    method GcNext(s: nat, ghost s0: nat, ghost pd: Option<Loc>, ghost pw: set<Loc>) returns (ghost pd': Option<Loc>)
      requires GcInv(pd, pw) && s < |flash| && Ahead(s, s0, pd, pw) && forall j: nat :: j < s ==> flash[j].dirty.Clean?
      modifies `flash, `trace, `secCache, `kvCache, `index, `gcRequest, `lastIsCompleteDel
      ensures GcInv(pd', pw) && Saved(pd', pw) == old(Saved(pd, pw)) && |flash| == |old(flash)|
      ensures Ahead(s + 1, s0, pd', pw)
      ensures forall j: nat :: j <= s ==> flash[j].dirty.Clean?
      ensures pd.None? ==> pd'.None? && trace + AllGcWrites(g, flash, s + 1) == old(trace + AllGcWrites(g, flash, s))
      ensures pd.None? && Tidy(g, old(flash)) ==> Tidy(g, flash)
      ensures Logged(old(trace), trace, Saved(pd', pw), Saved(pd', pw))
    {
      hide Mid, Space, SecCacheOk, Firm, KvCacheOk, Logged, Contents, Recov, Settled, FitsFrom, SettleAll, Unplaced,
        WaitsFirst, GcWrites, AfterGc, AllGcWrites, Tidy;
      ghost var x := flash;
      if pd.None? {
        SettleAllSettled(g, flash);
        GcStays(g, flash, s);
        if Tidy(g, flash) {
          TidyGc(g, flash, s);
        }
      }
      pd' := DoGc(s, pd, pw);
      if pd.None? {
        AllGcStep(g, x, s);
      }
    }

    /**
     `gc_collect`: runs only when at most the reserved empty sector is left. `s0` is where a
     collection was interrupted; the sectors before it are clean. Outside recovery the writes are
     exactly AllGcWrites.
     */
    method GcCollect(ghost pd: Option<Loc>, ghost pw: set<Loc>, ghost s0: nat) returns (ghost pd': Option<Loc>)
      requires GcInv(pd, pw) && (|EmptySet(flash)| <= 1 ==> Ahead(0, s0, pd, pw))
      modifies `flash, `trace, `secCache, `kvCache, `index, `gcRequest, `lastIsCompleteDel
      ensures Inv(pd', pw) && KvCacheOk(hash, kvCache, flash, index, {}) && KeptApart(flash, pw)
      ensures Saved(pd', pw) == old(Saved(pd, pw))
      ensures !gcRequest && !lastIsCompleteDel && |flash| == |old(flash)|
      ensures if |EmptySet(old(flash))| <= 1
        then
          && pd' == None && Settled(flash) && EmptySet(flash) != {}
          && forall s: nat :: s < |flash| ==> flash[s].dirty.Clean?
        else pd' == pd && flash == old(flash) && index == old(index)
      ensures Logged(old(trace), trace, Saved(pd', pw), Saved(pd', pw))
      ensures pd.None? ==>
        trace == old(trace) + if |EmptySet(old(flash))| <= 1 then AllGcWrites(g, old(flash), 0) else []
      ensures pd.None? && Tidy(g, old(flash)) ==> Tidy(g, flash)
      // a power loss at any write leaves a flash that the next boot is proved for
      ensures pd.None? && pw == {} && EmptySet(old(flash)) != {} ==>
        CrashLogged(g, old(trace), trace, Saved(pd', pw), Saved(pd', pw))
    {
      hide Mid, Space, SecCacheOk, Firm, KvCacheOk, Logged, Contents, Recov, Settled, KeptApart, Unplaced, AllGcWrites,
        CrashLogged, Ahead, Tidy;
      ghost var m, fl, log := Saved(pd, pw), flash, trace;
      LoggedRefl(trace, m, m);
      CrashRefl(g, log, m, m);
      pd' := pd;
      var empty, using := CountSectors();
      if empty <= 1 {
        var s := 0;
        while s < |flash|
          invariant s <= |flash| == |fl| && GcInv(pd', pw) && Saved(pd', pw) == m && Ahead(s, s0, pd', pw)
          invariant forall j: nat :: j < s ==> flash[j].dirty.Clean?
          invariant Logged(log, trace, m, m)
          invariant pd.None? ==> pd'.None? && trace + AllGcWrites(g, flash, s) == log + AllGcWrites(g, fl, 0)
          invariant pd.None? && Tidy(g, fl) ==> Tidy(g, flash)
        {
          ghost var log1 := trace;
          pd' := GcNext(s, s0, pd', pw);
          LoggedTrans(log, log1, trace, m, m);
          s := s + 1;
        }
        AheadDone(|flash|, s0, pd', pw);
        AllGcEnds(g, flash, |flash|);
        if pd.None? && pw == {} && EmptySet(fl) != {} {
          CollectCrashes(g, log, fl, old(index), m);
        }
      }
      gcRequest := false;
    }

    lemma AheadDone(s: nat, s0: nat, pd: Option<Loc>, pw: set<Loc>)
      requires Ahead(s, s0, pd, pw) && s >= |flash|
      ensures pd.None? && EmptySet(flash) != {}
    {
      hide Emptying;
    }

    // ---------- The state between operations ----------

    ghost predicate Valid()
      reads this
    {
      && Inv(None, {}) && KvCacheOk(hash, kvCache, flash, index, {})
      && Settled(flash) && EmptySet(flash) != {}
      && !gcRequest && !lastIsCompleteDel && !inRecovery
    }

    /** The map the database stands for. */
    ghost function Map(): map<Name, Value>
      requires Valid()
      reads this
    {
      Contents(flash, index)
    }

    // ---------- Operations ----------

    /** No other live key would be taken for `key` by the key table. */
    ghost predicate NoClash(key: Name)
      requires Valid()
      reads this
    {
      !Confused(g, hash, Map(), key)
    }

    /** `new_kv`: allocate, and if that fails collect once and try again. */
    method NewKv(size: nat) returns (r: Option<SecInfo>)
      requires Valid()
      modifies `flash, `trace, `secCache, `kvCache, `index, `gcRequest, `lastIsCompleteDel
      ensures Valid() && Map() == old(Map())
      ensures index.Keys == old(index).Keys && (NoGc(old(flash)) ==> NoGc(flash))
      ensures Logged(old(trace), trace, Map(), Map()) && CrashLogged(g, old(trace), trace, Map(), Map())
      ensures r.Some? ==> InfoOk(g, flash, r.value) && Chosen(g, flash, false, r.value.sec, size)
      // a refusal is honest: nothing is left to collect, one empty sector is reserved, no sector has room
      ensures r.None? && size < g.payload ==> |EmptySet(flash)| == 1 && NoUsingFits(g, flash, false, size)
      ensures r.None? && size < g.payload ==> forall s: nat :: s < |flash| ==> flash[s].dirty.Clean?
      // with a place nothing changes, otherwise the dirty sectors are collected
      ensures forall t: nat :: Chosen(g, old(flash), false, t, size) ==>
        r.Some? && r.value.sec == t && flash == old(flash) && index == old(index) && trace == old(trace)
      ensures NoUsingFits(g, old(flash), false, size) && |EmptySet(old(flash))| == 1 ==>
        trace == old(trace) + AllGcWrites(g, old(flash), 0)
      ensures |flash| == |old(flash)| && (Tidy(g, old(flash)) ==> Tidy(g, flash))
    {
      hide Mid, Space, SecCacheOk, Firm, KvCacheOk, Logged, Contents, Settled, Touched, Chosen, NoGc, NoUsingFits,
        CrashLogged, AllGcWrites, EmptyFits, Tidy;
      ghost var m, fl, log := Map(), flash, trace;
      r := AllocKv(size, None, {});
      TouchedKeeps(g, fl, flash, index, None, {});
      CrashRefl(g, log, m, m);
      SpareEmptyFits(g, flash, size);
      ghost var found := r;
      forall t: nat | Chosen(g, fl, false, t, size)
        ensures found.Some? && found.value.sec == t
      {
        if found.None? {
          ChosenNotRefused(g, fl, false, t, size);
        } else {
          ChosenUnique(g, fl, false, t, found.value.sec, size);
        }
      }
      if found.Some? && |EmptySet(fl)| == 1 {
        ChosenUsing(g, fl, found.value.sec, size);
      }
      if r.None? && gcRequest {
        r := CollectAndRetry(size);
        LoggedTrans(log, log, trace, m, m);
      }
      SameKeysByContents(fl, old(index), flash, index);
    }

    /** A collection outside recovery. */
    method Collect()
      requires Pending() && gcRequest
      modifies `flash, `trace, `secCache, `kvCache, `index, `gcRequest, `lastIsCompleteDel
      ensures Valid() && Map() == old(Contents(flash, index)) && (NoGc(old(flash)) ==> NoGc(flash))
      ensures Logged(old(trace), trace, Map(), Map()) && CrashLogged(g, old(trace), trace, Map(), Map())
      ensures |EmptySet(old(flash))| <= 1 ==> forall s: nat :: s < |flash| ==> flash[s].dirty.Clean?
      ensures trace == old(trace) + if |EmptySet(old(flash))| <= 1 then AllGcWrites(g, old(flash), 0) else []
      ensures |flash| == |old(flash)| && (Tidy(g, old(flash)) ==> Tidy(g, flash))
    {
      hide Mid, Space, SecCacheOk, Firm, KvCacheOk, Logged, Contents, Settled, CrashLogged, AllGcWrites, Recov, Tidy;
      RecovNone(flash, index, {});
      assert KeptApart(flash, {});
      ghost var pd := GcCollect(None, {}, 0);
      RecovNone(flash, index, {});
    }

    /** The second half of `new_kv`. */
    method CollectAndRetry(size: nat) returns (r: Option<SecInfo>)
      requires Pending() && gcRequest
      modifies `flash, `trace, `secCache, `kvCache, `index, `gcRequest, `lastIsCompleteDel
      ensures Valid() && Map() == old(Contents(flash, index)) && (NoGc(old(flash)) ==> NoGc(flash))
      ensures Logged(old(trace), trace, Map(), Map()) && CrashLogged(g, old(trace), trace, Map(), Map())
      ensures r.Some? ==> InfoOk(g, flash, r.value) && Chosen(g, flash, false, r.value.sec, size)
      ensures r.None? && size < g.payload ==> |EmptySet(flash)| == 1 && NoUsingFits(g, flash, false, size)
      ensures r.None? && size < g.payload && |EmptySet(old(flash))| <= 1 ==>
        forall s: nat :: s < |flash| ==> flash[s].dirty.Clean?
      ensures trace == old(trace) + if |EmptySet(old(flash))| <= 1 then AllGcWrites(g, old(flash), 0) else []
      ensures |flash| == |old(flash)| && (Tidy(g, old(flash)) ==> Tidy(g, flash))
    {
      hide Mid, Space, SecCacheOk, Firm, KvCacheOk, Logged, Contents, Settled, Touched, Chosen, NoGc, NoUsingFits,
        CrashLogged, AllGcWrites, EmptySet, Tidy;
      Collect();
      ghost var m, fl, log := Map(), flash, trace;
      r := AllocKv(size, None, {});
      TouchedKeeps(g, fl, flash, index, None, {});
      LoggedTrans(old(trace), log, trace, m, m);
      SpareEmptyFits(g, flash, size);
      if r.None? {
        gcRequest := false;
      }
    }

    /**
     `find_kv`: the key table first, then the scan. Agrees with the scan unless another live key
     is taken for `key`.
     */
    method FindKv(key: Name) returns (r: Option<Loc>)
      requires Valid() && NoClash(key)
      modifies `flash, `trace, `kvCache
      ensures Valid() && flash == old(flash) && trace == old(trace)
      ensures r == OldOf(index, key)
      ensures Logged(old(trace), trace, Map(), Map())
    {
      hide Mid, Space, SecCacheOk, Firm, KvCacheOk, Logged, Contents, Settled, Touched, Recov, NoGc, EmptySet, Confused,
        NameSaved;
      ghost var fl, slots := flash, kvCache;
      KvCacheShape(hash, kvCache, flash, index, {});
      SlotsInRange(hash, kvCache, flash, index);
      LoggedRefl(trace, Map(), Map());
      var hit;
      kvCache, hit := LookupKv(g, flash, kvCache, hash(key), key);
      KvCacheSameKeys(hash, slots, kvCache, flash, index);
      if hit.Some? {
        ghost var i :| 0 <= i < |slots| && slots[i].loc == hit && slots[i].crc == hash(key);
        HitIsRight(g, hash, slots, flash, index, key, i);
        return hit;
      }
      r := FindNoCache(key, None, {});
      TouchedKeeps(g, fl, flash, index, None, {});
      if r.Some? {
        FoundRecord(flash, index, key);
        KvCacheWeaken(hash, kvCache, flash, index, {hash(key)});
        ghost var before := kvCache;
        kvCache := StoreKv(kvCache, hash(key), r.value);
        StoreKvOk(hash, before, kvCache, flash, index, key, r.value);
      }
      RecovNone(flash, index, {});
    }

    /** `get_kv`: at most `bufLen` leading bytes of the value, and its full length. */
    method GetKv(key: Name, bufLen: nat) returns (data: Value, valueLen: nat)
      requires Valid() && NoClash(key)
      modifies `flash, `trace, `kvCache
      ensures Valid() && flash == old(flash) && trace == old(trace) && Map() == old(Map())
      ensures if key in Map()
        then
          && data <= Map()[key] && |data| == (if bufLen < valueLen then bufLen else valueLen)
          && valueLen == |Map()[key]|
        else data == [] && valueLen == 0
    {
      var r := FindKv(key);
      if r.Some? {
        FoundRecord(flash, index, key);
        var value := At(flash, r.value).value;
        valueLen := |value|;
        data := if bufLen > |value| then value else value[..bufLen];
      } else {
        data, valueLen := [], 0;
      }
    }

    /** `fdb_kv_del`. */
    method DelKey(key: Name) returns (e: Error)
      requires Valid() && NoClash(key)
      modifies `flash, `trace, `kvCache, `lastIsCompleteDel, `index
      ensures Valid()
      ensures if key in old(Map()) then e.NoErr? && Map() == old(Map()) - {key} else e.KvNameErr? && Map() == old(Map())
      ensures Logged(old(trace), trace, old(Map()), Map())
      ensures key in old(Map()) ==>
        old(key in index && In(flash, index[key])) && flash == AfterDel(old(flash), old(index)[key], true)
      ensures index == old(index) - {key}
      ensures (NoGc(old(flash)) ==> NoGc(flash) && CrashLogged(g, old(trace), trace, old(Map()), Map()))
      ensures |flash| == |old(flash)| && (Tidy(g, old(flash)) ==> Tidy(g, flash))
    {
      hide Mid, Space, SecCacheOk, Firm, KvCacheOk, Logged, Contents, Settled, AfterDel, DelWrites, SamePlaces, Recov,
        NoGc, EmptySet, Interrupted, AllInterrupted, CrashLogged, Tidy;
      ghost var m := Map();
      ContentsKeys(flash, index);
      var r := FindKv(key);
      CrashRefl(g, trace, m, m - {key});
      CrashRefl(g, trace, m, m);
      if r.None? {
        assert index == index - {key};
        return KvNameErr;
      }
      LoggedWeaken(old(trace), trace, m, m - {key});
      FoundRecord(flash, index, key);
      ghost var fl, idx, slots, log := flash, index, kvCache, trace;
      KvCacheShape(hash, kvCache, flash, index, {});
      DelDirectSteps(g, flash, index, r.value);
      AfterDelSectors(secCache, flash, r.value, true, {});
      AfterDelPlaces(hash, flash, index, r.value, true);
      AfterDelFrame(g, flash, r.value, true, 0, 0);
      FirmDel(g, single, flash, torn, r.value, true);
      DelKv(r.value, true);
      index := index - {key};
      KvCacheFrame(hash, slots, fl, idx, flash, index, {}, {hash(key)});
      DropKvOk(hash, slots, kvCache, flash, index, hash(key));
      LoggedAdd(old(trace), log, DelWrites(fl, r.value, true), m, m - {key});
      if NoGc(fl) {
        UpdateCrashes(g, log, DelWrites(fl, r.value, true), m, m - {key});
      }
      if Tidy(g, fl) {
        TidyDel(g, fl, r.value, true);
      }
      e := NoErr;
    }

    /** Between operations except that a collection may be requested. */
    ghost predicate Pending()
      reads this
    {
      && Inv(None, {}) && KvCacheOk(hash, kvCache, flash, index, {}) && Settled(flash) && EmptySet(flash) != {}
      && !lastIsCompleteDel && !inRecovery
    }

    /**
     The update phase of `set_kv`. Its flash writes are exactly UpdateWrites: after each of them
     a boot finds the old or the new map, and no record of another key has changed.
     */
    method Replace(info: SecInfo, key: Name, value: Value, found: Option<Loc>) returns (e: Error)
      requires Valid() && found == OldOf(index, key) && |key| != NAME_MAX
      requires InfoOk(g, flash, info) && Chosen(g, flash, false, info.sec, g.KvLen(key, value))
      requires g.KvLen(key, value) <= g.payload - g.Threshold()
      requires torn ==> EndsFirm(g, Finished(g, key, value))
      modifies `flash, `trace, `secCache, `kvCache, `index, `gcRequest, `lastIsCompleteDel
      ensures e == if |key| > NAME_MAX then KvNameErr else NoErr
      ensures !e.NoErr? ==> unchanged(this)
      ensures e.NoErr? ==> Pending() && Contents(flash, index) == old(Map())[key := value]
      ensures e.NoErr? ==> index == old(index)[key := Loc(info.sec, |old(flash)[info.sec].recs|)]
      ensures e.NoErr? ==>
        flash == AfterUpdate(g, old(flash), found, info.sec, key, value) && (NoGc(old(flash)) ==> NoGc(flash))
      ensures e.NoErr? ==>
        (gcRequest <==> info.store.Using? && PlacedStore(g, old(flash)[info.sec], g.KvLen(key, value)).Full?)
      ensures e.NoErr? ==> var w := UpdateWrites(g, old(flash), found, info.sec, key, value);
        && trace == old(trace) + w && AllRecoverable(w, old(Map()), old(Map())[key := value])
        && (NoGc(old(flash)) ==> AllInterrupted(g, w, old(Map()), old(Map())[key := value]))
        && forall i :: 0 <= i < |w| ==> Untouched(old(flash), w[i], found)
    {
      hide Mid, Space, SecCacheOk, Firm, KvCacheOk, Contents, Settled, AfterDel, DelWrites, CreateWrites, SamePlaces,
        Recov, NoGc, EmptySet;
      hide AfterCreate, AllInterrupted, AllRecoverable, Untouched, Chosen, Geometry.KvLen, Fits;
      ghost var fl, idx, t, len := flash, index, info.sec, g.KvLen(key, value);
      ChosenFits(g, flash, false, t, len);
      ChosenLeavesEmpty(g, flash, t, len);
      IndexedShort(flash, index, key);
      if |key| < NAME_MAX {
        ReplaceFacts(g, single, torn, fl, index, t, key, value);
      }
      KvCacheWeaken(hash, kvCache, flash, index, {hash(key)});
      if found.Some? {
        ReplacePrepare(found.value, key, t, len);
      }
      ghost var fl1 := flash;
      assert |flash[t].recs| == |fl[t].recs|;
      e := CreateKv(info, key, value);
      if e.NoErr? {
        assert index == idx[key := Loc(t, |fl[t].recs|)];
        CreatedStore(g, fl, fl1, t, key, value);
        if found.Some? {
          CreateFrame(g, fl1, t, key, value, found.value);
          ReplaceFinish(found.value);
        }
        assert flash == AfterUpdate(g, fl, found, t, key, value);
        AfterUpdateSize(g, fl, found, t, key, value);
      }
    }

    /** The first `del_kv` of `set_kv`: the old record becomes PRE_DELETE. */
    method ReplacePrepare(l: Loc, key: Name, ghost t: nat, ghost len: nat)
      requires Valid() && In(flash, l) && At(flash, l).status.Written? && At(flash, l).name == key && t < |flash|
      modifies `flash, `trace, `kvCache, `index, `lastIsCompleteDel
      ensures flash == AfterDel(old(flash), l, false) && trace == old(trace) + DelWrites(old(flash), l, false)
      ensures index == old(index) - {key} && lastIsCompleteDel
      ensures Space(g, flash) && SecCacheOk(secCache, flash, {}) && KvCacheOk(hash, kvCache, flash, index, {hash(key)})
      ensures |flash| == |old(flash)| && |flash[t].recs| == |old(flash)[t].recs|
      ensures flash[t].store == old(flash)[t].store
      ensures Used(flash[t].recs) == Used(old(flash)[t].recs)
      ensures Fits(g, old(flash), t, len) ==> Fits(g, flash, t, len)
      ensures In(flash, l) && At(flash, l).status.PreDelete? && At(flash, l).name == key
    {
      hide Mid, Space, SecCacheOk, Firm, KvCacheOk, Contents, Settled, AfterDel, DelWrites, SamePlaces, Recov, NoGc,
        EmptySet, Fits;
      ghost var fl, idx, slots := flash, index, kvCache;
      ActiveRecord(g, flash, index, None, {}, l);
      KvCacheShape(hash, kvCache, flash, index, {});
      DelPreSteps(g, flash, index, {}, l);
      AfterDelFrame(g, flash, l, false, t, len);
      AfterDelSectors(secCache, flash, l, false, {});
      AfterDelPlaces(hash, flash, index, l, false);
      DelKv(l, false);
      index := index - {key};
      KvCacheFrame(hash, slots, fl, idx, flash, index, {}, {hash(key)});
    }

    /** The second `del_kv` of `set_kv`: the replacement was just cached, so the key table keeps it. */
    method ReplaceFinish(l: Loc)
      requires In(flash, l) && At(flash, l).status.PreDelete? && lastIsCompleteDel
      requires SecCacheOk(secCache, flash, {}) && KvCacheOk(hash, kvCache, flash, index, {})
      modifies `flash, `trace, `kvCache, `lastIsCompleteDel
      ensures flash == AfterDel(old(flash), l, true) && trace == old(trace) + DelWrites(old(flash), l, true)
      ensures SecCacheOk(secCache, flash, {}) && KvCacheOk(hash, kvCache, flash, index, {}) && !lastIsCompleteDel
    {
      hide SecCacheOk, Firm, KvCacheOk, AfterDel, DelWrites, SamePlaces;
      ghost var fl, slots := flash, kvCache;
      KvCacheShape(hash, kvCache, flash, index, {});
      AfterDelSectors(secCache, flash, l, true, {});
      AfterDelPlaces(hash, flash, index, l, true);
      DelKv(l, true);
      KvCacheFrame(hash, slots, fl, index, flash, index, {}, {});
    }

    /** A record of `len` bytes goes to sector `t` and does not make it full. */
    ghost predicate PlacedDirectly(fl: Flash, t: nat, len: nat) {
      && Chosen(g, fl, false, t, len) && t < |fl|
      && !(fl[t].store.Using? && PlacedStore(g, fl[t], len).Full?)
    }

    /** The second half of `set_kv`, with a place for the record: look for the old one and replace it. */
    method FindAndReplace(info: SecInfo, key: Name, value: Value) returns (e: Error)
      requires Valid() && NoClash(key) && |key| != NAME_MAX
      requires InfoOk(g, flash, info) && Chosen(g, flash, false, info.sec, g.KvLen(key, value))
      requires g.KvLen(key, value) <= g.payload - g.Threshold()
      requires torn ==> EndsFirm(g, Finished(g, key, value))
      modifies `flash, `trace, `secCache, `kvCache, `index, `gcRequest, `lastIsCompleteDel
      ensures e == if |key| > NAME_MAX then KvNameErr else NoErr
      ensures !e.NoErr? ==> Valid() && Map() == old(Map()) && flash == old(flash) && trace == old(trace)
      ensures e.NoErr? ==> Pending() && Contents(flash, index) == old(Map())[key := value]
      ensures e.NoErr? ==>
        && flash == AfterUpdate(g, old(flash), OldOf(old(index), key), info.sec, key, value)
        && index == old(index)[key := Loc(info.sec, |old(flash)[info.sec].recs|)]
      ensures e.NoErr? ==>
        (gcRequest <==> info.store.Using? && PlacedStore(g, old(flash)[info.sec], g.KvLen(key, value)).Full?)
      ensures e.NoErr? ==> old(trace) <= trace && Logged(old(trace), trace, old(Map()), old(Map())[key := value])
      ensures e.NoErr? && NoGc(old(flash)) ==>
        NoGc(flash) && CrashLogged(g, old(trace), trace, old(Map()), old(Map())[key := value])
      ensures |flash| == |old(flash)| && (Tidy(g, old(flash)) ==> Tidy(g, flash))
    {
      hide Mid, Space, SecCacheOk, Firm, KvCacheOk, Logged, Contents, Settled, NoGc, EmptySet, Geometry.KvLen, Chosen,
        Untouched, AllInterrupted, UpdateWrites, CrashLogged, AfterUpdate, PlacedStore, Tidy;
      ghost var m, m1 := Map(), Map()[key := value];
      LoggedRefl(trace, m, m1);
      IndexedShort(flash, index, key);
      var found := FindKv(key);
      ghost var log, fl, idx, t := trace, flash, index, info.sec;
      if key in idx {
        FoundRecord(fl, idx, key);
      }
      e := Replace(info, key, value, found);
      if e.NoErr? {
        ghost var w := UpdateWrites(g, fl, found, t, key, value);
        LoggedAdd(log, log, w, m, m1);
        AfterUpdateSize(g, fl, found, t, key, value);
        if NoGc(fl) {
          UpdateCrashes(g, log, w, m, m1);
        }
        if Tidy(g, fl) {
          TidyUpdate(g, fl, found, t, key, value);
        }
      }
    }

    /**
     `set_kv`: make space, replace the record, collect if a sector became full. The stored map
     changes at `key` only, or not at all when an error is returned; a power loss at any flash
     write, collections included, leaves the old or the new map on flash.
     */
    method SetKv(key: Name, value: Value) returns (e: Error)
      requires Valid() && NoClash(key) && |key| != NAME_MAX
      requires g.KvLen(key, value) <= g.payload - g.Threshold() || g.KvLen(key, value) >= g.payload
      requires torn ==> EndsFirm(g, Finished(g, key, value))
      modifies `flash, `trace, `secCache, `kvCache, `index, `gcRequest, `lastIsCompleteDel
      ensures Valid()
      ensures Map() == if e.NoErr? then old(Map())[key := value] else old(Map())
      ensures e.NoErr? || e.KvNameErr? || e.SavedFull?
      ensures e.KvNameErr? ==> |key| > NAME_MAX
      ensures e.NoErr? ==> |key| < NAME_MAX && g.KvLen(key, value) < g.payload
      // a refusal is honest: nothing is left to collect, one empty sector is reserved, no sector has room
      ensures e.SavedFull? && g.KvLen(key, value) < g.payload ==>
        && |EmptySet(flash)| == 1 && NoUsingFits(g, flash, false, g.KvLen(key, value))
        && forall s: nat :: s < |flash| ==> flash[s].dirty.Clean?
      ensures Logged(old(trace), trace, old(Map()), Map())
      // a power loss at any write leaves a flash that the next boot is proved for
      ensures NoGc(old(flash)) ==> NoGc(flash) && CrashLogged(g, old(trace), trace, old(Map()), Map())
      // with a place that stays in use nothing but the update happens; without one the dirty
      // sectors are collected first
      ensures forall t: nat :: |key| < NAME_MAX && PlacedDirectly(old(flash), t, g.KvLen(key, value)) ==>
        && flash == AfterUpdate(g, old(flash), OldOf(old(index), key), t, key, value)
        && index == old(index)[key := Loc(t, |old(flash)[t].recs|)]
      ensures NoUsingFits(g, old(flash), false, g.KvLen(key, value)) && |EmptySet(old(flash))| == 1 ==>
        old(trace) + AllGcWrites(g, old(flash), 0) <= trace
      // in a run without power loss live records fill the flash when one is refused
      ensures |flash| == |old(flash)| && (Tidy(g, old(flash)) ==> Tidy(g, flash))
      ensures Tidy(g, flash) && e.SavedFull? && g.KvLen(key, value) < g.payload ==>
        MapBytes(g, Map()) >= (|flash| - 1) * (g.payload - Max(g.KvLen(key, value), g.Threshold()))
    {
      hide Mid, Space, SecCacheOk, Firm, KvCacheOk, Logged, Contents, Settled, NoGc, EmptySet, Geometry.KvLen, Chosen,
        Untouched, AllInterrupted, NoUsingFits, UpdateWrites, CrashLogged, AllGcWrites, AfterUpdate, PlacedStore, Tidy,
        MapBytes, Max;
      ghost var m, m1 := Map(), Map()[key := value];
      var len := g.KvLen(key, value);
      ContentsKeys(flash, index);
      var info := NewKv(len);
      LoggedWeaken(old(trace), trace, m, m1);
      CrashWeaken(g, old(trace), trace, m, m1);
      if info.None? {
        if Tidy(g, flash) && len < g.payload {
          RefusedBytes(g, flash, index, len);
        }
        return SavedFull;
      }
      ChosenSmall(g, flash, info.value.sec, len);
      ghost var log := trace;
      e := FindAndReplace(info.value, key, value);
      if e.NoErr? {
        LoggedTrans(old(trace), log, trace, m, m1);
        if NoGc(old(flash)) {
          CrashTrans(g, old(trace), log, trace, m, m1);
        }
      }
      if gcRequest {
        ghost var log3 := trace;
        Collect();
        LoggedWeaken(log3, trace, m1, m);
        LoggedTrans(old(trace), log3, trace, m, m1);
        CrashWeaken(g, log3, trace, m1, m);
        if NoGc(old(flash)) {
          CrashTrans(g, old(trace), log3, trace, m, m1);
        }
      }
    }

    // ---------- Recovery at boot ----------

    /** The state while the boot scan runs; sector `f` has room for the record to be recovered. */
    ghost predicate Booting(pd: Option<Loc>, pw: set<Loc>, f: nat)
      reads this
    {
      && Inv(pd, pw) && KvCacheOk(hash, kvCache, flash, index, {})
      && EmptySet(flash) != {} && (pw == {} || Settled(flash))
      && !gcRequest && !lastIsCompleteDel && inRecovery
      && (pd.Some? ==> CanTake(g, flash, f, At(flash, pd.value).len))
    }

    /** `check_and_recovery_kv_cb`: finish an interrupted replacement, reject an unfinished record, cache a live one. */
    method BootRecord(l: Loc, ghost pd: Option<Loc>, ghost pw: set<Loc>, ghost f: nat)
      returns (stop: bool, ghost pd': Option<Loc>, ghost pw': set<Loc>)
      requires Booting(pd, pw, f) && In(flash, l) && !IsStub(At(flash, l))
      modifies `flash, `trace, `secCache, `kvCache, `index, `gcRequest, `lastIsCompleteDel
      ensures Booting(pd', pw', f) && Saved(pd', pw') == old(Saved(pd, pw)) && Grows(old(flash), flash)
      ensures stop <==> l in pw
      ensures pd.None? && pw == {} ==> flash == old(flash)
      ensures pd' == pd ==> index == old(index)
      ensures pw' == pw - {l} && pd' == if pd == Some(l) then None else pd
      ensures pd' == pd ==> EmptySet(flash) == EmptySet(old(flash))
      ensures pd' == pd ==> forall j: nat :: j < |flash| ==> |flash[j].recs| == |old(flash)[j].recs|
      ensures Logged(old(trace), trace, Saved(pd', pw'), Saved(pd', pw'))
    {
      hide Mid, Space, SecCacheOk, Firm, KvCacheOk, Logged, Contents, Recov, Settled, Touched, Grows, EmptySet, NoGc,
        CanTake, EmptyFits, UsingFits;
      ghost var m, fl, log := Saved(pd, pw), flash, trace;
      LoggedRefl(trace, m, m);
      GrowsRefl(flash);
      ScanCases(flash, index, pd, pw, l);
      var kv := At(flash, l);
      stop, pd', pw' := false, pd, pw;
      if kv.stage.Complete? && kv.status.PreDelete? {
        var e;
        ghost var t, mid;
        e, t, mid := MoveKv(l, pd, pw);
        if e.SavedFull? {
          TouchedKeeps(g, fl, flash, old(index), pd, pw);
          CanTakeTouched(g, fl, flash, f, kv.len);
        }
        pd' := None;
        if pw != {} {
          GrowsSettled(fl, flash);
        }
      } else if kv.status.PreWrite? {
        ghost var len := if pd.Some? then At(flash, pd.value).len else 0;
        RejectSteps(g, hash, kvCache, secCache, flash, index, pd, pw, l, f, len);
        RejectGrows(flash, l);
        FirmStatus(g, single, flash, torn, l, ErrHdr);
        Commit(SetStatus(flash, l, ErrHdr));
        stop, pw' := true, pw - {l};
        assert Recoverable(flash, m);
        LoggedAdd(log, log, [flash], m, m);
      } else if kv.stage.Complete? && kv.status.Written? {
        KvCacheShape(hash, kvCache, flash, index, {});
        KvCacheWeaken(hash, kvCache, flash, index, {hash(kv.name)});
        ghost var before := kvCache;
        kvCache := StoreKv(kvCache, hash(kv.name), l);
        StoreKvOk(hash, before, kvCache, flash, index, kv.name, l);
      }
    }

    /** One position of the boot scan; a lone status byte behind other records is not seen by it. */
    method BootStep(s: nat, i: nat, ghost pd0: Option<Loc>, ghost pd: Option<Loc>, ghost pw: set<Loc>, ghost f: nat)
      returns (stop: bool, ghost pd': Option<Loc>, ghost pw': set<Loc>)
      requires Booting(pd, pw, f) && s < |flash| && i < |flash[s].recs| && !Unsettled(flash[s])
      requires Progress(s, i, pd0, pw, pd)
      modifies `flash, `trace, `secCache, `kvCache, `index, `gcRequest, `lastIsCompleteDel
      ensures Booting(pd', pw', f) && Saved(pd', pw') == old(Saved(pd, pw)) && Grows(old(flash), flash)
      ensures s < |flash| == |old(flash)| && i < |flash[s].recs| && !Unsettled(flash[s])
      ensures pd' == pd ==> |flash[s].recs| == |old(flash)[s].recs| && EmptySet(flash) == EmptySet(old(flash))
      ensures pd' == pd || pd'.None?
      ensures pd.None? && pw == {} ==> flash == old(flash)
      ensures pd' == pd ==> index == old(index)
      ensures if stop then StoppedAt(Loc(s, i), pd0, pw, pd', pw') else pw' == pw && Progress(s, i + 1, pd0, pw, pd')
      ensures Logged(old(trace), trace, Saved(pd', pw'), Saved(pd', pw'))
    {
      hide Mid, Space, SecCacheOk, Firm, KvCacheOk, Logged, Contents, Recov, Settled, Touched, Grows, EmptySet, NoGc,
        CanTake, Unsettled, StoppedAt, Progress;
      var l := Loc(s, i);
      ghost var fl := flash;
      ScanCases(flash, index, pd, pw, l);
      GrowsRefl(flash);
      LoggedRefl(trace, Saved(pd, pw), Saved(pd, pw));
      if IsStub(flash[s].recs[i]) {
        stop, pd', pw' := false, pd, pw;
        StepOn(s, i, pd0, pw, pd);
        return;
      }
      stop, pd', pw' := BootRecord(l, pd, pw, f);
      GrowsAt(fl, flash, s);
      if stop {
        StopHere(s, i, pd0, pw, pd);
      } else {
        StepOn(s, i, pd0, pw, pd);
      }
    }

    /** One record of the boot scan and the search for the next. */
    method BootNext(s: nat, i: nat, ghost pd0: Option<Loc>, ghost pd: Option<Loc>, ghost pw: set<Loc>, ghost f: nat)
      returns (stop: bool, j: nat, ghost pd': Option<Loc>, ghost pw': set<Loc>)
      requires Booting(pd, pw, f) && s < |flash| && i < |flash[s].recs| && !Unsettled(flash[s])
      requires Progress(s, i, pd0, pw, pd)
      modifies `flash, `trace, `secCache, `kvCache, `index, `gcRequest, `lastIsCompleteDel
      ensures Booting(pd', pw', f) && Saved(pd', pw') == old(Saved(pd, pw)) && Grows(old(flash), flash)
      ensures s < |flash| == |old(flash)| && i < j <= |flash[s].recs| && !Unsettled(flash[s])
      ensures pd' == pd ==> |flash[s].recs| == |old(flash)[s].recs| && EmptySet(flash) == EmptySet(old(flash))
      ensures pd' == pd || pd'.None?
      ensures pd.None? && pw == {} ==> flash == old(flash)
      ensures pd' == pd ==> index == old(index)
      ensures if stop then StoppedAt(Loc(s, i), pd0, pw, pd', pw') else pw' == pw && Progress(s, j, pd0, pw, pd')
      ensures Logged(old(trace), trace, Saved(pd', pw'), Saved(pd', pw'))
    {
      hide Mid, Space, SecCacheOk, Firm, KvCacheOk, Logged, Contents, Recov, Settled, Touched, Grows, EmptySet, NoGc,
        CanTake, Unsettled, StoppedAt, Progress;
      stop, pd', pw' := BootStep(s, i, pd0, pd, pw, f);
      j := |flash[s].recs|;
      if !stop {
        FirmAt(g, single, flash, torn, Loc(s, i));
        var next := NextKv(s, i);
        j := if next.Some? then next.value else |flash[s].recs|;
        StepOver(flash, index, s, i + 1, j, pd0, pw, pd');
      }
    }

    /** The boot scan of one sector; `at` is where an unfinished record stopped it. */
    method BootSector(s: nat, ghost pd0: Option<Loc>, ghost pd: Option<Loc>, ghost pw: set<Loc>, ghost f: nat)
      returns (at: Option<Loc>, ghost pd': Option<Loc>, ghost pw': set<Loc>)
      requires Booting(pd, pw, f) && s < |flash| && (flash[s].store.Using? || flash[s].store.Full?)
      requires Progress(s, 0, pd0, pw, pd)
      modifies `flash, `trace, `secCache, `kvCache, `index, `gcRequest, `lastIsCompleteDel
      ensures Booting(pd', pw', f) && Saved(pd', pw') == old(Saved(pd, pw)) && Grows(old(flash), flash)
      ensures s < |flash| == |old(flash)| && !Unsettled(flash[s])
      ensures if at.Some? then StoppedAt(at.value, pd0, pw, pd', pw') else pw' == pw && Progress(s + 1, 0, pd0, pw, pd')
      ensures pd.None? && pw == {} && Settled(old(flash)) ==> flash == old(flash)
      ensures pd' == pd ==> index == old(index)
      ensures pd' == None || (pd' == pd && EmptySet(flash) == EmptySet(old(flash)))
      ensures Logged(old(trace), trace, Saved(pd', pw'), Saved(pd', pw'))
    {
      hide Mid, Space, SecCacheOk, Firm, KvCacheOk, Logged, Contents, Recov, Settled, Touched, Grows, EmptySet, NoGc,
        CanTake, Unsettled, Settle, StoppedAt, Progress;
      ghost var m, fl, log := Saved(pd, pw), flash, trace;
      Touch(s, pd, pw);
      TouchedKeeps(g, fl, flash, index, pd, pw);
      BootTouched(g, hash, kvCache, fl, flash, index, pd, pw, f);
      GrowsTouched(g, fl, flash);
      SectorHasRecords(g, flash, s);
      pd', pw' := pd, pw;
      var i, more := 0, true;
      while more
        invariant s < |flash| == |fl| && 0 <= i && (more <==> i < |flash[s].recs|)
        invariant Booting(pd', pw', f) && Saved(pd', pw') == m && Grows(fl, flash) && !Unsettled(flash[s])
        invariant pw' == pw && Progress(s, i, pd0, pw, pd')
        invariant pd.None? && pw == {} && Settled(fl) ==> flash == fl
        invariant pd' == pd ==> index == old(index)
        invariant pd' == None || (pd' == pd && EmptySet(flash) == EmptySet(fl))
        invariant Logged(log, trace, m, m)
        decreases if pd'.Some? then 1 else 0, |flash[s].recs| - i
      {
        ghost var fl1, log1 := flash, trace;
        var stop, j;
        stop, j, pd', pw' := BootNext(s, i, pd0, pd', pw', f);
        GrowsTrans(fl, fl1, flash);
        LoggedTrans(log, log1, trace, m, m);
        if stop {
          return Some(Loc(s, i)), pd', pw';
        }
        i := j;
        more := i < |flash[s].recs|;
      }
      NextSector(flash, index, s, i, pd0, pw, pd');
      at := None;
    }

    /**
     The scan of all records in `_fdb_kv_load`, given room for the record to be recovered: without
     unfinished record it restores the state between operations, otherwise it rejects the first
     of them and stops there.
     */
    method ScanRecords(ghost pd: Option<Loc>, ghost pw: set<Loc>, ghost f: nat)
      returns (at: Option<Loc>, ghost pd': Option<Loc>, ghost pw': set<Loc>)
      requires Inv(pd, pw) && KvCacheOk(hash, kvCache, flash, index, {})
      requires EmptySet(flash) != {} && (pw == {} || Settled(flash)) && !gcRequest && !lastIsCompleteDel && inRecovery
      requires pd.Some? ==> CanTake(g, flash, f, At(flash, pd.value).len)
      modifies `flash, `trace, `secCache, `kvCache, `index, `gcRequest, `lastIsCompleteDel
      ensures Inv(pd', pw') && KvCacheOk(hash, kvCache, flash, index, {}) && Saved(pd', pw') == old(Saved(pd, pw))
      ensures (old(NoGc(flash)) <==> NoGc(flash)) && EmptySet(flash) != {} && Settled(flash) && !gcRequest
      ensures !lastIsCompleteDel
      ensures pd.None? && pw == {} && Settled(old(flash)) ==> flash == old(flash)
      ensures pd' == pd ==> index == old(index)
      ensures pd' == None || (pd' == pd && EmptySet(flash) == EmptySet(old(flash)))
      ensures pd'.Some? ==> CanTake(g, flash, f, At(flash, pd'.value).len)
      ensures if at.Some? then StoppedAt(at.value, pd, pw, pd', pw') else pw == {} && pw' == {} && pd' == None
      ensures Logged(old(trace), trace, Saved(pd', pw'), Saved(pd', pw'))
    {
      hide Mid, Space, SecCacheOk, Firm, KvCacheOk, Logged, Contents, Recov, Touched, Grows, EmptySet, NoGc, CanTake,
        Settled, Unsettled, StoppedAt, Progress;
      ghost var m, fl, log := Saved(pd, pw), flash, trace;
      LoggedRefl(trace, m, m);
      GrowsRefl(flash);
      StartScan(pd, pw);
      at, pd', pw' := None, pd, pw;
      var s := 0;
      while s < |flash|
        invariant s <= |flash| == |fl| && Grows(fl, flash)
        invariant Booting(pd', pw', f) && Saved(pd', pw') == m && at.None?
        invariant pw' == pw && Progress(s, 0, pd, pw, pd')
        invariant pd.None? && pw == {} && Settled(fl) ==> flash == fl
        invariant pd' == pd ==> index == old(index)
        invariant pd' == None || (pd' == pd && EmptySet(flash) == EmptySet(fl))
        invariant forall j: nat :: j < s ==> !Unsettled(flash[j])
        invariant Logged(log, trace, m, m)
      {
        SectorHasRecords(g, flash, s);
        if flash[s].store.Using? || flash[s].store.Full? {
          ghost var fl1, log1 := flash, trace;
          at, pd', pw' := BootSector(s, pd, pd', pw', f);
          LoggedTrans(log, log1, trace, m, m);
          GrowsBelow(fl1, flash, s);
          GrowsTrans(fl, fl1, flash);
          if at.Some? {
            StoppedSome(at.value, pd, pw, pd', pw');
            GrowsSettled(fl, flash);
            GrowsNoGc(fl, flash);
            return;
          }
        } else {
          NotUnsettled(flash[s]);
          NextSector(flash, index, s, 0, pd, pw, pd');
        }
        s := s + 1;
      }
      SettledNow(flash);
      EndScan(flash, index, pd, pw, pd');
      GrowsNoGc(fl, flash);
    }

    /** `check_sec_hdr_cb` on every sector: one without a header is formatted. */
    method CheckHeaders(ghost pd: Option<Loc>, ghost pw: set<Loc>) returns (failed: nat)
      requires Mid(flash, index, pd, pw) && Bare(flash) && Cleared(kvCache, secCache)
      modifies `flash, `trace, `secCache
      ensures flash == Headed(old(flash)) && Mid(flash, index, pd, pw) && Saved(pd, pw) == old(Saved(pd, pw))
      ensures Cleared(kvCache, secCache)
      ensures (failed == |flash| ==> forall s: nat :: s < |flash| ==> !old(flash)[s].hdrOk)
      ensures Logged(old(trace), trace, Saved(pd, pw), Saved(pd, pw))
    {
      hide Mid, Recov, Logged;
      ghost var m, fl, log := Saved(pd, pw), flash, trace;
      LoggedRefl(trace, m, m);
      failed := 0;
      for s := 0 to |flash|
        invariant |flash| == |fl| && Mid(flash, index, pd, pw) && Saved(pd, pw) == m
        invariant flash == HeadedTo(fl, s) && Cleared(kvCache, secCache)
        invariant failed <= s && (failed == s ==> forall j: nat :: j < s ==> !fl[j].hdrOk)
        invariant Logged(log, trace, m, m)
      {
        if !flash[s].hdrOk {
          failed := failed + 1;
          FormatBare(s, pd, pw, log);
        }
      }
    }

    /** Formatting a sector without records. */
    method FormatBare(s: nat, ghost pd: Option<Loc>, ghost pw: set<Loc>, ghost log: seq<Flash>)
      requires Mid(flash, index, pd, pw) && s < |flash| && flash[s].recs == [] && Cleared(kvCache, secCache)
      requires Logged(log, trace, Saved(pd, pw), Saved(pd, pw))
      modifies `flash, `trace, `secCache
      ensures flash == old(flash)[s := Sector(true, Empty, Clean, [])]
      ensures Mid(flash, index, pd, pw) && Saved(pd, pw) == old(Saved(pd, pw)) && Cleared(kvCache, secCache)
      ensures Logged(log, trace, Saved(pd, pw), Saved(pd, pw))
    {
      hide Mid, Recov, Logged;
      ghost var m, fl, log1 := Saved(pd, pw), flash, trace;
      FormatSector(s);
      SameRecsMid(fl, Erase(fl, s), index, pd, pw);
      SameRecsMid(fl, flash, index, pd, pw);
      assert Recoverable(Erase(fl, s), m) && Recoverable(flash, m);
      LoggedAdd(log, log1, [Erase(fl, s), flash], m, m);
    }

    /** `fdb_kv_set_default` on a flash without records, with no default values configured. */
    method SetDefault(ghost pd: Option<Loc>, ghost pw: set<Loc>)
      requires Mid(flash, index, pd, pw) && (forall s: nat :: s < |flash| ==> flash[s].recs == [])
      requires Cleared(kvCache, secCache)
      modifies `flash, `trace, `secCache
      ensures |flash| == |old(flash)| && forall s: nat :: s < |flash| ==> flash[s] == Sector(true, Empty, Clean, [])
      ensures Mid(flash, index, pd, pw) && Saved(pd, pw) == old(Saved(pd, pw)) && Cleared(kvCache, secCache)
      ensures Logged(old(trace), trace, Saved(pd, pw), Saved(pd, pw))
    {
      hide Mid, Recov, Logged;
      ghost var m, log := Saved(pd, pw), trace;
      LoggedRefl(trace, m, m);
      for s := 0 to |flash|
        invariant |flash| == |old(flash)| && Mid(flash, index, pd, pw) && Saved(pd, pw) == m
        invariant Cleared(kvCache, secCache)
        invariant forall j: nat :: j < |flash| ==>
          flash[j].recs == [] && (j < s ==> flash[j] == Sector(true, Empty, Clean, []))
        invariant Logged(log, trace, m, m)
      {
        FormatBare(s, pd, pw, log);
      }
    }

    /** The first part of `_fdb_kv_load`: headers are checked, and a flash without any is formatted as a whole. */
    method FormatMissing(ghost pd: Option<Loc>, ghost pw: set<Loc>)
      requires Mid(flash, index, pd, pw) && Bare(flash) && Cleared(kvCache, secCache)
      modifies `flash, `trace, `secCache
      ensures flash == Headed(old(flash)) && Mid(flash, index, pd, pw) && Saved(pd, pw) == old(Saved(pd, pw))
      ensures Cleared(kvCache, secCache)
      ensures Logged(old(trace), trace, Saved(pd, pw), Saved(pd, pw))
    {
      hide Mid, Recov, Logged, Cleared, Bare, Headed;
      ghost var m, log := Saved(pd, pw), trace;
      var failed := CheckHeaders(pd, pw);
      ghost var fl, log1 := flash, trace;
      if failed == |flash| {
        AllBare(old(flash));
        SetDefault(pd, pw);
        assert flash == fl;
        LoggedTrans(log, log1, trace, m, m);
      }
    }

    /** `check_and_recovery_gc_cb` on every sector: an interrupted collection is resumed. */
    method ResumeGc(ghost pd: Option<Loc>, ghost pw: set<Loc>, ghost s0: nat) returns (ghost pd': Option<Loc>)
      requires Inv(pd, pw) && KvCacheOk(hash, kvCache, flash, index, {}) && !gcRequest && !lastIsCompleteDel
      requires inRecovery
      requires NoGc(flash) || Resumable(g, flash, pd, pw, s0)
      modifies `flash, `trace, `secCache, `kvCache, `index, `gcRequest, `lastIsCompleteDel
      ensures Inv(pd', pw) && KvCacheOk(hash, kvCache, flash, index, {}) && !gcRequest && !lastIsCompleteDel
      ensures Saved(pd', pw) == old(Saved(pd, pw))
      ensures if NoGc(old(flash)) || |EmptySet(old(flash))| > 1
        then flash == old(flash) && pd' == pd && index == old(index)
        else pd' == None && Settled(flash) && EmptySet(flash) != {} && NoGc(flash)
      ensures Logged(old(trace), trace, Saved(pd', pw), Saved(pd', pw))
    {
      hide Mid, Space, SecCacheOk, Firm, KvCacheOk, Logged, Recov, Settled, EmptySet, FitsFrom, SettleAll, Unplaced,
        WaitsFirst, KeptApart;
      ghost var m, fl, log := Saved(pd, pw), flash, trace;
      LoggedRefl(trace, m, m);
      pd' := pd;
      ghost var collected := false;
      for s := 0 to |flash|
        invariant |flash| == |fl| && Inv(pd', pw) && KvCacheOk(hash, kvCache, flash, index, {}) && Saved(pd', pw) == m
        invariant !gcRequest && !lastIsCompleteDel && Logged(log, trace, m, m)
        invariant if collected
          then
            && pd' == None && Settled(flash) && EmptySet(flash) != {}
            && forall j: nat :: j < |flash| ==> flash[j].dirty.Clean?
          else flash == fl && pd' == pd && index == old(index)
        invariant collected ==> !NoGc(fl) && |EmptySet(fl)| <= 1
        invariant !collected && |EmptySet(fl)| <= 1 ==> forall j: nat :: j < s ==> !fl[j].dirty.Gc?
      {
        if flash[s].dirty.Gc? {
          ghost var log1 := trace;
          gcRequest := true;
          pd' := GcCollect(pd', pw, s0);
          LoggedTrans(log, log1, trace, m, m);
          collected := |EmptySet(fl)| <= 1;
        }
      }
    }

    /**
     One run of `_fdb_kv_load`: sectors without header are formatted, an interrupted collection
     is resumed, then all records are checked. The map is kept; without unfinished record the run
     restores the state between operations, otherwise it rejects the first of them and stops there.
     */
    method Load(ghost pd: Option<Loc>, ghost pw: set<Loc>, ghost f: nat, ghost s0: nat)
      returns (at: Option<Loc>, ghost pd': Option<Loc>, ghost pw': set<Loc>)
      requires g.Valid() && |flash| > 1 && Bare(flash) && Cleared(kvCache, secCache) && !gcRequest && !lastIsCompleteDel
      requires Mid(flash, index, pd, pw) && Loadable(g, single, torn, Headed(flash), pd, pw, f, s0)
      modifies this
      ensures Inv(pd', pw') && KvCacheOk(hash, kvCache, flash, index, {}) && Saved(pd', pw') == old(Saved(pd, pw))
      ensures EmptySet(flash) != {} && Settled(flash) && !gcRequest && !lastIsCompleteDel && !inRecovery
      ensures pd.None? && pw == {} && Settled(Headed(old(flash))) && NoGc(Headed(old(flash))) ==>
        flash == Headed(old(flash))
      ensures |pw| <= 1 ==> Loadable(g, single, torn, flash, pd', pw', f, s0)
      ensures at.Some? ==> StoppedAt(at.value, StillWaiting(Headed(old(flash)), pd), pw, pd', pw')
      ensures at.Some? && pd'.Some? ==> index == old(index)
      ensures if at.Some? then |pw'| < |pw| else pw == {} && pw' == {} && pd' == None
      ensures Logged(old(trace), trace, Saved(pd', pw'), Saved(pd', pw'))
    {
      hide Mid, Space, SecCacheOk, Firm, KvCacheOk, Logged, Contents, Recov, EmptySet, NoGc, CanTake, StoppedAt,
        Settled, FitsFrom, Unplaced, KeptApart, Cleared, Bare, RoomToResume, Headed;
      inRecovery := true;
      ghost var m, log := Saved(pd, pw), trace;
      FormatMissing(pd, pw);
      ClearedOk(hash, kvCache, secCache, flash, index);
      ghost var fl, log2 := flash, trace;
      ghost var pd1 := ResumeGc(pd, pw, s0);
      LoggedTrans(log, log2, trace, m, m);
      ghost var log3, f1 := trace, f;
      if !NoGc(fl) && |EmptySet(fl)| > 1 {
        f1 := SpareTakes(g, flash, index, pd, pw);
      }
      at, pd', pw' := ScanRecords(pd1, pw, f1);
      LoggedTrans(log, log3, trace, m, m);
      if at.Some? {
        StoppedSome(at.value, pd1, pw, pd', pw');
      }
      if |pw| <= 1 {
        LoadableAgain(g, single, torn, fl, flash, index, pd, pd', f, f1, s0);
      }
      inRecovery := false;
    }
  }
}
