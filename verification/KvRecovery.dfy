/** Facts behind the boot scan that finishes what a power loss interrupted. */
module KvRecovery {
  import opened Options
  import opened KvFlash
  import opened KvSteps
  import opened KvCache
  import opened KvCoherence
  import opened KvRoom
  import opened KvGrowth

  /** Scan order. */
  predicate Before(a: Loc, b: Loc) {
    a.sec < b.sec || (a.sec == b.sec && a.idx < b.idx)
  }

  /** Sector `f` can take `len` more bytes at boot, once its first record has been read. */
  ghost predicate CanTake(g: Geometry, fl: Flash, f: nat, len: nat) {
    f < |fl| && if fl[f].store.Empty? then len < g.payload && |EmptySet(fl)| > 1
      else
        && fl[f].store.Using? && !fl[f].dirty.Gc? && !fl[f].dirty.DirtyUnused?
        && Used(Settle(g, fl[f]).recs) + len < g.payload
  }

  lemma CanTakeTouched(g: Geometry, a: Flash, b: Flash, f: nat, len: nat)
    requires CanTake(g, a, f, len) && Touched(g, a, b) && EmptySet(a) == EmptySet(b)
    ensures CanTake(g, b, f, len)
    ensures Settled(b) ==> UsingFits(g, b, false, f, len) || EmptyFits(g, b, false, f, len)
  {
    assert Settle(g, Settle(g, a[f])) == Settle(g, a[f]);
  }

  /** Rejecting the unfinished record at `l`. */
  lemma RejectSteps(g: Geometry, hash: Hash, keys: seq<KvSlot>, slots: seq<SecSlot>, fl: Flash, idx: Index,
                    pd: Option<Loc>, pw: set<Loc>, l: Loc, f: nat, len: nat)
    requires g.Valid() && Space(g, fl) && Mid(fl, idx, pd, pw) && l in pw && Settled(fl)
    requires SecCacheOk(slots, fl, {}) && KvCacheOk(hash, keys, fl, idx, {})
    ensures var fl' := SetStatus(fl, l, ErrHdr);
      && |fl'| == |fl| && Space(g, fl') && Mid(fl', idx, pd, pw - {l}) && Recov(fl', idx, pd) == Recov(fl, idx, pd)
      && Settled(fl')
      && SecCacheOk(slots, fl', {}) && KvCacheOk(hash, keys, fl', idx, {})
      && EmptySet(fl') == EmptySet(fl) && (NoGc(fl) ==> NoGc(fl'))
      && (CanTake(g, fl, f, len) ==> CanTake(g, fl', f, len))
      && (pd.Some? ==> In(fl', pd.value) && At(fl', pd.value) == At(fl, pd.value))
  {
    var fl' := SetStatus(fl, l, ErrHdr);
    assert SectorOk(g, fl[l.sec]) && RecOk(g, At(fl, l));
    SetStatusSpace(g, fl, l, ErrHdr);
    RejectUnfinished(fl, idx, pd, pw, l);
    RejectFrame(fl, l);
    hide Mid, Space;
    SecCacheFrame(slots, fl, fl', {}, {});
    RejectPlaces(hash, fl, idx, l);
    KvCacheFrame(hash, keys, fl, idx, fl', idx, {}, {});
  }

  lemma RejectFrame(fl: Flash, l: Loc)
    requires In(fl, l) && !At(fl, l).stage.StatusOnly?
    ensures var fl' := SetStatus(fl, l, ErrHdr);
      && (forall s: nat :: s < |fl| ==> fl'[s].store == fl[s].store && fl'[s].dirty == fl[s].dirty)
      && (forall s: nat :: s < |fl| ==> Used(fl'[s].recs) == Used(fl[s].recs))
      && (forall s: nat :: s < |fl| && !Unsettled(fl[s]) ==> !Unsettled(fl'[s]))
  {
    var fl' := SetStatus(fl, l, ErrHdr);
    forall s: nat | s < |fl|
      ensures Used(fl'[s].recs) == Used(fl[s].recs)
    {
      UsedSameLens(fl[s].recs, fl'[s].recs);
    }
    assert fl'[l.sec].recs[l.idx] == At(fl', l);
  }

  lemma RejectGrows(fl: Flash, l: Loc)
    requires In(fl, l) && !At(fl, l).stage.StatusOnly?
    ensures Grows(fl, SetStatus(fl, l, ErrHdr))
  {
    RejectFrame(fl, l);
  }

  lemma RejectPlaces(hash: Hash, fl: Flash, idx: Index, l: Loc)
    requires In(fl, l)
    ensures SamePlaces(hash, fl, idx, SetStatus(fl, l, ErrHdr), idx, {})
  {
  }

  /** What the record at `l` can be for the boot scan. */
  lemma ScanCases(fl: Flash, idx: Index, pd: Option<Loc>, pw: set<Loc>, l: Loc)
    requires Mid(fl, idx, pd, pw) && In(fl, l)
    ensures At(fl, l).status.PreDelete? <==> pd == Some(l)
    ensures At(fl, l).status.PreWrite? && !At(fl, l).stage.StatusOnly? <==> l in pw
    ensures At(fl, l).status.Written? ==> At(fl, l).name in idx && idx[At(fl, l).name] == l
    ensures pd.Some? ==> In(fl, pd.value) && At(fl, pd.value).stage.Complete?
  {
  }

  /** What the boot scan of sector records relies on. */
  lemma InSectors(fl: Flash, idx: Index, pd: Option<Loc>, pw: set<Loc>)
    requires Mid(fl, idx, pd, pw)
    ensures forall l :: l in pw ==> l.sec < |fl| && l.idx < |fl[l.sec].recs|
    ensures pd.Some? ==> pd.value.sec < |fl| && pd.value.idx < |fl[pd.value.sec].recs|
  {
    assert forall l :: l in pw ==> In(fl, l);
  }

  /**
   The boot scan stopped at the first unfinished record `p`: that record is dealt with, and a
   record waiting in PRE_DELETE is still waiting exactly if it lies behind `p`.
   */
  ghost predicate StoppedAt(p: Loc, pd: Option<Loc>, pw: set<Loc>, pd': Option<Loc>, pw': set<Loc>) {
    && p in pw && (forall q :: q in pw ==> q == p || Before(p, q))
    && pw' == pw - {p}
    && pd' == if pd.Some? && Before(p, pd.value) then pd else None
  }

  lemma GrowsAt(a: Flash, b: Flash, s: nat)
    requires Grows(a, b) && s < |a| && !Unsettled(a[s])
    ensures |b| == |a| && !Unsettled(b[s]) && |a[s].recs| <= |b[s].recs|
  {
  }

  lemma BootTouched(g: Geometry, hash: Hash, keys: seq<KvSlot>, a: Flash, b: Flash, idx: Index, pd: Option<Loc>,
                    pw: set<Loc>, f: nat)
    requires g.Valid() && Space(g, a) && Mid(a, idx, pd, pw) && Touched(g, a, b) && KvCacheOk(hash, keys, a, idx, {})
    requires EmptySet(a) != {} && (pw == {} || Settled(a)) && (pd.Some? ==> CanTake(g, a, f, At(a, pd.value).len))
    ensures KvCacheOk(hash, keys, b, idx, {}) && EmptySet(b) == EmptySet(a) && (pw == {} || Settled(b))
    ensures pd.Some? ==> In(b, pd.value) && CanTake(g, b, f, At(b, pd.value).len)
  {
    TouchedKeeps(g, a, b, idx, pd, pw);
    TouchedPlaces(hash, g, a, b, idx, pd, pw);
    KvCacheFrame(hash, keys, a, idx, b, idx, {}, {});
    if pd.Some? {
      CanTakeTouched(g, a, b, f, At(a, pd.value).len);
    }
  }

  lemma GrowsBelow(a: Flash, b: Flash, s: nat)
    requires Grows(a, b) && s <= |a| && forall j: nat :: j < s ==> !Unsettled(a[j])
    ensures |b| == |a| && forall j: nat :: j < s ==> !Unsettled(b[j])
  {
  }

  lemma NotUnsettled(sec: Sector)
    requires !sec.store.Using?
    ensures !Unsettled(sec)
  {
  }

  /** The scan has reached position (s, i): nothing in `pw` is behind it, and `pd` lies ahead or is done. */
  ghost predicate Progress(s: nat, i: nat, pd0: Option<Loc>, pw: set<Loc>, pd: Option<Loc>) {
    && (forall q :: q in pw ==> q == Loc(s, i) || Before(Loc(s, i), q))
    && pd == if pd0.Some? && Before(pd0.value, Loc(s, i)) then None else pd0
  }

  lemma StopHere(s: nat, i: nat, pd0: Option<Loc>, pw: set<Loc>, pd: Option<Loc>)
    requires Progress(s, i, pd0, pw, pd) && Loc(s, i) in pw && pd != Some(Loc(s, i))
    ensures StoppedAt(Loc(s, i), pd0, pw, pd, pw - {Loc(s, i)})
  {
  }

  lemma StepOn(s: nat, i: nat, pd0: Option<Loc>, pw: set<Loc>, pd: Option<Loc>)
    requires Progress(s, i, pd0, pw, pd) && Loc(s, i) !in pw
    ensures Progress(s, i + 1, pd0, pw, if pd == Some(Loc(s, i)) then None else pd)
  {
  }

  /** Lone status bytes, which the boot scan does not meet, are nothing it has to deal with. */
  lemma {:induction false} StepOver(fl: Flash, idx: Index, s: nat, i: nat, j: nat, pd0: Option<Loc>, pw: set<Loc>,
                                    pd: Option<Loc>)
    requires Mid(fl, idx, pd, pw) && s < |fl| && i <= j <= |fl[s].recs| && Progress(s, i, pd0, pw, pd)
    requires forall k :: i <= k < j ==> IsStub(fl[s].recs[k])
    ensures Progress(s, j, pd0, pw, pd)
    decreases j - i
  {
    hide Mid, Progress;
    if i < j {
      ScanCases(fl, idx, pd, pw, Loc(s, i));
      StepOn(s, i, pd0, pw, pd);
      StepOver(fl, idx, s, i + 1, j, pd0, pw, pd);
    }
  }

  lemma NextSector(fl: Flash, idx: Index, s: nat, i: nat, pd0: Option<Loc>, pw: set<Loc>, pd: Option<Loc>)
    requires Mid(fl, idx, pd, pw) && s < |fl| && i >= |fl[s].recs| && Progress(s, i, pd0, pw, pd)
    ensures Progress(s + 1, 0, pd0, pw, pd)
  {
    InSectors(fl, idx, pd, pw);
  }

  lemma StartScan(pd: Option<Loc>, pw: set<Loc>)
    ensures Progress(0, 0, pd, pw, pd)
  {
  }

  lemma EndScan(fl: Flash, idx: Index, pd0: Option<Loc>, pw: set<Loc>, pd: Option<Loc>)
    requires Mid(fl, idx, pd, pw) && Progress(|fl|, 0, pd0, pw, pd)
    ensures pw == {} && pd == None
  {
    InSectors(fl, idx, pd, pw);
    assert forall q :: q !in pw;
  }

  lemma StoppedSome(p: Loc, pd: Option<Loc>, pw: set<Loc>, pd': Option<Loc>, pw': set<Loc>)
    requires StoppedAt(p, pd, pw, pd', pw')
    ensures pw != {} && |pw'| == |pw| - 1
  {
  }

  // ---------- Sector headers ----------

  /** A sector that lost its header holds no record: it was just erased. */
  ghost predicate Bare(fl: Flash) {
    forall s: nat :: s < |fl| && !fl[s].hdrOk ==> fl[s].recs == []
  }

  /** The first `n` sectors as the header check leaves them. */
  function HeadedTo(fl: Flash, n: nat): (r: Flash)
    ensures |r| == |fl|
  {
    seq(|fl|, s requires 0 <= s < |fl| => if s < n && !fl[s].hdrOk then Sector(true, Empty, Clean, []) else fl[s])
  }

  function Headed(fl: Flash): (r: Flash)
    ensures |r| == |fl|
  {
    HeadedTo(fl, |fl|)
  }

  /** Headers do not matter for what the records say. */
  lemma SameRecsMid(a: Flash, b: Flash, idx: Index, pd: Option<Loc>, pw: set<Loc>)
    requires Mid(a, idx, pd, pw) && |a| == |b| && forall s: nat :: s < |a| ==> a[s].recs == b[s].recs
    ensures Mid(b, idx, pd, pw) && Recov(b, idx, pd) == Recov(a, idx, pd)
  {
    assert SameActive(a, b);
    SameActiveMid(a, b, idx, pd, pw);
  }

  /** With two empty sectors one of them takes the record that waits. */
  lemma SpareTakes(g: Geometry, fl: Flash, idx: Index, pd: Option<Loc>, pw: set<Loc>) returns (f: nat)
    requires g.Valid() && Space(g, fl) && Mid(fl, idx, pd, pw) && |EmptySet(fl)| > 1
    ensures EmptySet(fl) != {} && (pd.Some? ==> CanTake(g, fl, f, At(fl, pd.value).len))
  {
    f :| f in EmptySet(fl);
    if pd.Some? {
      assert SectorOk(g, fl[pd.value.sec]);
      assert RecOk(g, At(fl, pd.value));
    }
  }

  lemma HeadersFine(g: Geometry, fl: Flash)
    requires g.Valid() && Space(g, fl)
    ensures Bare(fl) && Headed(fl) == fl
  {
    assert forall s: nat :: s < |fl| ==> SectorOk(g, fl[s]);
  }
}
