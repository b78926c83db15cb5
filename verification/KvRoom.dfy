/** Room for a record: which sectors the allocator accepts, and which of them it chooses. */
module KvRoom {
  import opened Options
  import opened KvFlash
  import opened KvSteps
  import opened KvWrites

  lemma AfterCreateSize(g: Geometry, fl: Flash, t: nat, key: Name, value: Value)
    requires t < |fl|
    ensures |AfterCreate(g, fl, t, key, value)| == |fl|
  {
  }

  lemma InsertedSettled(g: Geometry, fl: Flash, t: nat, name: Name, value: Value)
    requires g.Valid() && Space(g, fl) && Fits(g, fl, t, g.KvLen(name, value))
    ensures var sec := AfterCreate(g, fl, t, name, value)[t];
      && (sec.store.Using? || sec.store.Full?) && !Unsettled(sec)
      && sec.store == PlacedStore(g, fl[t], g.KvLen(name, value))
  {
    var sec := AfterCreate(g, fl, t, name, value)[t];
    assert SectorOk(g, fl[t]);
    assert sec.recs[|fl[t].recs|] == NewRec(g, Written, Complete, name, value);
  }

  /** `alloc_kv_cb` accepts sector `s` in use: a dirty sector only while no collection is requested. */
  ghost predicate UsingFits(g: Geometry, fl: Flash, gc: bool, s: nat, size: nat) {
    && s < |fl| && fl[s].store.Using? && !Unsettled(fl[s])
    && Used(fl[s].recs) + size < g.payload
    && (fl[s].dirty.Clean? || (fl[s].dirty.Dirty? && !gc))
  }

  /** Empty sectors are handed out when more than one is left, or during collection. */
  ghost predicate EmptyFits(g: Geometry, fl: Flash, gc: bool, s: nat, size: nat) {
    s < |fl| && fl[s].store.Empty? && size < g.payload && (gc || |EmptySet(fl)| > 1)
  }

  ghost predicate NoUsingFits(g: Geometry, fl: Flash, gc: bool, size: nat) {
    forall s :: !UsingFits(g, fl, gc, s, size)
  }

  /** The allocator's choice: the first fitting sector in use, otherwise the first empty one. */
  ghost predicate Chosen(g: Geometry, fl: Flash, gc: bool, s: nat, size: nat) {
    || (UsingFits(g, fl, gc, s, size) && forall s': nat :: s' < s ==> !UsingFits(g, fl, gc, s', size))
    || (NoUsingFits(g, fl, gc, size) && EmptyFits(g, fl, gc, s, size)
        && forall s': nat :: s' < s ==> !EmptyFits(g, fl, gc, s', size))
  }

  lemma ChosenFits(g: Geometry, fl: Flash, gc: bool, s: nat, size: nat)
    requires g.Valid() && Space(g, fl) && Chosen(g, fl, gc, s, size)
    ensures Fits(g, fl, s, size)
  {
    assert s < |fl| && SectorOk(g, fl[s]);
    assert Used([]) == 0;
  }

  /** Sector `s` was read and does not take the record. */
  ghost predicate Refused(g: Geometry, fl: Flash, gc: bool, s: nat, size: nat) {
    s < |fl| && !UsingFits(g, fl, gc, s, size) && !Unsettled(fl[s])
  }

  /** Sectors up to `n` have been read. */
  ghost predicate SettledTo(fl: Flash, n: nat) {
    forall j: nat :: j <= n && j < |fl| ==> !Unsettled(fl[j])
  }

  /** The allocator has read every sector, or every one up to the sector in use that it chose. */
  ghost predicate Searched(fl: Flash, t: nat) {
    Settled(fl) || (t < |fl| && fl[t].store.Using? && SettledTo(fl, t))
  }

  lemma AllRefused(g: Geometry, fl: Flash, gc: bool, n: nat, size: nat)
    requires n <= |fl| && forall j: nat :: j < n ==> Refused(g, fl, gc, j, size)
    ensures forall j: nat :: j < n ==> !UsingFits(g, fl, gc, j, size)
    ensures n == |fl| ==> NoUsingFits(g, fl, gc, size) && Settled(fl)
    ensures n < |fl| && !Unsettled(fl[n]) && fl[n].store.Using? ==> Searched(fl, n)
  {
    forall j: nat
      ensures j < n ==> !UsingFits(g, fl, gc, j, size) && !Unsettled(fl[j])
    {
      assert j < n ==> Refused(g, fl, gc, j, size);
    }
    if n < |fl| && !Unsettled(fl[n]) && fl[n].store.Using? {
      assert SettledTo(fl, n);
    }
  }

  lemma NoneInUse(fl: Flash)
    requires forall s: nat :: s < |fl| ==> !fl[s].store.Using?
    ensures Settled(fl)
  {
  }

  lemma NoEmpty(fl: Flash)
    ensures |EmptySet(fl)| == 0 <==> EmptySet(fl) == {}
    ensures EmptySet(fl) == {} ==> forall s: nat :: s < |fl| ==> !fl[s].store.Empty?
  {
    forall s: nat | s < |fl| && fl[s].store.Empty?
      ensures s in EmptySet(fl)
    {
    }
  }

  lemma RefusedTouched(g: Geometry, a: Flash, b: Flash, gc: bool, s: nat, size: nat)
    requires Touched(g, a, b) && Refused(g, a, gc, s, size)
    ensures Refused(g, b, gc, s, size)
  {
  }

  lemma TouchedStore(g: Geometry, a: Flash, b: Flash, s: nat)
    requires Touched(g, a, b) && s < |a|
    ensures |a| == |b| && b[s].store == a[s].store && b[s].dirty == a[s].dirty
  {
  }

  ghost function EmptyBelow(fl: Flash, n: nat): set<nat>
    requires n <= |fl|
  {
    set s: nat | s < n && fl[s].store.Empty?
  }

  lemma EmptyBelowStep(fl: Flash, n: nat)
    requires n < |fl|
    ensures EmptyBelow(fl, n + 1) == if fl[n].store.Empty? then EmptyBelow(fl, n) + {n} else EmptyBelow(fl, n)
  {
  }

  /** Outside collection the allocator never takes the last empty sector. */
  lemma ChosenLeavesEmpty(g: Geometry, fl: Flash, s: nat, size: nat)
    requires Chosen(g, fl, false, s, size) && EmptySet(fl) != {}
    ensures EmptySet(fl) - {s} != {}
  {
    if s in EmptySet(fl) {
      assert EmptySet(fl) == (EmptySet(fl) - {s}) + {s};
    }
  }

  lemma TouchedFits(g: Geometry, a: Flash, b: Flash, t: nat, len: nat)
    requires Touched(g, a, b) && Fits(g, a, t, len)
    ensures Fits(g, b, t, len) && b[t] == a[t]
  {
  }

  lemma CreatedEmpty(g: Geometry, fl: Flash, t: nat, key: Name, value: Value)
    requires Fits(g, fl, t, g.KvLen(key, value))
    ensures EmptySet(AfterCreate(g, fl, t, key, value)) == EmptySet(fl) - {t}
  {
    var fl' := AfterCreate(g, fl, t, key, value);
    assert forall s: nat :: s < |fl| && s != t ==> fl'[s] == fl[s];
    assert !fl'[t].store.Empty?;
  }

  /** With several empty sectors the allocator only refuses what no sector can hold. */
  lemma SpareEmptyFits(g: Geometry, fl: Flash, size: nat)
    requires EmptySet(fl) != {}
    ensures |EmptySet(fl)| > 0
    ensures |EmptySet(fl)| > 1 && size < g.payload ==> exists s :: EmptyFits(g, fl, false, s, size)
  {
    var s :| s in EmptySet(fl);
    assert |EmptySet(fl)| > 1 && size < g.payload ==> EmptyFits(g, fl, false, s, size);
  }

  lemma ChosenSmall(g: Geometry, fl: Flash, s: nat, size: nat)
    requires Chosen(g, fl, false, s, size)
    ensures size < g.payload
  {
  }

  lemma FormattedOk(g: Geometry, fl: Flash)
    requires g.Valid() && forall s: nat :: s < |fl| ==> fl[s] == Sector(true, Empty, Clean, [])
    ensures Space(g, fl) && Mid(fl, map[], None, {}) && Settled(fl) && NoGc(fl)
    ensures |fl| > 0 ==> EmptySet(fl) != {}
  {
    assert Used([]) == 0;
    if |fl| > 0 {
      assert 0 in EmptySet(fl);
    }
  }

  /** The last empty sector is not handed out. */
  lemma ChosenUsing(g: Geometry, fl: Flash, s: nat, size: nat)
    requires Chosen(g, fl, false, s, size) && |EmptySet(fl)| <= 1
    ensures !NoUsingFits(g, fl, false, size)
  {
  }
}
