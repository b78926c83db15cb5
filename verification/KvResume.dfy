/**
 Room for a collection, record by record: what the allocator does with the rest of a sector, as
 a function of the flash. A collection that an empty sector serves always finds room; one that a
 power loss interrupted finds it exactly when FitsFrom says so.
 */
module KvResume {
  import opened Options
  import opened KvFlash
  import opened KvSteps
  import opened KvWrites
  import opened KvUpdate
  import opened KvCache
  import opened KvRoom
  import opened KvIndex
  import opened KvGc

  /** `do_gc` moves this record. */
  predicate Active(r: Rec) {
    r.stage.Complete? && (r.status.Written? || r.status.PreDelete?)
  }

  /** `find_kv_no_cache` finds the name. */
  ghost predicate Live(fl: Flash, name: Name) {
    exists l :: In(fl, l) && At(fl, l).status.Written? && At(fl, l).name == name
  }

  /** All sectors as reading leaves them. */
  function SettleAll(g: Geometry, fl: Flash): (r: Flash)
    ensures |r| == |fl| && forall s: nat :: s < |fl| ==> r[s] == Settle(g, fl[s])
  {
    seq(|fl|, s requires 0 <= s < |fl| => Settle(g, fl[s]))
  }

  /** A record found in PRE_DELETE is copied to sector `t` unless its key is live already, then deleted. */
  ghost function MovedAgain(g: Geometry, fl: Flash, l: Loc, t: nat, dup: bool): Flash
    requires In(fl, l) && t < |fl|
  {
    if dup then AfterDel(fl, l, true)
    else AfterDel(AfterCreate(g, fl, t, At(fl, l).name, At(fl, l).value), l, true)
  }

  /** From record `i` of sector `s` on, every record to be moved finds a sector in its turn. */
  ghost predicate FitsFrom(g: Geometry, fl: Flash, s: nat, i: nat, n: nat)
    requires s < |fl|
    decreases n - i
  {
    |fl[s].recs| == n && (i < n ==>
      var r, l := fl[s].recs[i], Loc(s, i);
      if !Active(r) then FitsFrom(g, fl, s, i + 1, n)
      else if r.status.Written? then
        exists t: nat :: t < |fl| && Chosen(g, AfterDel(fl, l, false), true, t, r.len)
          && FitsFrom(g, AfterUpdate(g, fl, Some(l), t, r.name, r.value), s, i + 1, n)
      else
        exists t: nat :: t < |fl| && Chosen(g, fl, true, t, r.len)
          && FitsFrom(g, MovedAgain(g, fl, l, t, Live(fl, r.name)), s, i + 1, n))
  }

  lemma ChosenUnique(g: Geometry, fl: Flash, gc: bool, t: nat, t': nat, size: nat)
    requires Chosen(g, fl, gc, t, size) && Chosen(g, fl, gc, t', size)
    ensures t == t'
  {
  }

  lemma {:induction false} FirstUsing(g: Geometry, fl: Flash, gc: bool, f: nat, size: nat) returns (t: nat)
    requires UsingFits(g, fl, gc, f, size)
    ensures UsingFits(g, fl, gc, t, size) && forall j: nat :: j < t ==> !UsingFits(g, fl, gc, j, size)
    decreases f
  {
    if j: nat :| j < f && UsingFits(g, fl, gc, j, size) {
      t := FirstUsing(g, fl, gc, j, size);
    } else {
      t := f;
    }
  }

  lemma {:induction false} FirstEmpty(g: Geometry, fl: Flash, gc: bool, f: nat, size: nat) returns (t: nat)
    requires EmptyFits(g, fl, gc, f, size)
    ensures EmptyFits(g, fl, gc, t, size) && forall j: nat :: j < t ==> !EmptyFits(g, fl, gc, j, size)
    decreases f
  {
    if j: nat :| j < f && EmptyFits(g, fl, gc, j, size) {
      t := FirstEmpty(g, fl, gc, j, size);
    } else {
      t := f;
    }
  }

  /** Where some sector fits, the allocator chooses one. */
  lemma SomeChosen(g: Geometry, fl: Flash, gc: bool, f: nat, size: nat) returns (t: nat)
    requires UsingFits(g, fl, gc, f, size) || EmptyFits(g, fl, gc, f, size)
    ensures t < |fl| && Chosen(g, fl, gc, t, size)
  {
    if u :| UsingFits(g, fl, gc, u, size) {
      t := FirstUsing(g, fl, gc, u, size);
    } else {
      t := FirstEmpty(g, fl, gc, f, size);
    }
  }

  lemma ChosenNotRefused(g: Geometry, fl: Flash, gc: bool, t: nat, size: nat)
    requires Chosen(g, fl, gc, t, size)
    ensures !(NoUsingFits(g, fl, gc, size) && forall s :: !EmptyFits(g, fl, gc, s, size))
  {
  }

  /** Settled flash is its own settled form, and reads of it change nothing. */
  lemma SettledSame(g: Geometry, a: Flash, b: Flash)
    requires Touched(g, a, b) && Settled(b)
    ensures b == SettleAll(g, a)
  {
    forall s: nat | s < |a|
      ensures b[s] == Settle(g, a[s])
    {
      assert b[s] == a[s] || b[s] == Settle(g, a[s]);
    }
  }

  lemma SettleAllSettled(g: Geometry, fl: Flash)
    requires Settled(fl)
    ensures SettleAll(g, fl) == fl
  {
  }

  // ---------- A collection served by a reserve sector ----------

  /** With the account of the reserve sector every record finds room. */
  lemma {:induction false} ReserveFits(g: Geometry, fl: Flash, idx: Index, pw: set<Loc>, s: nat, src: seq<Rec>, i: nat,
                                       f: nat)
    requires g.Valid() && Space(g, fl) && Mid(fl, idx, None, pw) && Collecting(g, fl, s, src, i, f)
    ensures FitsFrom(g, fl, s, i, |src|)
    decreases |src| - i
  {
    hide Mid, Space, Collecting, Chosen, UsingFits, EmptyFits, Geometry.KvLen, AfterDel, AfterUpdate;
    CollectingShape(g, fl, s, src, i, f);
    if i < |src| {
      var r, l := fl[s].recs[i], Loc(s, i);
      if !Active(r) {
        SkipRecord(g, fl, s, src, i, f);
        ReserveFits(g, fl, idx, pw, s, src, i + 1, f);
      } else {
        ActiveRecord(g, fl, idx, None, pw, l);
        NoneWaiting(fl, idx, pw, l);
        RoomForNext(g, fl, s, src, i, f);
        var t := SomeChosen(g, AfterDel(fl, l, false), true, f, r.len);
        AfterDelFrame(g, fl, l, false, 0, 0);
        MoveRecord(g, fl, s, src, i, f, t, r.name, r.value);
        MoveKeeps(g, fl, idx, pw, l, t);
        AfterUpdateSize(g, fl, Some(l), t, r.name, r.value);
        ReserveFits(g, AfterUpdate(g, fl, Some(l), t, r.name, r.value), idx[r.name := Loc(t, |fl[t].recs|)], pw, s, src,
          i + 1, f);
      }
    }
  }

  lemma CollectingShape(g: Geometry, fl: Flash, s: nat, src: seq<Rec>, i: nat, f: nat)
    requires Collecting(g, fl, s, src, i, f)
    ensures s < |fl| && |fl[s].recs| == |src| && i <= |src| && fl[s].dirty.Gc?
  {
  }

  lemma NoneWaiting(fl: Flash, idx: Index, pw: set<Loc>, l: Loc)
    requires Mid(fl, idx, None, pw) && In(fl, l)
    ensures !At(fl, l).status.PreDelete?
  {
  }

  /** Moving a live record to the sector chosen keeps space and index. */
  lemma MoveKeeps(g: Geometry, fl: Flash, idx: Index, pw: set<Loc>, l: Loc, t: nat)
    requires g.Valid() && Space(g, fl) && Mid(fl, idx, None, pw) && In(fl, l) && At(fl, l).status.Written?
    requires t < |fl| && Chosen(g, AfterDel(fl, l, false), true, t, At(fl, l).len)
    ensures
      var r := At(fl, l);
      var fl' := AfterUpdate(g, fl, Some(l), t, r.name, r.value);
      Space(g, fl') && Mid(fl', idx[r.name := Loc(t, |fl[t].recs|)], None, pw)
  {
    hide Mid, Space, Chosen, Geometry.KvLen, AfterDel, AfterUpdate, Fits;
    var r := At(fl, l);
    ActiveRecord(g, fl, idx, None, pw, l);
    DelPreSteps(g, fl, idx, pw, l);
    ChosenFits(g, AfterDel(fl, l, false), true, t, r.len);
    FitsBack(g, fl, l, t, r.len);
    UpdateSteps(g, fl, idx, pw, t, r.name, r.value);
  }

  lemma FitsBack(g: Geometry, fl: Flash, l: Loc, t: nat, len: nat)
    requires In(fl, l) && !IsStub(At(fl, l)) && t < |fl| && Fits(g, AfterDel(fl, l, false), t, len)
    ensures Fits(g, fl, t, len)
  {
    hide Used;
    AfterDelFrame(g, fl, l, false, t, len);
    var fl' := AfterDel(fl, l, false);
    if t == l.sec {
      assert fl'[t].recs[l.idx] == At(fl', l) && fl[t].recs[l.idx] == At(fl, l);
    } else {
      assert fl'[t].recs == fl[t].recs;
    }
  }

  // ---------- One record after the other ----------

  lemma FitsSkip(g: Geometry, fl: Flash, s: nat, i: nat, n: nat)
    requires s < |fl| && FitsFrom(g, fl, s, i, n) && i < n && !Active(fl[s].recs[i])
    ensures FitsFrom(g, fl, s, i + 1, n)
  {
  }

  /** Lone status bytes, which the loop of `do_gc` does not meet, need no space. */
  lemma {:induction false} FitsSkipStubs(g: Geometry, fl: Flash, s: nat, i: nat, j: nat, n: nat)
    requires s < |fl| && FitsFrom(g, fl, s, i, n) && i <= j <= n && |fl[s].recs| == n
    requires forall k :: i <= k < j ==> IsStub(fl[s].recs[k])
    ensures FitsFrom(g, fl, s, j, n)
    decreases j - i
  {
    hide FitsFrom;
    if i < j {
      FitsSkip(g, fl, s, i, n);
      FitsSkipStubs(g, fl, s, i + 1, j, n);
    }
  }

  /** A live record: the allocator does not refuse it, and the rest fits behind the sector it chooses. */
  lemma FitsMove(g: Geometry, fl: Flash, s: nat, i: nat, n: nat) returns (t: nat)
    requires s < |fl| && FitsFrom(g, fl, s, i, n) && i < n && |fl[s].recs| == n && Active(fl[s].recs[i])
    requires fl[s].recs[i].status.Written?
    ensures
      var r, l := fl[s].recs[i], Loc(s, i);
      && t < |fl| && Chosen(g, AfterDel(fl, l, false), true, t, r.len)
      && FitsFrom(g, AfterUpdate(g, fl, Some(l), t, r.name, r.value), s, i + 1, n)
  {
    hide Chosen, AfterDel, AfterCreate;
    var r, l := fl[s].recs[i], Loc(s, i);
    forall t: nat | t < |fl|
      ensures |AfterUpdate(g, fl, Some(l), t, r.name, r.value)| == |fl|
    {
      AfterUpdateSize(g, fl, Some(l), t, r.name, r.value);
    }
    t :| t < |fl| && Chosen(g, AfterDel(fl, l, false), true, t, r.len)
      && FitsFrom(g, AfterUpdate(g, fl, Some(l), t, r.name, r.value), s, i + 1, n);
  }

  /** A record waiting in PRE_DELETE. */
  lemma FitsMoveAgain(g: Geometry, fl: Flash, s: nat, i: nat, n: nat) returns (t: nat)
    requires s < |fl| && FitsFrom(g, fl, s, i, n) && i < n && |fl[s].recs| == n && Active(fl[s].recs[i])
    requires fl[s].recs[i].status.PreDelete?
    ensures
      var r, l := fl[s].recs[i], Loc(s, i);
      && t < |fl| && Chosen(g, fl, true, t, r.len)
      && FitsFrom(g, MovedAgain(g, fl, l, t, Live(fl, r.name)), s, i + 1, n)
  {
    hide Chosen, Live;
    var r, l := fl[s].recs[i], Loc(s, i);
    t :| t < |fl| && Chosen(g, fl, true, t, r.len)
      && FitsFrom(g, MovedAgain(g, fl, l, t, Live(fl, r.name)), s, i + 1, n);
  }

  lemma LiveIff(fl: Flash, idx: Index, pd: Option<Loc>, pw: set<Loc>, name: Name)
    requires Mid(fl, idx, pd, pw)
    ensures Live(fl, name) <==> name in idx
  {
    if name in idx {
      assert In(fl, idx[name]) && At(fl, idx[name]).status.Written? && At(fl, idx[name]).name == name;
    }
  }

  /** What a move out of sector `s`, which is marked GC, leaves alone. */
  lemma MovedFrame(g: Geometry, fl: Flash, l: Loc, t: nat, dup: bool)
    requires In(fl, l) && t < |fl| && t != l.sec && fl[l.sec].dirty.Gc? && !IsStub(At(fl, l)) && Settled(fl)
    ensures
      var fl' := MovedAgain(g, fl, l, t, dup);
      && |fl'| == |fl| && Settled(fl') && |fl'[l.sec].recs| == |fl[l.sec].recs|
      && (forall j: nat :: j < |fl| ==> fl'[j].dirty == fl[j].dirty)
      && (forall j: nat :: j < |fl[l.sec].recs| && j != l.idx ==> fl'[l.sec].recs[j] == fl[l.sec].recs[j])
  {
    var a := if dup then fl else AfterCreate(g, fl, t, At(fl, l).name, At(fl, l).value);
    var fl' := MovedAgain(g, fl, l, t, dup);
    assert a[l.sec] == fl[l.sec] && (forall j: nat :: j < |fl| ==> a[j].dirty == fl[j].dirty);
    if !dup {
      assert a[t].recs[|fl[t].recs|] == NewRec(g, Written, Complete, At(fl, l).name, At(fl, l).value);
    }
    assert Settled(a);
    assert fl'[l.sec].recs[l.idx] == At(fl', l);
  }

  // ---------- Where a power loss can leave a collection ----------

  /** Records waiting in PRE_WRITE lie in sectors that are not collected. */
  ghost predicate KeptApart(fl: Flash, pw: set<Loc>) {
    forall l :: l in pw ==> l.sec < |fl| && fl[l.sec].dirty.Clean?
  }

  /** One sector was just taken into use for a record of `len` bytes, as no other sector in use could take it. */
  ghost predicate Unplaced(g: Geometry, fl: Flash, len: nat) {
    && NoUsingFits(g, fl, true, len)
    && exists u: nat ::
      && u < |fl| && Unsettled(fl[u]) && fl[u].dirty.Clean?
      && forall j: nat :: j < |fl| && j != u ==> !Unsettled(fl[j])
  }

  /** In sector `s` the record waiting in PRE_DELETE, if any, is the first to be moved. */
  ghost predicate WaitsFirst(fl: Flash, s: nat, pd: Option<Loc>)
    requires s < |fl|
  {
    pd.Some? ==> pd.value.sec == s && forall j: nat :: j < pd.value.idx && j < |fl[s].recs| ==> !Active(fl[s].recs[j])
  }

  /** The allocator, having found room, has read the unsettled sector too. */
  lemma AllRead(g: Geometry, a: Flash, mid: Flash, t: nat, len: nat)
    requires Touched(g, a, mid) && Chosen(g, mid, true, t, len) && Searched(mid, t)
    requires (Settled(a) || Unplaced(g, a, len))
    ensures Settled(mid)
  {
    assert UsingFits(g, a, true, t, len) || !UsingFits(g, a, true, t, len);
  }

  lemma CollectedSettled(g: Geometry, fl: Flash, s: nat, len: nat)
    requires s < |fl| && fl[s].dirty.Gc? && (Settled(fl) || Unplaced(g, fl, len))
    ensures !Unsettled(fl[s]) && SettleAll(g, fl)[s] == fl[s]
  {
  }

  lemma WaitingAt(fl: Flash, idx: Index, pd: Option<Loc>, pw: set<Loc>)
    requires Mid(fl, idx, pd, pw)
    ensures pd.Some? ==> In(fl, pd.value) && At(fl, pd.value).status.PreDelete? && Active(At(fl, pd.value))
  {
  }

  lemma GcInUse(g: Geometry, fl: Flash, s: nat)
    requires g.Valid() && Space(g, fl) && s < |fl| && fl[s].dirty.Gc?
    ensures !fl[s].store.Empty?
  {
    assert SectorOk(g, fl[s]);
  }

  /** A live record is not in front of the one that waits. */
  lemma NotWaiting(fl: Flash, s: nat, i: nat, pd: Option<Loc>)
    requires s < |fl| && i < |fl[s].recs| && WaitsFirst(fl, s, pd) && Active(fl[s].recs[i])
    requires fl[s].recs[i].status.Written?
    requires pd.Some? ==> pd.value.idx >= i && pd.value.idx < |fl[s].recs| && fl[s].recs[pd.value.idx].status.PreDelete?
    ensures pd.None?
  {
  }

  lemma NoKeyHere(fl: Flash, idx: Index, pd: Option<Loc>, pw: set<Loc>, l: Loc)
    requires Mid(fl, idx, pd, pw) && In(fl, l) && At(fl, l).status.PreDelete?
    ensures forall k :: k in idx ==> idx[k] != l
  {
  }

  lemma ChosenNotGc(g: Geometry, fl: Flash, l: Loc, t: nat, size: nat)
    requires In(fl, l) && fl[l.sec].dirty.Gc? && !fl[l.sec].store.Empty?
    requires Chosen(g, AfterDel(fl, l, false), true, t, size)
    ensures t != l.sec
  {
    var fl' := AfterDel(fl, l, false);
    assert fl'[l.sec].dirty.Gc? && fl'[l.sec].store == fl[l.sec].store;
  }

  lemma ChosenClean(g: Geometry, fl: Flash, t: nat, size: nat)
    requires Chosen(g, fl, true, t, size)
    ensures t < |fl| && (fl[t].dirty.Clean? || fl[t].store.Empty?)
  {
  }

  lemma SettleAllTouched(g: Geometry, fl: Flash)
    ensures Touched(g, fl, SettleAll(g, fl))
  {
  }

  lemma TouchedDirty(g: Geometry, a: Flash, b: Flash)
    requires Touched(g, a, b)
    ensures |a| == |b| && forall j: nat :: j < |a| ==> b[j].dirty == a[j].dirty && b[j].store == a[j].store
  {
  }

  lemma StubsNotLive(fl: Flash, idx: Index, pd: Option<Loc>, pw: set<Loc>, s: nat, i: nat, j: nat)
    requires Mid(fl, idx, pd, pw) && s < |fl| && i <= j <= |fl[s].recs|
    requires forall k :: i <= k < j ==> IsStub(fl[s].recs[k])
    requires forall k :: k in idx ==> idx[k].sec != s || idx[k].idx >= i
    requires pd.Some? && pd.value.sec == s ==> pd.value.idx >= i
    ensures forall k :: k in idx ==> idx[k].sec != s || idx[k].idx >= j
    ensures pd.Some? && pd.value.sec == s ==> pd.value.idx >= j
  {
    forall k | k in idx
      ensures idx[k].sec != s || idx[k].idx >= j
    {
      assert At(fl, idx[k]).status.Written?;
    }
  }

  /** The sector `s0` was being collected, sectors before it are done, and the rest of it finds room. */
  ghost predicate RoomToResume(g: Geometry, fl: Flash, pd: Option<Loc>, s0: nat) {
    && s0 < |fl| && fl[s0].dirty.Gc? && (forall j: nat :: j < s0 ==> fl[j].dirty.Clean?)
    && WaitsFirst(fl, s0, pd) && FitsFrom(g, SettleAll(g, fl), s0, 0, |fl[s0].recs|)
  }

  /** What a boot relies on when it finds a sector marked GC. With two empty sectors the collection is put off. */
  ghost predicate Resumable(g: Geometry, fl: Flash, pd: Option<Loc>, pw: set<Loc>, s0: nat) {
    && KeptApart(fl, pw) && (pd.Some? ==> In(fl, pd.value))
    && (Settled(fl) || (pd.Some? && Unplaced(g, fl, At(fl, pd.value).len)))
    && (|EmptySet(fl)| > 1 || (pd.None? && EmptySet(fl) != {}) || RoomToResume(g, fl, pd, s0))
  }

  /** The flash between operations: nothing is being replaced or moved, an empty sector is in reserve. */
  ghost predicate AtRest(g: Geometry, fl: Flash, m: map<Name, Value>)
    requires g.Valid()
  {
    Space(g, fl) && Settled(fl) && EmptySet(fl) != {} && exists idx :: Mid(fl, idx, None, {}) && Contents(fl, idx) == m
  }

  /**
   What the flash looks like after a power loss while sector `s` is collected, `m` being the map
   to bring back: the sectors before `s` are done, and what was being moved out of `s` is next.
   */
  ghost predicate InterruptedGc(g: Geometry, fl: Flash, m: map<Name, Value>, s: nat)
    requires g.Valid()
  {
    && Space(g, fl) && s < |fl| && fl[s].dirty.Gc? && (forall j: nat :: j < s ==> fl[j].dirty.Clean?)
    && exists idx, pd, pw :: Mid(fl, idx, pd, pw) && Recov(fl, idx, pd) == m && |pw| <= 1 && Midway(g, fl, s, pd, pw)
  }

  ghost predicate Midway(g: Geometry, fl: Flash, s: nat, pd: Option<Loc>, pw: set<Loc>)
    requires s < |fl|
  {
    && KeptApart(fl, pw) && WaitsFirst(fl, s, pd) && (pw == {} || Settled(fl))
    && (Settled(fl) || (pd.Some? && In(fl, pd.value) && Unplaced(g, fl, At(fl, pd.value).len)))
  }

  /** The collection of `s` is put off, or the rest of `s` finds room. */
  ghost predicate RoomForGc(g: Geometry, fl: Flash, s: nat)
    requires s < |fl|
  {
    |EmptySet(fl)| > 1 || FitsFrom(g, SettleAll(g, fl), s, 0, |fl[s].recs|)
  }

  lemma ResumableIf(g: Geometry, fl: Flash, idx: Index, pd: Option<Loc>, pw: set<Loc>, s: nat)
    requires g.Valid() && s < |fl| && fl[s].dirty.Gc? && (forall j: nat :: j < s ==> fl[j].dirty.Clean?)
    requires Mid(fl, idx, pd, pw) && Midway(g, fl, s, pd, pw) && RoomForGc(g, fl, s)
    ensures Resumable(g, fl, pd, pw, s) && !NoGc(fl)
  {
    hide KeptApart, Unplaced, FitsFrom, SettleAll, EmptySet;
  }

  /**
   A waiting record that found a place: `t` is the sector chosen on the flash read in full, `t'`
   the one that was taken.
   */
  lemma WaitingPlaced(g: Geometry, fl: Flash, a: Flash, mid: Flash, l: Loc, t: nat, t': nat, dup: bool)
    requires In(fl, l) && a == SettleAll(g, fl) && a[l.sec] == fl[l.sec] && t < |fl|
    requires fl[l.sec].dirty.Gc? && !fl[l.sec].store.Empty? && !IsStub(At(fl, l))
    requires Settled(fl) || Unplaced(g, fl, At(fl, l).len)
    requires Touched(g, fl, mid) && Chosen(g, mid, true, t', At(fl, l).len) && Searched(mid, t')
    requires Chosen(g, a, true, t, At(fl, l).len)
    ensures Settled(mid) && mid == a && t == t' && In(a, l)
    ensures
      var x := MovedAgain(g, a, l, t, dup);
      && |x| == |fl| && Settled(x) && |x[l.sec].recs| == |fl[l.sec].recs|
      && (forall j: nat :: j < |fl| ==> x[j].dirty == fl[j].dirty)
      && (forall j: nat :: j < |fl[l.sec].recs| && j != l.idx ==> x[l.sec].recs[j] == fl[l.sec].recs[j])
  {
    hide Settled, Unplaced, Touched, Chosen, Searched, SettleAll, MovedAgain;
    AllRead(g, fl, mid, t', At(fl, l).len);
    SettledSame(g, fl, mid);
    ChosenUnique(g, a, true, t, t', At(fl, l).len);
    ChosenClean(g, a, t, At(fl, l).len);
    SettleAllTouched(g, fl);
    TouchedDirty(g, fl, a);
    MovedFrame(g, a, l, t, dup);
  }
}
