/**
 A collection that a power loss turns into a loss: the torn copy of a record takes the room that
 the record needs, and the boot erases the only good copy.
 */
module KvGcLoss {
  import opened Options
  import opened KvConfig
  import opened KvFlash
  import opened KvWrites
  import opened KvUpdate
  import opened KvCache
  import opened KvCoherence
  import opened KvRoom
  import opened KvLog
  import opened KvIndex
  import opened KvFirm
  import opened KvResume
  import opened KvGcCrash
  import opened KvGcRoom
  import opened KvGcTrace
  import opened KvDb
  import opened KvRun

  /** A two-sector database with a live record and a deleted one. */
  function TwoSectors(dirty: DirtyStatus, r: Rec, d: Rec): Flash {
    [Sector(true, Using, dirty, [r, d]), Sector(true, Empty, Clean, [])]
  }

  /** The flash after the header of the copy was written: `r` waits in sector 0, sector 1 holds the torn copy. */
  function TornMove(g: Geometry, r: Rec, d: Rec): Flash {
    [Sector(true, Using, Gc, [r.(status := PreDelete), d]),
     Sector(true, Using, Clean, [NewRec(g, PreWrite, HeaderDone, r.name, r.value)])]
  }

  /** The records that can stand there together. */
  ghost predicate Pair(g: Geometry, r: Rec, d: Rec) {
    && g.Valid() && RecOk(g, r) && RecOk(g, d) && r.status.Written? && d.status.Deleted? && |r.name| < NAME_MAX
    && r.len + d.len <= g.payload - g.Threshold()
  }

  lemma TwoRecords(r: Rec, d: Rec)
    ensures Used([]) == 0 && Used([r]) == r.len && Used([r, d]) == r.len + d.len
    ensures [r, d][..0] == [] && [r, d][..1] == [r] && [r][..0] == []
  {
    assert [r] == [] + [r] && [r, d] == [r] + [d];
    UsedAppend([], r);
    UsedAppend([r], d);
  }

  lemma TwoSectorsOk(g: Geometry, dirty: DirtyStatus, r: Rec, d: Rec)
    requires Pair(g, r, d) && (dirty.Dirty? || dirty.Gc?)
    ensures var fl := TwoSectors(dirty, r, d); Space(g, fl) && Settled(fl) && EmptySet(fl) == {1}
  {
    hide Geometry.KvLen;
    var fl := TwoSectors(dirty, r, d);
    TwoRecords(r, d);
    assert SectorOk(g, fl[0]) && SectorOk(g, fl[1]);
  }

  /** The torn copy is a write of the collection. */
  lemma TornMoveWritten(g: Geometry, r: Rec, d: Rec)
    requires Pair(g, r, d)
    ensures TornMove(g, r, d) in AllGcWrites(g, TwoSectors(Dirty, r, d), 0)
  {
    var fl := TwoSectors(Dirty, r, d);
    TwoSectorsOk(g, Dirty, r, d);
    var a := GcMarked(fl, 0);
    assert a == TwoSectors(Gc, r, d);
    TornTurn(g, r, d);
    var w := TurnWrites(g, a, 0, 0);
    hide TurnWrites, Turn, Collected, AllGcWrites, AfterGc;
    assert w <= LoopWrites(g, a, 0, 0, 2);
    assert TornMove(g, r, d) in GcWrites(g, fl, 0);
    FirstOfAll(g, fl);
  }

  lemma FirstOfAll(g: Geometry, fl: Flash)
    requires |fl| > 0
    ensures GcWrites(g, fl, 0) <= AllGcWrites(g, fl, 0)
  {
    hide GcWrites, AfterGc;
  }

  lemma TornTurn(g: Geometry, r: Rec, d: Rec)
    requires Pair(g, r, d)
    ensures TornMove(g, r, d) in TurnWrites(g, TwoSectors(Gc, r, d), 0, 0)
  {
    var fl, l := TwoSectors(Gc, r, d), Loc(0, 0);
    MarkedOnly(fl, 0, 0);
    assert fl[0].recs[0 := r.(status := PreDelete)] == [r.(status := PreDelete), d];
    hide AfterDel, TurnWrites, CreateWrites, DelWrites, AfterCreate, Geometry.KvLen;
    var fl1 := AfterDel(fl, l, false);
    assert fl1 == [Sector(true, Using, Gc, [r.(status := PreDelete), d]), Sector(true, Empty, Clean, [])];
    TwoChosen(g, fl1, r.len);
    TurnWritesIs(g, fl, 0, 0, 1);
    TornCopy(g, fl1, r, d);
    assert TornMove(g, r, d) in CreateWrites(g, fl1, 1, r.name, r.value);
  }

  lemma TwoChosen(g: Geometry, fl: Flash, len: nat)
    requires |fl| == 2 && fl[0].store.Using? && fl[0].dirty.Gc? && fl[1].store.Empty? && len < g.payload
    ensures Chosen(g, fl, true, 1, len)
  {
    hide Used;
    assert EmptyFits(g, fl, true, 1, len);
  }

  lemma TornCopy(g: Geometry, fl: Flash, r: Rec, d: Rec)
    requires fl == [Sector(true, Using, Gc, [r.(status := PreDelete), d]), Sector(true, Empty, Clean, [])]
    ensures TornMove(g, r, d) in CreateWrites(g, fl, 1, r.name, r.value)
  {
    hide Geometry.KvLen;
    var a := AfterPlace(g, fl, 1, g.KvLen(r.name, r.value));
    var w, c := ProgramWrites(g, a, 1, r.name, r.value), NewRec(g, PreWrite, HeaderDone, r.name, r.value);
    assert a[1].recs + [c] == [c];
    assert w[1] == AddRec(a, 1, c) && w[1][0] == TornMove(g, r, d)[0] && w[1][1] == TornMove(g, r, d)[1];
    assert w[1] == TornMove(g, r, d);
  }

  /**
   A power loss there is survived exactly by records shorter than half a sector: a longer one
   does not fit behind its own torn copy, and the boot erases the only good copy.
   */
  lemma HalfSector(g: Geometry, r: Rec, d: Rec)
    requires Pair(g, r, d)
    ensures
      var fl, m := TornMove(g, r, d), map[r.name := r.value];
      && InterruptedGc(g, fl, m, 0) && (RoomForGc(g, fl, 0) <==> 2 * r.len < g.payload)
      && (Recoverable(Emptied(g, fl, 0), m) <==> 2 * r.len < g.payload)
  {
    var fl, l := TornMove(g, r, d), Loc(0, 0);
    TornMoveIs(g, r, d);
    assert !Live(fl, r.name);
    hide Mid, Space, Recov, Contents, Settled, FitsFrom, Geometry.KvLen, Recoverable, Emptied, Midway;
    KeepsIff(g, fl, map[], Some(l), {Loc(1, 0)}, 0);
    TornMoveFits(g, r, d);
    SettleAllSettled(g, fl);
    assert EmptySet(fl) == {};
    IntroGc(g, fl, map[], Some(l), {Loc(1, 0)}, 0);
  }

  lemma TornMoveIs(g: Geometry, r: Rec, d: Rec)
    requires Pair(g, r, d)
    ensures
      var fl := TornMove(g, r, d);
      && Space(g, fl) && Settled(fl) && Mid(fl, map[], Some(Loc(0, 0)), {Loc(1, 0)})
      && Recov(fl, map[], Some(Loc(0, 0))) == map[r.name := r.value] && Midway(g, fl, 0, Some(Loc(0, 0)), {Loc(1, 0)})
  {
    var fl := TornMove(g, r, d);
    hide Geometry.KvLen;
    TornSpace(g, r, d);
    assert In(fl, Loc(0, 0)) && In(fl, Loc(1, 0)) && In(fl, Loc(0, 1));
    hide Space;
  }

  lemma TornSpace(g: Geometry, r: Rec, d: Rec)
    requires Pair(g, r, d)
    ensures Space(g, TornMove(g, r, d)) && Settled(TornMove(g, r, d))
  {
    var fl := TornMove(g, r, d);
    hide Geometry.KvLen;
    TwoRecords(fl[0].recs[0], d);
    TwoRecords(fl[1].recs[0], d);
    assert SectorOk(g, fl[0]) && SectorOk(g, fl[1]);
  }

  lemma TornMoveFits(g: Geometry, r: Rec, d: Rec)
    requires Pair(g, r, d)
    ensures FitsFrom(g, TornMove(g, r, d), 0, 0, 2) <==> 2 * r.len < g.payload
  {
    var fl, l := TornMove(g, r, d), Loc(0, 0);
    hide Geometry.KvLen;
    TwoRecords(fl[1].recs[0], d);
    assert fl[1].recs[0].len == r.len;
    assert UsingFits(g, fl, true, 1, r.len) <==> 2 * r.len < g.payload;
    assert !UsingFits(g, fl, true, 0, r.len) && forall t :: !EmptyFits(g, fl, true, t, r.len);
    if 2 * r.len < g.payload {
      assert Chosen(g, fl, true, 1, r.len);
      AgainShape(g, fl, 0, 0, 1, Live(fl, r.name));
      var x := MovedAgain(g, fl, l, 1, Live(fl, r.name));
      assert !Active(x[0].recs[1]);
      assert FitsFrom(g, x, 0, 2, 2);
      assert FitsFrom(g, x, 0, 1, 2);
    } else {
      assert forall t :: !Chosen(g, fl, true, t, r.len);
    }
  }

  // ---------- Reached from a formatted database ----------

  lemma FirstSet(g: Geometry, fl: Flash, key: Name, value: Value)
    requires g.Valid() && |fl| == 2 && (forall s: nat :: s < 2 ==> fl[s] == Sector(true, Empty, Clean, []))
    requires g.KvLen(key, value) < g.payload
    ensures Chosen(g, fl, false, 0, g.KvLen(key, value))
    ensures AfterUpdate(g, fl, None, 0, key, value)
      == [Sector(true, Using, Clean, [NewRec(g, Written, Complete, key, value)]), Sector(true, Empty, Clean, [])]
  {
    hide Geometry.KvLen;
    var r := NewRec(g, Written, Complete, key, value);
    assert EmptySet(fl) == {0, 1};
    assert EmptyFits(g, fl, false, 0, g.KvLen(key, value));
    assert [] + [r] == [r];
  }

  lemma SecondSet(g: Geometry, fl: Flash, r: Rec, key: Name, value: Value)
    requires g.Valid() && fl == [Sector(true, Using, Clean, [r]), Sector(true, Empty, Clean, [])] && !IsStub(r)
    requires r.len + g.KvLen(key, value) <= g.payload - g.Threshold()
    ensures Chosen(g, fl, false, 0, g.KvLen(key, value)) && !PlacedStore(g, fl[0], g.KvLen(key, value)).Full?
    ensures AfterUpdate(g, fl, None, 0, key, value)
      == [Sector(true, Using, Clean, [r, NewRec(g, Written, Complete, key, value)]), Sector(true, Empty, Clean, [])]
  {
    hide Geometry.KvLen;
    var d := NewRec(g, Written, Complete, key, value);
    TwoRecords(r, d);
    assert UsingFits(g, fl, false, 0, g.KvLen(key, value));
    assert [r] + [d] == [r, d];
  }

  lemma ThenDelete(fl: Flash, r: Rec, d: Rec)
    requires fl == [Sector(true, Using, Clean, [r, d]), Sector(true, Empty, Clean, [])]
    ensures AfterDel(fl, Loc(0, 1), true) == TwoSectors(Dirty, r, d.(status := Deleted))
  {
    assert [r, d][1 := d.(status := Deleted)] == [r, d.(status := Deleted)];
  }

  lemma ThirdSet(g: Geometry, r: Rec, d: Rec, len: nat)
    requires r.len + d.len + len >= g.payload
    ensures var fl := TwoSectors(Dirty, r, d); NoUsingFits(g, fl, false, len) && |EmptySet(fl)| == 1
  {
    TwoRecords(r, d);
    assert EmptySet(TwoSectors(Dirty, r, d)) == {1};
  }

  /** Two sets and a deletion on a formatted database of two sectors. */
  method SetSetDel(g: Geometry, hash: Hash, single: Single, fl: Flash, keys: seq<KvSlot>, slots: seq<SecSlot>,
                   first: Op, second: Op, ghost names: set<Name>)
    returns (db: Kvdb)
    requires g.Valid() && |fl| == 2 && Cleared(keys, slots)
    requires forall s: nat :: s < |fl| ==> !fl[s].hdrOk && fl[s].recs == []
    requires first.Set? && second.Set? && first.key != second.key && |first.key| < NAME_MAX && |second.key| < NAME_MAX
    requires Distinct(g, hash, names) && first.key in names && second.key in names
    requires g.KvLen(first.key, first.value) + g.KvLen(second.key, second.value) <= g.payload - g.Threshold()
    ensures fresh(db) && db.Valid() && db.g == g && db.hash == hash && !db.torn && db.Map().Keys <= names
    ensures
      var r := NewRec(g, Written, Complete, first.key, first.value);
      db.flash == TwoSectors(Dirty, r, NewRec(g, Deleted, Complete, second.key, second.value))
  {
    hide Mid, Space, Contents, Settled, Chosen, AfterUpdate, AfterDel, EmptySet, NoUsingFits, Logged, CrashLogged,
      AllGcWrites, Firm, SecCacheOk, KvCacheOk, Geometry.KvLen, NoGc, PlacedStore, Confused, Distinct;
    ghost var r := NewRec(g, Written, Complete, first.key, first.value);
    ghost var d := NewRec(g, Written, Complete, second.key, second.value);
    db := Format(g, hash, single, fl, keys, slots);
    ContentsKeys(db.flash, db.index);
    FirstSet(g, db.flash, first.key, first.value);
    KeysNoClash(db, names, first.key);
    assert db.PlacedDirectly(db.flash, 0, g.KvLen(first.key, first.value));
    var e1 := db.SetKv(first.key, first.value);
    ContentsKeys(db.flash, db.index);
    SecondSet(g, db.flash, r, second.key, second.value);
    KeysNoClash(db, names, second.key);
    assert db.PlacedDirectly(db.flash, 0, g.KvLen(second.key, second.value));
    var e2 := db.SetKv(second.key, second.value);
    ContentsKeys(db.flash, db.index);
    ThenDelete(db.flash, r, d);
    KeysNoClash(db, names, second.key);
    var e3 := db.DelKey(second.key);
  }

  /**
   Two sets, a deletion and a set that collects, on a formatted database of two sectors: the torn
   copy is among the flash contents of the run. If `first` takes half a sector or more, a power
   loss at that write loses it: the collection that the boot resumes erases its only copy.
   */
  method LossReached(g: Geometry, hash: Hash, single: Single, fl: Flash, keys: seq<KvSlot>, slots: seq<SecSlot>,
                     first: Op, second: Op, third: Op)
    returns (db: Kvdb)
    requires g.Valid() && |fl| == 2 && Cleared(keys, slots)
    requires forall s: nat :: s < |fl| ==> !fl[s].hdrOk && fl[s].recs == []
    requires first.Set? && second.Set? && third.Set? && first.key != second.key
    requires |first.key| < NAME_MAX && |second.key| < NAME_MAX && OpOk(g, false, third)
    requires Distinct(g, hash, {first.key, second.key, third.key})
    requires g.KvLen(first.key, first.value) + g.KvLen(second.key, second.value) <= g.payload - g.Threshold()
    requires
      g.KvLen(first.key, first.value) + g.KvLen(second.key, second.value) + g.KvLen(third.key, third.value) >= g.payload
    ensures
      var r := NewRec(g, Written, Complete, first.key, first.value);
      var x := TornMove(g, r, NewRec(g, Deleted, Complete, second.key, second.value));
      && x in db.trace && InterruptedGc(g, x, map[first.key := first.value], 0)
      && (Recoverable(Emptied(g, x, 0), map[first.key := first.value]) <==> 2 * r.len < g.payload)
  {
    hide Mid, Space, Contents, Settled, Chosen, AfterUpdate, EmptySet, NoUsingFits, Logged, CrashLogged, AllGcWrites,
      Firm, SecCacheOk, KvCacheOk, Geometry.KvLen, NoGc, Confused, Distinct, InterruptedGc, Emptied, Recoverable,
      TornMove, TwoSectors;
    ghost var names := {first.key, second.key, third.key};
    ghost var r := NewRec(g, Written, Complete, first.key, first.value);
    ghost var d := NewRec(g, Deleted, Complete, second.key, second.value);
    db := SetSetDel(g, hash, single, fl, keys, slots, first, second, names);
    KeysNoClash(db, names, third.key);
    PairOk(g, r, d);
    ThirdSet(g, r, d, g.KvLen(third.key, third.value));
    TornMoveWritten(g, r, d);
    ghost var log, w := db.trace, AllGcWrites(g, db.flash, 0);
    var e := db.SetKv(third.key, third.value);
    InPrefix(log, w, db.trace, TornMove(g, r, d));
    HalfSector(g, r, d);
  }

  lemma InPrefix(log: seq<Flash>, w: seq<Flash>, all: seq<Flash>, x: Flash)
    requires log + w <= all && x in w
    ensures x in all
  {
    assert x in log + w;
  }

  lemma PairOk(g: Geometry, r: Rec, d: Rec)
    requires g.Valid() && r == NewRec(g, Written, Complete, r.name, r.value)
    requires d == NewRec(g, Deleted, Complete, d.name, d.value)
    requires |r.name| < NAME_MAX && r.len + d.len <= g.payload - g.Threshold()
    ensures Pair(g, r, d)
  {
  }
}
