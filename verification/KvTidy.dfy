/**
 What a database that no power loss has touched looks like, and when it may refuse a record: a
 sector with a record that is not live is due for collection, a full sector has little room left,
 and a refusal means that the live records themselves fill the flash.
 */
module KvTidy {
  import opened Options
  import opened KvFlash
  import opened KvSteps
  import opened KvWrites
  import opened KvUpdate
  import opened KvRoom
  import opened KvResume
  import opened KvGcRoom
  import opened KvGcTrace

  /** All records of a clean sector are live, and a full sector has less than the threshold left. */
  ghost predicate TidySector(g: Geometry, sec: Sector) {
    && (sec.dirty.Clean? ==> forall i :: 0 <= i < |sec.recs| ==> sec.recs[i].status.Written?)
    && (sec.store.Full? ==> g.payload < Used(sec.recs) + g.Threshold())
  }

  ghost predicate Tidy(g: Geometry, fl: Flash) {
    forall s: nat :: s < |fl| ==> TidySector(g, fl[s])
  }

  // ---------- Kept by every operation ----------

  lemma TidyFormatted(g: Geometry, fl: Flash)
    requires forall s: nat :: s < |fl| ==> fl[s] == Sector(true, Empty, Clean, [])
    ensures Tidy(g, fl)
  {
  }

  lemma TidyCreate(g: Geometry, fl: Flash, t: nat, name: Name, value: Value)
    requires Tidy(g, fl) && t < |fl|
    ensures Tidy(g, AfterCreate(g, fl, t, name, value))
  {
    hide Used;
    var r := NewRec(g, Written, Complete, name, value);
    UsedAppend(fl[t].recs, r);
    assert AfterCreate(g, fl, t, name, value)[t].recs == fl[t].recs + [r];
  }

  lemma TidyDel(g: Geometry, fl: Flash, l: Loc, complete: bool)
    requires Tidy(g, fl) && In(fl, l)
    ensures Tidy(g, AfterDel(fl, l, complete)) && |AfterDel(fl, l, complete)| == |fl|
  {
    var fl' := AfterDel(fl, l, complete);
    UsedSameLens(fl[l.sec].recs, fl'[l.sec].recs);
    assert forall s: nat :: s < |fl| && s != l.sec ==> fl'[s] == fl[s];
    assert !fl'[l.sec].dirty.Clean? && fl'[l.sec].store == fl[l.sec].store;
  }

  lemma TidyUpdate(g: Geometry, fl: Flash, prev: Option<Loc>, t: nat, key: Name, value: Value)
    requires prev.Some? ==> In(fl, prev.value)
    requires Tidy(g, fl) && t < |fl|
    ensures Tidy(g, AfterUpdate(g, fl, prev, t, key, value))
  {
    hide Tidy, AfterDel, AfterCreate;
    if prev.None? {
      TidyCreate(g, fl, t, key, value);
    } else {
      var l := prev.value;
      TidyDel(g, fl, l, false);
      AfterDelFrame(g, fl, l, false, t, 0);
      TidyCreate(g, AfterDel(fl, l, false), t, key, value);
      CreateFrame(g, AfterDel(fl, l, false), t, key, value, l);
      TidyDel(g, MidUpdate(g, fl, l, t, key, value), l, true);
    }
  }

  lemma TidyMoved(g: Geometry, fl: Flash, l: Loc, t: nat, dup: bool)
    requires Tidy(g, fl) && In(fl, l) && t < |fl|
    ensures Tidy(g, MovedAgain(g, fl, l, t, dup))
  {
    hide Tidy, AfterDel, AfterCreate;
    var r := At(fl, l);
    if dup {
      TidyDel(g, fl, l, true);
    } else {
      TidyCreate(g, fl, t, r.name, r.value);
      CreateFrame(g, fl, t, r.name, r.value, l);
      TidyDel(g, AfterCreate(g, fl, t, r.name, r.value), l, true);
    }
  }

  lemma TidyTurn(g: Geometry, fl: Flash, s: nat, i: nat)
    requires Tidy(g, fl) && s < |fl| && i < |fl[s].recs|
    ensures Tidy(g, Turn(g, fl, s, i))
  {
    hide Tidy, AfterDel, MovedAgain, Chosen, Live;
    var r, l := fl[s].recs[i], Loc(s, i);
    if Active(r) {
      TidyDel(g, fl, l, false);
      AfterDelIn(fl, l);
      var a := if r.status.Written? then AfterDel(fl, l, false) else fl;
      forall t: nat | t < |a|
        ensures Tidy(g, MovedAgain(g, a, l, t, Live(a, r.name)))
      {
        TidyMoved(g, a, l, t, Live(a, r.name));
      }
    }
  }

  lemma {:induction false} TidyCollected(g: Geometry, fl: Flash, s: nat, i: nat, n: nat)
    requires Tidy(g, fl) && s < |fl|
    ensures Tidy(g, Collected(g, fl, s, i, n))
    decreases n - i
  {
    hide Tidy, Turn;
    if i < n && i < |fl[s].recs| {
      TidyTurn(g, fl, s, i);
      if s < |Turn(g, fl, s, i)| {
        TidyCollected(g, Turn(g, fl, s, i), s, i + 1, n);
      }
    }
  }

  lemma TidyGc(g: Geometry, fl: Flash, s: nat)
    requires Tidy(g, fl) && s < |fl|
    ensures Tidy(g, AfterGc(g, fl, s))
  {
    hide Collected;
    if !fl[s].dirty.Clean? {
      var a := GcMarked(fl, s);
      assert forall j: nat :: j < |fl| && j != s ==> a[j] == fl[j];
      TidyCollected(g, a, s, 0, |fl[s].recs|);
    }
  }

  // ---------- Bytes of live records ----------

  /** The bytes that the records of a map take up. */
  ghost function MapBytes(g: Geometry, m: map<Name, Value>): nat
    decreases |m.Keys|
  {
    if m == map[] then 0
    else
      var k :| k in m;
      assert |(m - {k}).Keys| < |m.Keys| by {
        assert (m - {k}).Keys == m.Keys - {k};
      }
      g.KvLen(k, m[k]) + MapBytes(g, m - {k})
  }

  /** Any key may be counted first. */
  lemma {:induction false} MapBytesKey(g: Geometry, m: map<Name, Value>, k: Name)
    requires k in m
    ensures MapBytes(g, m) == g.KvLen(k, m[k]) + MapBytes(g, m - {k})
    decreases |m.Keys|
  {
    hide Geometry.KvLen;
    var x :| x in m && MapBytes(g, m) == g.KvLen(x, m[x]) + MapBytes(g, m - {x});
    if x != k {
      assert (m - {x}).Keys == m.Keys - {x};
      assert (m - {k}).Keys == m.Keys - {k};
      MapBytesKey(g, m - {x}, k);
      MapBytesKey(g, m - {k}, x);
      assert m - {x} - {k} == m - {k} - {x};
    }
  }

  /** The live records in front of record `i` of sector `s`, as a map. */
  ghost function Below(fl: Flash, idx: Index, s: nat, i: nat): map<Name, Value>
    requires forall k :: k in idx ==> In(fl, idx[k])
  {
    map k | k in idx && (idx[k].sec < s || (idx[k].sec == s && idx[k].idx < i)) :: At(fl, idx[k]).value
  }

  lemma BelowNext(g: Geometry, fl: Flash, idx: Index, s: nat, i: nat)
    requires Mid(fl, idx, None, {}) && s < |fl| && i < |fl[s].recs| && fl[s].recs[i].status.Written?
    requires fl[s].recs[i].len == g.KvLen(fl[s].recs[i].name, fl[s].recs[i].value)
    ensures MapBytes(g, Below(fl, idx, s, i + 1)) == MapBytes(g, Below(fl, idx, s, i)) + fl[s].recs[i].len
  {
    var r, l := fl[s].recs[i], Loc(s, i);
    assert In(fl, l) && At(fl, l) == r && idx[r.name] == l;
    var m := Below(fl, idx, s, i + 1);
    assert r.name in m && m[r.name] == r.value;
    assert m - {r.name} == Below(fl, idx, s, i);
    hide Mid, Geometry.KvLen;
    MapBytesKey(g, m, r.name);
  }

  /** All records of a sector are finished live records. */
  ghost predicate AllLive(g: Geometry, sec: Sector) {
    forall i :: 0 <= i < |sec.recs| ==>
      sec.recs[i].status.Written? && sec.recs[i].len == g.KvLen(sec.recs[i].name, sec.recs[i].value)
  }

  lemma {:induction false} BelowSector(g: Geometry, fl: Flash, idx: Index, s: nat, i: nat)
    requires Mid(fl, idx, None, {}) && s < |fl| && AllLive(g, fl[s]) && i <= |fl[s].recs|
    ensures MapBytes(g, Below(fl, idx, s, i)) == MapBytes(g, Below(fl, idx, s, 0)) + Used(fl[s].recs[..i])
  {
    hide Mid, Below, Geometry.KvLen, Used;
    if i > 0 {
      BelowSector(g, fl, idx, s, i - 1);
      BelowNext(g, fl, idx, s, i - 1);
      UsedStep(fl[s].recs, i - 1);
    } else {
      assert Used([]) == 0 by {
        UsedNone();
      }
    }
  }

  lemma UsedNone()
    ensures Used([]) == 0
  {
  }

  lemma BelowWhole(fl: Flash, idx: Index, s: nat)
    requires Mid(fl, idx, None, {}) && s < |fl|
    ensures Below(fl, idx, s, |fl[s].recs|) == Below(fl, idx, s + 1, 0)
  {
    assert forall k :: k in idx ==> In(fl, idx[k]);
  }

  /** The bytes in use in the first `n` sectors. */
  ghost function SumUsed(fl: Flash, n: nat): nat
    requires n <= |fl|
  {
    if n == 0 then 0 else SumUsed(fl, n - 1) + Used(fl[n - 1].recs)
  }

  lemma {:induction false} SumIsBytes(g: Geometry, fl: Flash, idx: Index, n: nat)
    requires Mid(fl, idx, None, {}) && n <= |fl| && forall s: nat :: s < |fl| ==> AllLive(g, fl[s])
    ensures MapBytes(g, Below(fl, idx, n, 0)) == SumUsed(fl, n)
  {
    hide Mid, Below, Geometry.KvLen, Used, AllLive;
    if n > 0 {
      SumIsBytes(g, fl, idx, n - 1);
      BelowSector(g, fl, idx, n - 1, |fl[n - 1].recs|);
      BelowWhole(fl, idx, n - 1);
      assert fl[n - 1].recs[..|fl[n - 1].recs|] == fl[n - 1].recs;
    } else {
      BelowNone(fl, idx);
    }
  }

  lemma BelowNone(fl: Flash, idx: Index)
    requires Mid(fl, idx, None, {})
    ensures Below(fl, idx, 0, 0) == map[]
  {
  }

  lemma BelowAll(fl: Flash, idx: Index)
    requires Mid(fl, idx, None, {})
    ensures Below(fl, idx, |fl|, 0) == Contents(fl, idx)
  {
    assert forall k :: k in idx ==> In(fl, idx[k]);
  }

  // ---------- The refusal ----------

  function Max(a: nat, b: nat): nat {
    if a < b then b else a
  }

  /** Nothing is left to collect, one empty sector is reserved, and no sector in use takes `len` bytes. */
  ghost predicate FullFor(g: Geometry, fl: Flash, len: nat) {
    |EmptySet(fl)| == 1 && NoUsingFits(g, fl, false, len) && forall s: nat :: s < |fl| ==> fl[s].dirty.Clean?
  }

  lemma SectorTaken(g: Geometry, fl: Flash, s: nat, len: nat)
    requires g.Valid() && Space(g, fl) && Settled(fl) && Tidy(g, fl) && FullFor(g, fl, len) && s < |fl|
    requires !fl[s].store.Empty?
    ensures Used(fl[s].recs) + Max(len, g.Threshold()) >= g.payload
  {
    hide Used, EmptySet;
    assert SectorOk(g, fl[s]) && TidySector(g, fl[s]) && !UsingFits(g, fl, false, s, len) && !Unsettled(fl[s]);
  }

  lemma EmptyCount(fl: Flash, n: nat)
    requires n < |fl|
    ensures |EmptyBelow(fl, n + 1)| == |EmptyBelow(fl, n)| + if fl[n].store.Empty? then 1 else 0
  {
    EmptyBelowStep(fl, n);
  }

  lemma OneMore(k: int, b: int)
    ensures (k + 1) * b == k * b + b
  {
  }

  lemma {:induction false} SectorsTaken(g: Geometry, fl: Flash, len: nat, n: nat, room: int)
    requires g.Valid() && Space(g, fl) && Settled(fl) && Tidy(g, fl) && FullFor(g, fl, len) && n <= |fl|
    requires room == g.payload - Max(len, g.Threshold())
    ensures SumUsed(fl, n) >= (n - |EmptyBelow(fl, n)|) * room
  {
    hide Used, FullFor, Tidy, Space, Settled, Geometry.Valid, EmptyBelow, Max;
    if n > 0 {
      SectorsTaken(g, fl, len, n - 1, room);
      EmptyCount(fl, n - 1);
      OneMore(n - 1 - |EmptyBelow(fl, n - 1)|, room);
      if !fl[n - 1].store.Empty? {
        SectorTaken(g, fl, n - 1, len);
      }
    } else {
      NoneBelow(fl);
    }
  }

  lemma NoneBelow(fl: Flash)
    ensures |EmptyBelow(fl, 0)| == 0
  {
  }

  lemma LiveSectors(g: Geometry, fl: Flash)
    requires g.Valid() && Space(g, fl) && Tidy(g, fl) && forall s: nat :: s < |fl| ==> fl[s].dirty.Clean?
    ensures forall s: nat :: s < |fl| ==> AllLive(g, fl[s])
  {
    forall s: nat, i | s < |fl| && 0 <= i < |fl[s].recs|
      ensures fl[s].recs[i].status.Written?
      ensures fl[s].recs[i].len == g.KvLen(fl[s].recs[i].name, fl[s].recs[i].value)
    {
      assert SectorOk(g, fl[s]) && TidySector(g, fl[s]);
      assert RecOk(g, fl[s].recs[i]);
    }
  }

  /**
   A flash that refuses a record of `len` bytes is filled with live records: every sector but the
   reserved one, up to the room that the record or the threshold takes.
   */
  lemma RefusedBytes(g: Geometry, fl: Flash, idx: Index, len: nat)
    requires g.Valid() && Space(g, fl) && Settled(fl) && Mid(fl, idx, None, {}) && Tidy(g, fl) && FullFor(g, fl, len)
    ensures MapBytes(g, Contents(fl, idx)) >= (|fl| - 1) * (g.payload - Max(len, g.Threshold()))
  {
    hide Mid, Contents, Space, Settled, Tidy, Below, Max, Geometry.KvLen, NoUsingFits, AllLive, SumUsed;
    LiveSectors(g, fl);
    SumIsBytes(g, fl, idx, |fl|);
    BelowAll(fl, idx);
    SectorsTaken(g, fl, len, |fl|, g.payload - Max(len, g.Threshold()));
    assert EmptyBelow(fl, |fl|) == EmptySet(fl);
  }
}
