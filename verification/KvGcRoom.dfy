/**
 The room that a resumed collection needs. `do_gc` erases the sector also when a record found no
 place, so a collection keeps the map if and only if FitsFrom holds; a power loss in the middle
 of a copy can use up the room, and for one record per sector it does so from half a sector on.
 */
module KvGcRoom {
  import opened Options
  import opened KvFlash
  import opened KvSteps
  import opened KvWrites
  import opened KvUpdate
  import opened KvCache
  import opened KvRoom
  import opened KvIndex
  import opened KvResume

  // ---------- A sector with enough room ----------

  /** Sector `f` can take everything from record `i` of sector `s` on without becoming full. */
  ghost predicate TakesRest(g: Geometry, fl: Flash, s: nat, i: nat, f: nat) {
    && s < |fl| && f < |fl| && f != s && i <= |fl[s].recs|
    && fl[s].dirty.Gc? && !fl[s].store.Empty?
    && fl[f].dirty.Clean? && !Unsettled(fl[f]) && (fl[f].store.Empty? || fl[f].store.Using?)
    && Used(fl[f].recs) + Used(fl[s].recs) - Used(fl[s].recs[..i]) <= g.payload - g.Threshold()
    && forall j: nat :: j < |fl[s].recs| ==> RecOk(g, fl[s].recs[j])
  }

  /** A caller can check this before a boot: one clean sector has room for the whole rest. */
  lemma {:induction false} TakesRestFits(g: Geometry, fl: Flash, s: nat, i: nat, f: nat)
    requires g.Valid() && TakesRest(g, fl, s, i, f)
    ensures FitsFrom(g, fl, s, i, |fl[s].recs|)
    decreases |fl[s].recs| - i
  {
    hide Used, RecOk, Geometry.KvLen, AfterDel, AfterCreate, Chosen;
    var n := |fl[s].recs|;
    if i < n {
      var r, l := fl[s].recs[i], Loc(s, i);
      UsedStep(fl[s].recs, i);
      UsedMonotone(fl[s].recs, i + 1, n);
      assert fl[s].recs[..n] == fl[s].recs;
      if !Active(r) {
        TakesRestFits(g, fl, s, i + 1, f);
      } else if r.status.Written? {
        var t := RestChosen(g, fl, AfterDel(fl, l, false), s, i, f);
        LenIs(g, r);
        UpdateShape(g, fl, s, i, t);
        RestAfter(g, fl, AfterUpdate(g, fl, Some(l), t, r.name, r.value), s, i, f, t, true);
        TakesRestFits(g, AfterUpdate(g, fl, Some(l), t, r.name, r.value), s, i + 1, f);
      } else {
        var t := RestChosen(g, fl, fl, s, i, f);
        LenIs(g, r);
        AgainShape(g, fl, s, i, t, Live(fl, r.name));
        RestAfter(g, fl, MovedAgain(g, fl, l, t, Live(fl, r.name)), s, i, f, t, !Live(fl, r.name));
        TakesRestFits(g, MovedAgain(g, fl, l, t, Live(fl, r.name)), s, i + 1, f);
      }
    }
  }

  lemma LenIs(g: Geometry, r: Rec)
    requires RecOk(g, r) && Active(r)
    ensures r.len == g.KvLen(r.name, r.value)
  {
  }

  lemma RestChosen(g: Geometry, fl: Flash, a: Flash, s: nat, i: nat, f: nat) returns (t: nat)
    requires g.Valid() && TakesRest(g, fl, s, i, f) && i < |fl[s].recs|
    requires a == fl || a == AfterDel(fl, Loc(s, i), false)
    ensures t < |fl| && t != s && Chosen(g, a, true, t, fl[s].recs[i].len)
    ensures (fl[t].store.Empty? || fl[t].store.Using?) && !Unsettled(fl[t])
  {
    hide Used, RecOk, Chosen;
    var r := fl[s].recs[i];
    UsedStep(fl[s].recs, i);
    UsedMonotone(fl[s].recs, i + 1, |fl[s].recs|);
    assert fl[s].recs[..|fl[s].recs|] == fl[s].recs;
    assert a[f] == fl[f] && a[s].dirty.Gc? && a[s].store == fl[s].store && |a| == |fl|;
    t := SomeChosen(g, a, true, f, r.len);
    ChosenShape(g, a, t, r.len);
    assert t != s ==> a[t] == fl[t];
  }

  lemma ChosenShape(g: Geometry, fl: Flash, t: nat, size: nat)
    requires Chosen(g, fl, true, t, size)
    ensures t < |fl| && (fl[t].store.Empty? || (fl[t].store.Using? && fl[t].dirty.Clean?)) && !Unsettled(fl[t])
  {
  }

  /** Sector `sec` with a copy of `r` at its end. */
  function WithCopy(g: Geometry, sec: Sector, r: Rec): Sector {
    var recs := sec.recs + [NewRec(g, Written, Complete, r.name, r.value)];
    Sector(sec.hdrOk, PlacedStore(g, sec, r.len), sec.dirty, recs)
  }

  /** `x` is `fl` with record `i` of sector `s` deleted and, if `added`, copied to the end of sector `t`. */
  ghost predicate MovedTo(g: Geometry, fl: Flash, x: Flash, s: nat, i: nat, t: nat, added: bool)
    requires s < |fl| && i < |fl[s].recs|
  {
    var r := fl[s].recs[i];
    && |x| == |fl| && t < |fl| && t != s
    && x[s] == fl[s].(recs := fl[s].recs[i := r.(status := Deleted)])
    && x[t] == (if added then WithCopy(g, fl[t], r) else fl[t])
    && forall j: nat :: j < |fl| && j != s && j != t ==> x[j] == fl[j]
  }

  lemma AgainShape(g: Geometry, fl: Flash, s: nat, i: nat, t: nat, dup: bool)
    requires s < |fl| && i < |fl[s].recs| && t < |fl| && t != s && fl[s].dirty.Gc?
    requires fl[s].recs[i].len == g.KvLen(fl[s].recs[i].name, fl[s].recs[i].value)
    ensures MovedTo(g, fl, MovedAgain(g, fl, Loc(s, i), t, dup), s, i, t, !dup)
  {
    var r, l := fl[s].recs[i], Loc(s, i);
    var a := if dup then fl else AfterCreate(g, fl, t, r.name, r.value);
    assert a[s] == fl[s];
    assert MovedAgain(g, fl, l, t, dup) == SetStatus(a, l, Deleted);
  }

  lemma UpdateShape(g: Geometry, fl: Flash, s: nat, i: nat, t: nat)
    requires s < |fl| && i < |fl[s].recs| && t < |fl| && t != s && fl[s].dirty.Gc?
    requires fl[s].recs[i].len == g.KvLen(fl[s].recs[i].name, fl[s].recs[i].value)
    ensures
      var r, l := fl[s].recs[i], Loc(s, i);
      var x := AfterUpdate(g, fl, Some(l), t, r.name, r.value);
      MovedTo(g, fl, x, s, i, t, true) && x == MovedAgain(g, AfterDel(fl, l, false), l, t, false)
  {
    var l := Loc(s, i);
    var a := AfterDel(fl, l, false);
    assert a == SetStatus(fl, l, PreDelete);
    AgainShape(g, a, s, i, t, false);
    assert a[s].recs[i := a[s].recs[i].(status := Deleted)] == fl[s].recs[i := fl[s].recs[i].(status := Deleted)];
  }

  /** The rest is shorter by the record, and `f` fuller by at most the same. */
  lemma RestAfter(g: Geometry, fl: Flash, x: Flash, s: nat, i: nat, f: nat, t: nat, added: bool)
    requires g.Valid() && TakesRest(g, fl, s, i, f) && i < |fl[s].recs| && Active(fl[s].recs[i])
    requires MovedTo(g, fl, x, s, i, t, added)
    requires (fl[t].store.Empty? || fl[t].store.Using?) && !Unsettled(fl[t])
    ensures TakesRest(g, x, s, i + 1, f) && |x[s].recs| == |fl[s].recs|
  {
    var a, b, r := fl[s].recs, x[s].recs, fl[s].recs[i];
    assert RecOk(g, r);
    hide Used, Geometry.KvLen;
    UsedStep(a, i);
    UsedMonotone(a, i + 1, |a|);
    assert a[..|a|] == a;
    UsedSameLens(a, b);
    UsedSameLens(a[..i + 1], b[..i + 1]);
    if t == f && added {
      var c := NewRec(g, Written, Complete, r.name, r.value);
      UsedAppend(fl[f].recs, c);
      assert x[f].recs[|fl[f].recs|] == c;
      assert Used(fl[f].recs) >= 0;
    }
  }

  // ---------- What a collection does when a record finds no place ----------

  ghost predicate Placeable(g: Geometry, fl: Flash, len: nat) {
    exists t: nat :: t < |fl| && Chosen(g, fl, true, t, len)
  }

  /** `move_kv` on record `i` of sector `s` during a boot: without a place the record stays behind in PRE_DELETE. */
  ghost function Turn(g: Geometry, fl: Flash, s: nat, i: nat): Flash
    requires s < |fl| && i < |fl[s].recs|
  {
    var r, l := fl[s].recs[i], Loc(s, i);
    if !Active(r) then fl
    else
      var a := if r.status.Written? then AfterDel(fl, l, false) else fl;
      if Placeable(g, a, r.len) then
        var t: nat :| t < |a| && Chosen(g, a, true, t, r.len);
        MovedAgain(g, a, l, t, Live(a, r.name))
      else a
  }

  /** The loop of `do_gc` from record `i` on. */
  ghost function Collected(g: Geometry, fl: Flash, s: nat, i: nat, n: nat): Flash
    requires s < |fl|
    decreases n - i
  {
    if i >= n || i >= |fl[s].recs| then fl
    else if s < |Turn(g, fl, s, i)| then Collected(g, Turn(g, fl, s, i), s, i + 1, n)
    else fl
  }

  /**
   The flash when the collection of sector `s` is over and the sector erased. The allocator reads
   the sectors it looks at, so the loop is followed on the flash with all sectors read.
   */
  ghost function Emptied(g: Geometry, fl: Flash, s: nat): Flash
    requires s < |fl|
  {
    var a := SettleAll(g, fl);
    var x := Collected(g, a, s, 0, |a[s].recs|);
    if s < |x| then Erase(x, s) else x
  }

  /** No usable copy of `k` is left but one that `do_gc` has left behind in sector `s`. */
  ghost predicate LeftBehind(fl: Flash, s: nat, i: nat, k: Name) {
    forall l :: In(fl, l) && (At(fl, l).status.Written? || At(fl, l).status.PreDelete?) && At(fl, l).name == k ==>
      At(fl, l).status.PreDelete? && l.sec == s && l.idx < i
  }

  /** What every turn does: the collected sector keeps its mark and its lengths. */
  ghost predicate Shape(g: Geometry, fl: Flash, s: nat, n: nat) {
    && s < |fl| && |fl[s].recs| == n && fl[s].dirty.Gc? && !fl[s].store.Empty?
    && forall j: nat :: j < n ==> RecOk(g, fl[s].recs[j])
  }

  /** A turn marks its record, deletes it, or deletes it and adds a copy elsewhere. */
  lemma TurnCases(g: Geometry, fl: Flash, s: nat, i: nat, n: nat) returns (t: nat, added: bool)
    requires Shape(g, fl, s, n) && i < n && Active(fl[s].recs[i])
    ensures var r, x := fl[s].recs[i], Turn(g, fl, s, i);
      || MovedTo(g, fl, x, s, i, t, added)
      || x == fl[s := fl[s].(recs := fl[s].recs[i := r.(status := PreDelete)])]
    ensures Shape(g, Turn(g, fl, s, i), s, n)
  {
    hide RecOk, Chosen, Live, AfterDel, MovedAgain;
    var r, l := fl[s].recs[i], Loc(s, i);
    var a := if r.status.Written? then AfterDel(fl, l, false) else fl;
    MarkedOnly(fl, s, i);
    LenIs(g, r);
    RecStatus(g, r);
    t, added := 0, false;
    if Placeable(g, a, r.len) {
      t :| t < |a| && Chosen(g, a, true, t, r.len) && Turn(g, fl, s, i) == MovedAgain(g, a, l, t, Live(a, r.name));
      ChosenShape(g, a, t, r.len);
      added := !Live(a, r.name);
      AgainShape(g, a, s, i, t, !added);
      assert a[s].recs[i := a[s].recs[i].(status := Deleted)] == fl[s].recs[i := r.(status := Deleted)];
    }
  }

  lemma MarkedOnly(fl: Flash, s: nat, i: nat)
    requires s < |fl| && i < |fl[s].recs| && fl[s].dirty.Gc?
    ensures AfterDel(fl, Loc(s, i), false)
      == fl[s := fl[s].(recs := fl[s].recs[i := fl[s].recs[i].(status := PreDelete)])]
    ensures fl[s].recs[i].status.PreDelete? ==>
      fl[s := fl[s].(recs := fl[s].recs[i := fl[s].recs[i].(status := PreDelete)])] == fl
  {
    var r := fl[s].recs[i];
    if r.status.PreDelete? {
      assert r.(status := PreDelete) == r;
      assert fl[s].recs[i := r] == fl[s].recs;
    }
  }

  lemma RecStatus(g: Geometry, r: Rec)
    requires RecOk(g, r) && Active(r)
    ensures RecOk(g, r.(status := Deleted)) && RecOk(g, r.(status := PreDelete))
  {
  }

  /** Once left behind, a key never comes back. */
  lemma {:induction false} LeftBehindStays(g: Geometry, fl: Flash, s: nat, i: nat, n: nat, k: Name)
    requires Shape(g, fl, s, n) && i <= n && LeftBehind(fl, s, i, k)
    ensures Shape(g, Collected(g, fl, s, i, n), s, n) && LeftBehind(Collected(g, fl, s, i, n), s, n, k)
    decreases n - i
  {
    hide Shape, Turn;
    if i < n {
      ShapeIs(g, fl, s, n);
      TurnLeaves(g, fl, s, i, n, k);
      ShapeIs(g, Turn(g, fl, s, i), s, n);
      LeftBehindStays(g, Turn(g, fl, s, i), s, i + 1, n, k);
    }
  }

  lemma ShapeIs(g: Geometry, fl: Flash, s: nat, n: nat)
    requires Shape(g, fl, s, n)
    ensures s < |fl| && |fl[s].recs| == n
  {
  }

  lemma TurnLeaves(g: Geometry, fl: Flash, s: nat, i: nat, n: nat, k: Name)
    requires Shape(g, fl, s, n) && i < n && LeftBehind(fl, s, i, k)
    ensures Shape(g, Turn(g, fl, s, i), s, n) && LeftBehind(Turn(g, fl, s, i), s, i + 1, k)
  {
    hide RecOk, Turn;
    var r, x := fl[s].recs[i], Turn(g, fl, s, i);
    if Active(r) {
      assert In(fl, Loc(s, i)) && At(fl, Loc(s, i)) == r;
      assert r.name != k;
      var t, added := TurnCases(g, fl, s, i, n);
      forall l | In(x, l) && (At(x, l).status.Written? || At(x, l).status.PreDelete?) && At(x, l).name == k
        ensures At(x, l).status.PreDelete? && l.sec == s && l.idx < i + 1
      {
        assert In(fl, l) && At(fl, l) == At(x, l);
      }
    } else {
      assert x == fl by {
        TurnIdle(g, fl, s, i);
      }
    }
  }

  lemma TurnIdle(g: Geometry, fl: Flash, s: nat, i: nat)
    requires s < |fl| && i < |fl[s].recs| && !Active(fl[s].recs[i])
    ensures Turn(g, fl, s, i) == fl
  {
  }

  // ---------- The map is kept if and only if everything fits ----------

  /** The collection of `s` has reached record `i`; a record waiting in PRE_DELETE is not live elsewhere. */
  ghost predicate Sweep(g: Geometry, fl: Flash, idx: Index, pd: Option<Loc>, pw: set<Loc>, s: nat, i: nat, n: nat) {
    && g.Valid() && Space(g, fl) && Mid(fl, idx, pd, pw) && Shape(g, fl, s, n) && i <= n
    && WaitsFirst(fl, s, pd) && (pd.Some? ==> pd.value.idx >= i && In(fl, pd.value) && At(fl, pd.value).name !in idx)
    && (forall k :: k in idx ==> idx[k].sec != s || idx[k].idx >= i) && (forall l :: l in pw ==> l.sec != s)
  }

  /** Copying a waiting record to the sector chosen keeps the map. */
  lemma AgainKeeps(g: Geometry, fl: Flash, idx: Index, pw: set<Loc>, l: Loc, t: nat)
    requires g.Valid() && Space(g, fl) && Mid(fl, idx, Some(l), pw) && In(fl, l) && At(fl, l).status.PreDelete?
    requires At(fl, l).name !in idx
    requires t < |fl| && Chosen(g, fl, true, t, At(fl, l).len)
    ensures var x, idx' := MovedAgain(g, fl, l, t, false), idx[At(fl, l).name := Loc(t, |fl[t].recs|)];
      Space(g, x) && Mid(x, idx', None, pw) && Contents(x, idx') == Recov(fl, idx, Some(l))
  {
    var name, value := At(fl, l).name, At(fl, l).value;
    hide Mid, Space, Recov, Contents, Chosen, Geometry.KvLen, AfterDel, AfterCreate;
    MovableRecord(g, fl, idx, pw, l);
    ChosenFits(g, fl, true, t, g.KvLen(name, value));
    CreateSteps(g, fl, idx, Some(l), pw, t, name, value);
    CreateFrame(g, fl, t, name, value, l);
    WaitingValue(fl, idx, pw, l);
    DelDoneSteps(g, AfterCreate(g, fl, t, name, value), idx[name := Loc(t, |fl[t].recs|)], pw, l);
  }

  lemma WaitingValue(fl: Flash, idx: Index, pw: set<Loc>, l: Loc)
    requires Mid(fl, idx, Some(l), pw) && In(fl, l) && At(fl, l).name !in idx
    ensures At(fl, l).name in Recov(fl, idx, Some(l))
    ensures Recov(fl, idx, Some(l))[At(fl, l).name := At(fl, l).value] == Recov(fl, idx, Some(l))
  {
  }

  /** The flash that `move_kv` asks the allocator about, with the record waiting in PRE_DELETE. */
  lemma Waiting(g: Geometry, fl: Flash, idx: Index, pd: Option<Loc>, pw: set<Loc>, s: nat, i: nat, n: nat)
    returns (a: Flash, idx1: Index)
    requires Sweep(g, fl, idx, pd, pw, s, i, n) && i < n && Active(fl[s].recs[i])
    ensures var l, r := Loc(s, i), fl[s].recs[i];
      && a == (if r.status.Written? then AfterDel(fl, l, false) else fl) && (r.status.Written? || pd == Some(l))
      && |a| == |fl| && Space(g, a) && Mid(a, idx1, Some(l), pw) && Recov(a, idx1, Some(l)) == Recov(fl, idx, pd)
      && In(a, l) && At(a, l) == r.(status := PreDelete) && r.name !in idx1 && !Live(a, r.name) && Shape(g, a, s, n)
      && (forall k :: k in idx1 ==> idx1[k].sec != s || idx1[k].idx > i)
  {
    var l, r := Loc(s, i), fl[s].recs[i];
    if r.status.Written? {
      a, idx1 := AfterDel(fl, l, false), idx - {r.name};
      WaitingLive(g, fl, idx, pd, pw, s, i, n);
    } else {
      a, idx1 := fl, idx;
      WaitingHere(g, fl, idx, pd, pw, s, i, n);
    }
    hide Mid, Space, Recov, AfterDel, Live, RecOk;
    LiveIff(a, idx1, Some(l), pw, r.name);
  }

  lemma WaitingHere(g: Geometry, fl: Flash, idx: Index, pd: Option<Loc>, pw: set<Loc>, s: nat, i: nat, n: nat)
    requires Sweep(g, fl, idx, pd, pw, s, i, n) && i < n && Active(fl[s].recs[i]) && !fl[s].recs[i].status.Written?
    ensures pd == Some(Loc(s, i)) && In(fl, Loc(s, i)) && fl[s].recs[i].name !in idx
    ensures fl[s].recs[i] == fl[s].recs[i].(status := PreDelete)
    ensures forall k :: k in idx ==> idx[k].sec != s || idx[k].idx > i
  {
    var l, r := Loc(s, i), fl[s].recs[i];
    assert In(fl, l) && At(fl, l) == r;
    NoKeyHere(fl, idx, pd, pw, l);
  }

  lemma WaitingLive(g: Geometry, fl: Flash, idx: Index, pd: Option<Loc>, pw: set<Loc>, s: nat, i: nat, n: nat)
    requires Sweep(g, fl, idx, pd, pw, s, i, n) && i < n && Active(fl[s].recs[i]) && fl[s].recs[i].status.Written?
    ensures
      var l, r := Loc(s, i), fl[s].recs[i];
      var a, idx1 := AfterDel(fl, l, false), idx - {r.name};
      && |a| == |fl| && Space(g, a) && Mid(a, idx1, Some(l), pw) && Recov(a, idx1, Some(l)) == Recov(fl, idx, pd)
      && In(a, l) && At(a, l) == r.(status := PreDelete) && Shape(g, a, s, n)
      && (forall k :: k in idx1 ==> idx1[k].sec != s || idx1[k].idx > i)
  {
    var l, r := Loc(s, i), fl[s].recs[i];
    assert In(fl, l) && At(fl, l) == r;
    if pd.Some? {
      NotWaiting(fl, s, i, pd);
    }
    OneKeyPerPlace(fl, idx, pd, pw, l);
    RecovNone(fl, idx, pw);
    MarkedShape(g, fl, s, i, n);
    hide Mid, Space, Recov, Contents, AfterDel, Shape;
    DelPreSteps(g, fl, idx, pw, l);
    AfterDelFrame(g, fl, l, false, s, 0);
  }

  /** A turn either keeps the map, and then the rest fits exactly if it did before, or leaves a key behind. */
  lemma SweepStep(g: Geometry, fl: Flash, idx: Index, pd: Option<Loc>, pw: set<Loc>, s: nat, i: nat, n: nat)
    returns (idx': Index, pd': Option<Loc>, k: Option<Name>)
    requires Sweep(g, fl, idx, pd, pw, s, i, n) && i < n
    ensures var x := Turn(g, fl, s, i);
      if k.None? then
        && Sweep(g, x, idx', pd', pw, s, i + 1, n) && Recov(x, idx', pd') == Recov(fl, idx, pd)
        && (FitsFrom(g, fl, s, i, n) <==> FitsFrom(g, x, s, i + 1, n))
      else
        && !FitsFrom(g, fl, s, i, n) && k.value in Recov(fl, idx, pd)
        && Shape(g, x, s, n) && LeftBehind(x, s, i + 1, k.value)
    ensures pd.None? ==> pd'.None?
  {
    var r, l := fl[s].recs[i], Loc(s, i);
    if !Active(r) {
      TurnIdle(g, fl, s, i);
      idx', pd', k := idx, pd, None;
      NotLive(fl, idx, pd, pw, l);
      WaitingAt(fl, idx, pd, pw);
    } else {
      var a, idx1 := Waiting(g, fl, idx, pd, pw, s, i, n);
      var t0, added0 := TurnCases(g, fl, s, i, n);
      if Placeable(g, a, r.len) {
        idx' := PlacedStep(g, fl, a, idx1, pw, s, i, n);
        pd', k := None, None;
      } else {
        hide Chosen;
        idx', pd', k := idx, pd, Some(r.name);
        WaitingValue(a, idx1, pw, l);
        NotPlaced(a, idx1, pw, l);
      }
    }
  }

  lemma NotPlaced(a: Flash, idx: Index, pw: set<Loc>, l: Loc)
    requires Mid(a, idx, Some(l), pw) && In(a, l) && At(a, l).name !in idx
    ensures LeftBehind(a, l.sec, l.idx + 1, At(a, l).name)
  {
  }

  lemma PlacedStep(g: Geometry, fl: Flash, a: Flash, idx: Index, pw: set<Loc>, s: nat, i: nat, n: nat)
    returns (idx': Index)
    requires g.Valid() && Shape(g, fl, s, n) && i < n && Active(fl[s].recs[i]) && |a| == |fl| && Shape(g, a, s, n)
    requires a == (if fl[s].recs[i].status.Written? then AfterDel(fl, Loc(s, i), false) else fl)
    requires Space(g, a) && Mid(a, idx, Some(Loc(s, i)), pw) && In(a, Loc(s, i))
    requires At(a, Loc(s, i)) == fl[s].recs[i].(status := PreDelete)
    requires fl[s].recs[i].name !in idx && !Live(a, fl[s].recs[i].name) && Placeable(g, a, fl[s].recs[i].len)
    requires (forall k :: k in idx ==> idx[k].sec != s || idx[k].idx > i) && (forall l :: l in pw ==> l.sec != s)
    ensures var x := Turn(g, fl, s, i);
      && Sweep(g, x, idx', None, pw, s, i + 1, n) && Recov(x, idx', None) == Recov(a, idx, Some(Loc(s, i)))
      && (FitsFrom(g, fl, s, i, n) <==> FitsFrom(g, x, s, i + 1, n))
  {
    var r, l := fl[s].recs[i], Loc(s, i);
    hide Mid, Space, Recov, Contents, Live, RecOk, Chosen, AfterDel, AfterCreate, MovedAgain, Turn, FitsFrom, Placeable,
      AfterUpdate, Shape, Sweep;
    ShapeIs(g, fl, s, n);
    var t := TurnPlaces(g, fl, a, s, i, n);
    ShapeIs(g, Turn(g, fl, s, i), s, n);
    idx' := idx[r.name := Loc(t, |a[t].recs|)];
    PlacedSweep(g, a, idx, pw, s, i, n, t);
    FitsTurn(g, fl, a, s, i, n, t);
  }

  /** The record waiting at `i` has a place in sector `t`. */
  lemma PlacedSweep(g: Geometry, a: Flash, idx: Index, pw: set<Loc>, s: nat, i: nat, n: nat, t: nat)
    requires g.Valid() && i < n && Space(g, a) && Mid(a, idx, Some(Loc(s, i)), pw) && In(a, Loc(s, i))
    requires At(a, Loc(s, i)).status.PreDelete?
    requires At(a, Loc(s, i)).name !in idx && t < |a| && t != s && Chosen(g, a, true, t, At(a, Loc(s, i)).len)
    requires Shape(g, MovedAgain(g, a, Loc(s, i), t, false), s, n)
    requires (forall k :: k in idx ==> idx[k].sec != s || idx[k].idx > i) && (forall l :: l in pw ==> l.sec != s)
    ensures var x, idx' := MovedAgain(g, a, Loc(s, i), t, false), idx[At(a, Loc(s, i)).name := Loc(t, |a[t].recs|)];
      Sweep(g, x, idx', None, pw, s, i + 1, n) && Recov(x, idx', None) == Recov(a, idx, Some(Loc(s, i)))
  {
    hide Mid, Space, Recov, Contents, Chosen, MovedAgain, Shape, Sweep;
    var l := Loc(s, i);
    var x, idx' := MovedAgain(g, a, l, t, false), idx[At(a, l).name := Loc(t, |a[t].recs|)];
    AgainKeeps(g, a, idx, pw, l, t);
    RecovNone(x, idx', pw);
    SweepNone(g, x, idx', pw, s, i + 1, n);
  }

  lemma SweepNone(g: Geometry, fl: Flash, idx: Index, pw: set<Loc>, s: nat, i: nat, n: nat)
    requires g.Valid() && Space(g, fl) && Mid(fl, idx, None, pw) && Shape(g, fl, s, n) && i <= n
    requires (forall k :: k in idx ==> idx[k].sec != s || idx[k].idx >= i) && (forall l :: l in pw ==> l.sec != s)
    ensures Sweep(g, fl, idx, None, pw, s, i, n)
  {
  }

  lemma TurnPlaces(g: Geometry, fl: Flash, a: Flash, s: nat, i: nat, n: nat) returns (t: nat)
    requires Shape(g, fl, s, n) && i < n && Active(fl[s].recs[i]) && |a| == |fl| && Shape(g, a, s, n)
    requires a == (if fl[s].recs[i].status.Written? then AfterDel(fl, Loc(s, i), false) else fl)
    requires In(a, Loc(s, i)) && !Live(a, fl[s].recs[i].name) && Placeable(g, a, fl[s].recs[i].len)
    ensures var r, l, x := fl[s].recs[i], Loc(s, i), Turn(g, fl, s, i);
      && t < |fl| && t != s && Chosen(g, a, true, t, r.len) && x == MovedAgain(g, a, l, t, false) && Shape(g, x, s, n)
      && (r.status.Written? ==> AfterUpdate(g, fl, Some(l), t, r.name, r.value) == x)
  {
    var r, l := fl[s].recs[i], Loc(s, i);
    hide Live, RecOk, Chosen, AfterDel, AfterCreate, MovedAgain;
    var t0, added0 := TurnCases(g, fl, s, i, n);
    LenIs(g, r);
    t :| t < |a| && Chosen(g, a, true, t, r.len) && Turn(g, fl, s, i) == MovedAgain(g, a, l, t, false);
    ChosenShape(g, a, t, r.len);
    if r.status.Written? {
      UpdateShape(g, fl, s, i, t);
    }
  }

  lemma FitsTurn(g: Geometry, fl: Flash, a: Flash, s: nat, i: nat, n: nat, t: nat)
    requires s < |fl| && |fl[s].recs| == n && i < n && Active(fl[s].recs[i]) && |a| == |fl| && In(a, Loc(s, i))
    requires t < |fl|
    requires a == (if fl[s].recs[i].status.Written? then AfterDel(fl, Loc(s, i), false) else fl)
    requires !Live(a, fl[s].recs[i].name) && Chosen(g, a, true, t, fl[s].recs[i].len)
    requires var r := fl[s].recs[i]; var x := MovedAgain(g, a, Loc(s, i), t, false);
      s < |x| && (r.status.Written? ==> AfterUpdate(g, fl, Some(Loc(s, i)), t, r.name, r.value) == x)
    ensures FitsFrom(g, fl, s, i, n) <==> FitsFrom(g, MovedAgain(g, a, Loc(s, i), t, false), s, i + 1, n)
  {
    hide Chosen, AfterDel, AfterCreate, MovedAgain, Live, AfterUpdate;
    forall t': nat | t' < |fl| && Chosen(g, a, true, t', fl[s].recs[i].len)
      ensures t' == t
    {
      ChosenUnique(g, a, true, t, t', fl[s].recs[i].len);
    }
  }

  /** What the loop of `do_gc` leaves: all of the map outside sector `s`, or a key that is left behind. */
  lemma {:induction false} SweepAll(g: Geometry, fl: Flash, idx: Index, pd: Option<Loc>, pw: set<Loc>, s: nat, i: nat,
                                    n: nat) returns (idx': Index, k: Option<Name>)
    requires Sweep(g, fl, idx, pd, pw, s, i, n)
    ensures var x := Collected(g, fl, s, i, n);
      && Shape(g, x, s, n) && (k.None? <==> FitsFrom(g, fl, s, i, n))
      && if k.None? then Sweep(g, x, idx', None, pw, s, n, n) && Contents(x, idx') == Recov(fl, idx, pd)
        else k.value in Recov(fl, idx, pd) && LeftBehind(x, s, n, k.value)
    decreases n - i
  {
    hide Mid, Space, Recov, Contents, Turn, Shape, LeftBehind;
    SweepShape(g, fl, idx, pd, pw, s, i, n);
    if i < n {
      hide Sweep;
      var idx1, pd1, lost := SweepStep(g, fl, idx, pd, pw, s, i, n);
      var x := Turn(g, fl, s, i);
      if lost.None? {
        SweepShape(g, x, idx1, pd1, pw, s, i + 1, n);
        idx', k := SweepAll(g, x, idx1, pd1, pw, s, i + 1, n);
      } else {
        ShapeIs(g, x, s, n);
        LeftBehindStays(g, x, s, i + 1, n, lost.value);
        idx', k := idx1, lost;
      }
    } else {
      idx', k := idx, None;
      RecovNone(fl, idx, pw);
    }
  }

  lemma SweepShape(g: Geometry, fl: Flash, idx: Index, pd: Option<Loc>, pw: set<Loc>, s: nat, i: nat, n: nat)
    requires Sweep(g, fl, idx, pd, pw, s, i, n)
    ensures Shape(g, fl, s, n) && s < |fl| && |fl[s].recs| == n && (i == n ==> pd == None)
  {
  }

  /** The sweep kept the map, or it is not on flash any more once the sector is erased. */
  lemma SweptMap(g: Geometry, fl: Flash, idx: Index, pd: Option<Loc>, pw: set<Loc>, s: nat, n: nat)
    requires Sweep(g, fl, idx, pd, pw, s, 0, n)
    ensures
      var x := Collected(g, fl, s, 0, n);
      s < |x| && (Recoverable(Erase(x, s), Recov(fl, idx, pd)) <==> FitsFrom(g, fl, s, 0, n))
  {
    var m := Recov(fl, idx, pd);
    var x := Collected(g, fl, s, 0, n);
    var idx', k := SweepAll(g, fl, idx, pd, pw, s, 0, n);
    hide FitsFrom, Collected, Recov, Space, RecOk;
    if k.None? {
      SweptKeeps(g, x, idx', pw, s, n);
    } else if Recoverable(Erase(x, s), m) {
      RecoverableMeans(Erase(x, s), m);
    }
  }

  lemma SweptKeeps(g: Geometry, x: Flash, idx: Index, pw: set<Loc>, s: nat, n: nat)
    requires Sweep(g, x, idx, None, pw, s, n, n)
    ensures s < |x| && Recoverable(Erase(x, s), Contents(x, idx))
  {
    forall k | k in idx
      ensures idx[k].sec != s
    {
      assert In(x, idx[k]);
    }
    hide Mid, Space, Contents, Shape;
    SweepShape(g, x, idx, None, pw, s, n, n);
    EraseMid(x, idx, pw, s);
    RecovNone(Erase(x, s), idx, pw);
  }

  // ---------- A record whose copy is finished ----------

  /**
   `b` is `a` where records of sector `s` before `i` that wait in PRE_DELETE may be deleted: the
   rest of the collection does not tell them apart.
   */
  ghost predicate Alike(a: Flash, b: Flash, s: nat, i: nat) {
    && s < |a| == |b| && (forall j: nat :: j < |a| && j != s ==> a[j] == b[j])
    && a[s] == b[s].(recs := a[s].recs) && |a[s].recs| == |b[s].recs|
    && forall j: nat :: j < |a[s].recs| ==>
      || b[s].recs[j] == a[s].recs[j]
      || (j < i && a[s].recs[j].status.PreDelete? && b[s].recs[j] == a[s].recs[j].(status := Deleted))
  }

  lemma AlikeLive(a: Flash, b: Flash, s: nat, i: nat, k: Name)
    requires Alike(a, b, s, i)
    ensures Live(a, k) <==> Live(b, k)
  {
    if Live(a, k) {
      var l :| In(a, l) && At(a, l).status.Written? && At(a, l).name == k;
      assert In(b, l) && At(b, l) == At(a, l);
    }
    if Live(b, k) {
      var l :| In(b, l) && At(b, l).status.Written? && At(b, l).name == k;
      assert In(a, l) && At(b, l) == At(a, l);
    }
  }

  /** The collected sector is never chosen, so the allocator answers alike. */
  lemma AlikeChosen(g: Geometry, a: Flash, b: Flash, s: nat, i: nat, t: nat, len: nat)
    requires Alike(a, b, s, i) && a[s].dirty.Gc? && !a[s].store.Empty?
    ensures Chosen(g, a, true, t, len) <==> Chosen(g, b, true, t, len)
  {
    hide Used;
    forall j: nat
      ensures UsingFits(g, a, true, j, len) <==> UsingFits(g, b, true, j, len)
      ensures EmptyFits(g, a, true, j, len) <==> EmptyFits(g, b, true, j, len)
    {
    }
  }

  lemma AlikeMarked(a: Flash, b: Flash, s: nat, i: nat)
    requires Alike(a, b, s, i) && i < |a[s].recs| && a[s].dirty.Gc?
    ensures Alike(AfterDel(a, Loc(s, i), false), AfterDel(b, Loc(s, i), false), s, i)
  {
    MarkedOnly(a, s, i);
    MarkedOnly(b, s, i);
  }

  lemma MarkedShape(g: Geometry, fl: Flash, s: nat, i: nat, n: nat)
    requires Shape(g, fl, s, n) && i < n && Active(fl[s].recs[i])
    ensures
      var a := AfterDel(fl, Loc(s, i), false);
      Shape(g, a, s, n) && |a| == |fl| && a[s].recs[i] == fl[s].recs[i].(status := PreDelete)
  {
    hide RecOk;
    MarkedOnly(fl, s, i);
    RecStatus(g, fl[s].recs[i]);
  }

  /** A turn keeps two flashes alike. */
  lemma AlikeTurn(g: Geometry, a: Flash, b: Flash, s: nat, i: nat, n: nat)
    requires Alike(a, b, s, i) && Shape(g, a, s, n) && Shape(g, b, s, n) && i < n
    ensures Alike(Turn(g, a, s, i), Turn(g, b, s, i), s, i + 1)
    ensures Shape(g, Turn(g, a, s, i), s, n) && Shape(g, Turn(g, b, s, i), s, n)
  {
    hide RecOk, Chosen, Live, AfterDel, MovedAgain, Placeable;
    var r, l := a[s].recs[i], Loc(s, i);
    assert b[s].recs[i] == r;
    if !Active(r) {
      TurnIdle(g, a, s, i);
      TurnIdle(g, b, s, i);
    } else {
      var ta, xa := TurnCases(g, a, s, i, n);
      var tb, xb := TurnCases(g, b, s, i, n);
      AlikeMarked(a, b, s, i);
      var a' := if r.status.Written? then AfterDel(a, l, false) else a;
      var b' := if r.status.Written? then AfterDel(b, l, false) else b;
      MarkedShape(g, a, s, i, n);
      MarkedShape(g, b, s, i, n);
      AlikeMoved(g, a, a', b, b', s, i, n);
    }
  }

  lemma AlikeMoved(g: Geometry, a: Flash, a': Flash, b: Flash, b': Flash, s: nat, i: nat, n: nat)
    requires Shape(g, a, s, n) && Shape(g, b, s, n) && i < n && Active(a[s].recs[i]) && b[s].recs[i] == a[s].recs[i]
    requires a' == (if a[s].recs[i].status.Written? then AfterDel(a, Loc(s, i), false) else a)
    requires b' == (if a[s].recs[i].status.Written? then AfterDel(b, Loc(s, i), false) else b)
    requires Alike(a', b', s, i) && Shape(g, a', s, n) && Shape(g, b', s, n) && |a'| == |a| && |b'| == |b|
    requires a'[s].recs[i] == b'[s].recs[i] == a[s].recs[i].(status := PreDelete)
    ensures Alike(Turn(g, a, s, i), Turn(g, b, s, i), s, i + 1)
  {
    var r, l := a[s].recs[i], Loc(s, i);
    hide RecOk, Chosen, Live, AfterDel, MovedAgain, Turn, Placeable, Alike;
    AlikePlaceable(g, a', b', s, i, n, r.len);
    AlikeLive(a', b', s, i, r.name);
    if Placeable(g, a', r.len) {
      var t := TurnMoves(g, a, a', s, i, n);
      var t' := TurnMoves(g, b, b', s, i, n);
      AlikeChosen(g, a', b', s, i, t, r.len);
      ChosenUnique(g, b', true, t, t', r.len);
      AlikeMovedTo(g, a', b', Turn(g, a, s, i), Turn(g, b, s, i), s, i, t, !Live(a', r.name));
    } else {
      TurnStays(g, a, a', s, i);
      TurnStays(g, b, b', s, i);
      AlikeLater(a', b', s, i);
    }
  }

  lemma AlikeLater(a: Flash, b: Flash, s: nat, i: nat)
    requires Alike(a, b, s, i)
    ensures Alike(a, b, s, i + 1)
  {
  }

  lemma AlikePlaceable(g: Geometry, a: Flash, b: Flash, s: nat, i: nat, n: nat, len: nat)
    requires Alike(a, b, s, i) && Shape(g, a, s, n)
    ensures Placeable(g, a, len) <==> Placeable(g, b, len)
  {
    hide Chosen, RecOk;
    forall t: nat
      ensures Chosen(g, a, true, t, len) <==> Chosen(g, b, true, t, len)
    {
      AlikeChosen(g, a, b, s, i, t, len);
    }
  }

  lemma AlikeMovedTo(g: Geometry, a: Flash, b: Flash, x: Flash, y: Flash, s: nat, i: nat, t: nat, added: bool)
    requires Alike(a, b, s, i) && i < |a[s].recs| && a[s].recs[i] == b[s].recs[i]
    requires MovedTo(g, a, x, s, i, t, added) && MovedTo(g, b, y, s, i, t, added)
    ensures Alike(x, y, s, i + 1)
  {
    hide Used, Geometry.KvLen;
  }

  /** With a place: the record goes there, unless its key is live. */
  lemma TurnMoves(g: Geometry, fl: Flash, a: Flash, s: nat, i: nat, n: nat) returns (t: nat)
    requires Shape(g, fl, s, n) && i < n && Active(fl[s].recs[i]) && Shape(g, a, s, n) && |a| == |fl|
    requires a == (if fl[s].recs[i].status.Written? then AfterDel(fl, Loc(s, i), false) else fl)
    requires a[s].recs[i] == fl[s].recs[i].(status := PreDelete) && Placeable(g, a, fl[s].recs[i].len)
    ensures t < |fl| && t != s && Chosen(g, a, true, t, fl[s].recs[i].len)
    ensures MovedTo(g, a, Turn(g, fl, s, i), s, i, t, !Live(a, fl[s].recs[i].name))
  {
    hide RecOk, Chosen, Live, AfterDel, MovedAgain, MovedTo;
    var r, l := fl[s].recs[i], Loc(s, i);
    LenIs(g, r);
    t :| t < |a| && Chosen(g, a, true, t, r.len) && Turn(g, fl, s, i) == MovedAgain(g, a, l, t, Live(a, r.name));
    ChosenShape(g, a, t, r.len);
    AgainShape(g, a, s, i, t, Live(a, r.name));
  }

  /** Without a place: the record stays behind. */
  lemma TurnStays(g: Geometry, fl: Flash, a: Flash, s: nat, i: nat)
    requires s < |fl| && i < |fl[s].recs| && Active(fl[s].recs[i])
    requires a == (if fl[s].recs[i].status.Written? then AfterDel(fl, Loc(s, i), false) else fl)
    requires !Placeable(g, a, fl[s].recs[i].len)
    ensures Turn(g, fl, s, i) == a
  {
    hide AfterDel, Placeable;
  }

  lemma {:induction false} AlikeCollected(g: Geometry, a: Flash, b: Flash, s: nat, i: nat, n: nat)
    requires Alike(a, b, s, i) && Shape(g, a, s, n) && Shape(g, b, s, n) && i <= n
    ensures
      var x, y := Collected(g, a, s, i, n), Collected(g, b, s, i, n);
      s < |x| && s < |y| && Erase(x, s) == Erase(y, s)
    decreases n - i
  {
    hide Shape, Turn;
    ShapeIs(g, a, s, n);
    ShapeIs(g, b, s, n);
    if i < n {
      hide Alike;
      AlikeTurn(g, a, b, s, i, n);
      ShapeIs(g, Turn(g, a, s, i), s, n);
      ShapeIs(g, Turn(g, b, s, i), s, n);
      AlikeCollected(g, Turn(g, a, s, i), Turn(g, b, s, i), s, i + 1, n);
    }
  }

  /** A waiting record whose key is live elsewhere counts as deleted. */
  ghost function Freed(fl: Flash, pd: Option<Loc>): Flash
    requires pd.Some? ==> In(fl, pd.value)
  {
    if pd.Some? && Live(fl, At(fl, pd.value).name) then SetStatus(fl, pd.value, Deleted) else fl
  }

  /** Up to the waiting record nothing is moved, and with a finished copy it is deleted or left behind. */
  lemma {:induction false} FreedCollected(g: Geometry, a: Flash, s: nat, i: nat, n: nat, l: Loc)
    requires Shape(g, a, s, n) && WaitsFirst(a, s, Some(l)) && In(a, l) && i <= l.idx
    requires At(a, l).status.PreDelete? && Active(At(a, l)) && Live(a, At(a, l).name)
    ensures var x, y := Collected(g, a, s, i, n), Collected(g, SetStatus(a, l, Deleted), s, i, n);
      s < |x| && s < |y| && Erase(x, s) == Erase(y, s)
    decreases n - i
  {
    var b := SetStatus(a, l, Deleted);
    FreedShape(g, a, s, n, l);
    TurnIdle(g, b, s, i);
    if i < l.idx {
      TurnIdle(g, a, s, i);
      FreedCollected(g, a, s, i + 1, n, l);
    } else {
      FreedTurn(g, a, s, n, l);
      hide Turn, Alike, Shape, Live;
      AlikeCollected(g, Turn(g, a, s, i), b, s, i + 1, n);
    }
  }

  lemma FreedShape(g: Geometry, a: Flash, s: nat, n: nat, l: Loc)
    requires Shape(g, a, s, n) && In(a, l) && l.sec == s && Active(At(a, l))
    ensures Shape(g, SetStatus(a, l, Deleted), s, n)
  {
    RecStatus(g, At(a, l));
  }

  lemma FreedTurn(g: Geometry, a: Flash, s: nat, n: nat, l: Loc)
    requires Shape(g, a, s, n) && In(a, l) && l.sec == s && At(a, l).status.PreDelete? && Active(At(a, l))
    requires Live(a, At(a, l).name)
    ensures Alike(Turn(g, a, s, l.idx), SetStatus(a, l, Deleted), s, l.idx + 1) && Shape(g, Turn(g, a, s, l.idx), s, n)
  {
    hide Chosen, Live, RecOk;
    var t, added := TurnCases(g, a, s, l.idx, n);
    assert AfterDel(a, l, true) == SetStatus(a, l, Deleted);
  }

  /**
   Resuming the collection of sector `s` keeps the map if and only if every record of `s` that is
   to be moved finds a place in its turn, on the flash with all sectors read. A record waiting in
   PRE_DELETE needs a place unless its copy was finished.
   */
  lemma KeepsIff(g: Geometry, fl: Flash, idx: Index, pd: Option<Loc>, pw: set<Loc>, s: nat)
    requires g.Valid() && Space(g, fl) && Mid(fl, idx, pd, pw) && s < |fl| && fl[s].dirty.Gc?
    requires KeptApart(fl, pw) && WaitsFirst(fl, s, pd)
    ensures
      var a := SettleAll(g, fl);
      && (pd.Some? ==> In(a, pd.value))
      && (Recoverable(Emptied(g, fl, s), Recov(fl, idx, pd)) <==> FitsFrom(g, Freed(a, pd), s, 0, |a[s].recs|))
  {
    var a, m := SettleAll(g, fl), Recov(fl, idx, pd);
    SettleAllTouched(g, fl);
    TouchedKeeps(g, fl, a, idx, pd, pw);
    TouchedDirty(g, fl, a);
    WaitsRead(g, fl, idx, pd, pw, s);
    var n := |a[s].recs|;
    GcInUse(g, a, s);
    assert Shape(g, a, s, n) by {
      assert SectorOk(g, a[s]);
    }
    WaitingAt(a, idx, pd, pw);
    if pd.Some? {
      LiveIff(a, idx, pd, pw, At(a, pd.value).name);
    }
    hide Space, Recov, FitsFrom, Collected, SettleAll, Shape, Live;
    if pd.Some? && At(a, pd.value).name in idx {
      var l := pd.value;
      FreedCollected(g, a, s, 0, n, l);
      FinishDelete(a, idx, pw, l);
      FreedSpace(g, a, l);
      FreedShape(g, a, s, n, l);
      var b := SetStatus(a, l, Deleted);
      RecovNone(b, idx, pw);
      SweepNone(g, b, idx, pw, s, 0, n);
      SweptMap(g, b, idx, None, pw, s, n);
    } else {
      SweptMap(g, a, idx, pd, pw, s, n);
    }
  }

  lemma FreedSpace(g: Geometry, a: Flash, l: Loc)
    requires g.Valid() && Space(g, a) && In(a, l) && Active(At(a, l))
    ensures Space(g, SetStatus(a, l, Deleted))
  {
    assert SectorOk(g, a[l.sec]);
    RecStatus(g, At(a, l));
    SetStatusSpace(g, a, l, Deleted);
  }

  /** Reading changes nothing about the record that waits. */
  lemma WaitsRead(g: Geometry, fl: Flash, idx: Index, pd: Option<Loc>, pw: set<Loc>, s: nat)
    requires Mid(fl, idx, pd, pw) && s < |fl| && WaitsFirst(fl, s, pd)
    ensures WaitsFirst(SettleAll(g, fl), s, pd)
  {
    if pd.Some? {
      assert !Unsettled(fl[s]);
    }
  }
}
