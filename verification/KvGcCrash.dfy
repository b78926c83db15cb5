/**
 Power loss while a sector is collected: every single write leaves a flash that InterruptedGc
 describes, and whether the boot that resumes the collection can finish it is a question of room.
 */
module KvGcCrash {
  import opened KvConfig
  import opened Options
  import opened KvFlash
  import opened KvSteps
  import opened KvWrites
  import opened KvUpdate
  import opened KvCache
  import opened KvRoom
  import opened KvIndex
  import opened KvRecovery
  import opened KvResume

  // ---------- Every write of a collection ----------

  /** Sector `s` is being collected and the sectors before it are done. */
  ghost predicate GcAt(fl: Flash, s: nat) {
    s < |fl| && fl[s].dirty.Gc? && forall j: nat :: j < s ==> fl[j].dirty.Clean?
  }

  /** Every snapshot is one that a power loss in the collection of `s` leaves. */
  ghost predicate AllInGc(g: Geometry, w: seq<Flash>, m: map<Name, Value>, s: nat)
    requires g.Valid()
  {
    forall j :: 0 <= j < |w| ==> InterruptedGc(g, w[j], m, s)
  }

  lemma InGcJoin(g: Geometry, a: seq<Flash>, b: seq<Flash>, c: seq<Flash>, m: map<Name, Value>, s: nat)
    requires g.Valid() && AllInGc(g, a, m, s) && AllInGc(g, b, m, s) && AllInGc(g, c, m, s)
    ensures AllInGc(g, a + b + c, m, s)
  {
    hide InterruptedGc;
  }

  lemma InGcOne(g: Geometry, x: Flash, m: map<Name, Value>, s: nat)
    requires g.Valid() && InterruptedGc(g, x, m, s)
    ensures AllInGc(g, [x], m, s)
  {
  }

  lemma IntroGc(g: Geometry, fl: Flash, idx: Index, pd: Option<Loc>, pw: set<Loc>, s: nat)
    requires g.Valid() && Space(g, fl) && GcAt(fl, s) && Mid(fl, idx, pd, pw) && |pw| <= 1 && Midway(g, fl, s, pd, pw)
    ensures InterruptedGc(g, fl, Recov(fl, idx, pd), s)
  {
    hide Midway, Mid, Space, Recov;
  }

  /** Nothing is being moved, and the sectors have been read. */
  lemma IntroQuiet(g: Geometry, fl: Flash, idx: Index, s: nat)
    requires g.Valid() && Space(g, fl) && GcAt(fl, s) && Mid(fl, idx, None, {}) && Settled(fl)
    ensures InterruptedGc(g, fl, Contents(fl, idx), s)
  {
    hide Mid, Space, Contents, InterruptedGc;
    IntroGc(g, fl, idx, None, {}, s);
    RecovNone(fl, idx, {});
  }

  /** The GC mark itself. */
  lemma MarkInterrupted(g: Geometry, fl: Flash, idx: Index, s: nat)
    requires g.Valid() && Space(g, fl) && Mid(fl, idx, None, {}) && Settled(fl) && s < |fl|
    requires !fl[s].store.Empty? && forall j: nat :: j < s ==> fl[j].dirty.Clean?
    ensures InterruptedGc(g, SetHead(fl, s, fl[s].store, Gc), Contents(fl, idx), s)
  {
    hide Mid, Contents, InterruptedGc;
    var fl' := SetHead(fl, s, fl[s].store, Gc);
    assert SectorOk(g, fl[s]);
    assert forall j: nat :: j < |fl| ==> fl'[j].recs == fl[j].recs && fl'[j].store == fl[j].store;
    assert forall j: nat :: j < |fl| && j != s ==> fl'[j] == fl[j];
    SetHeadMid(fl, idx, None, {}, s, fl[s].store, Gc);
    RecovNone(fl, idx, {});
    RecovNone(fl', idx, {});
    IntroQuiet(g, fl', idx, s);
  }

  /** A flash that differs from `fl` in the target `t` of a move only. */
  ghost predicate OnlyAt(fl: Flash, x: Flash, t: nat) {
    && t < |fl| == |x| && x[t].dirty == fl[t].dirty
    && forall j: nat :: j < |fl| && j != t ==> x[j] == fl[j]
  }

  /** While record `l` of sector `s` is copied to `t`, everything else is as the move found it. */
  lemma CopyMidway(g: Geometry, fl: Flash, x: Flash, l: Loc, t: nat, pw: set<Loc>)
    requires g.Valid() && Space(g, fl) && Settled(fl) && GcAt(fl, l.sec) && WaitsFirst(fl, l.sec, Some(l)) && In(fl, l)
    requires Chosen(g, fl, true, t, At(fl, l).len) && OnlyAt(fl, x, t)
    requires pw <= {Loc(t, |fl[t].recs|)} && (pw != {} ==> !Unsettled(x[t]))
    requires (Unsettled(x[t]) ==> fl[t].store.Empty? && x[t].store.Using?)
    ensures t != l.sec && GcAt(x, l.sec) && In(x, l) && At(x, l) == At(fl, l) && Midway(g, x, l.sec, Some(l), pw)
  {
    hide Used;
    assert SectorOk(g, fl[l.sec]) && SectorOk(g, fl[t]);
    assert fl[t].dirty.Clean?;
    if Unsettled(x[t]) {
      forall j
        ensures !UsingFits(g, x, true, j, At(fl, l).len)
      {
        assert !UsingFits(g, fl, true, j, At(fl, l).len);
      }
      assert Unplaced(g, x, At(fl, l).len);
    } else {
      assert Settled(x);
    }
  }

  lemma PlacedOnly(g: Geometry, fl: Flash, t: nat, len: nat, r: Rec)
    requires g.Valid() && Space(g, fl) && Fits(g, fl, t, len)
    ensures
      var a := AfterPlace(g, fl, t, len);
      var x := AddRec(a, t, r);
      && OnlyAt(fl, a, t) && OnlyAt(fl, x, t) && (Unsettled(a[t]) ==> fl[t].store.Empty? && a[t].store.Using?)
      && (Unsettled(x[t]) ==> fl[t].store.Empty? && x[t].store.Using?) && (!IsStub(r) ==> !Unsettled(x[t]))
  {
    assert SectorOk(g, fl[t]);
    var a := AfterPlace(g, fl, t, len);
    assert AddRec(a, t, r)[t].recs[|fl[t].recs|] == r;
  }

  /** One write of the copy: `r` is what stands at the new place so far. */
  lemma CopyStep(g: Geometry, fl: Flash, l: Loc, t: nat, len: nat, r: Rec, idx: Index, pw: set<Loc>)
    requires g.Valid() && Space(g, fl) && Settled(fl) && GcAt(fl, l.sec) && WaitsFirst(fl, l.sec, Some(l)) && In(fl, l)
    requires len == At(fl, l).len && Chosen(g, fl, true, t, len) && Fits(g, fl, t, len)
    requires pw <= {Loc(t, |fl[t].recs|)} && (IsStub(r) ==> pw == {})
    requires var x := AddRec(AfterPlace(g, fl, t, len), t, r); Space(g, x) && Mid(x, idx, Some(l), pw)
    ensures var x := AddRec(AfterPlace(g, fl, t, len), t, r);
      && InterruptedGc(g, x, Recov(x, idx, Some(l)), l.sec) && t != l.sec && GcAt(x, l.sec)
      && WaitsFirst(x, l.sec, Some(l))
      && x[l.sec] == fl[l.sec] && (!IsStub(r) ==> Settled(x))
  {
    hide Mid, Space, Recov, InterruptedGc, Used, AddRec, WaitsFirst, Chosen;
    AfterPlaceSame(g, fl, t, len, None);
    var x := AddRec(AfterPlace(g, fl, t, len), t, r);
    PlacedOnly(g, fl, t, len, r);
    CopyMidway(g, fl, x, l, t, pw);
    assert |pw| <= 1 by {
      SmallSet(pw, Loc(t, |fl[t].recs|));
    }
    IntroGc(g, x, idx, Some(l), pw, l.sec);
    CopyDone(g, fl, x, l, t, pw);
  }

  lemma SmallSet(a: set<Loc>, l: Loc)
    requires a <= {l}
    ensures |a| <= 1
  {
    assert a == {} || a == {l};
  }

  /** The writes that program the copy. */
  lemma ProgramInterrupted(g: Geometry, fl: Flash, idx: Index, l: Loc, t: nat, name: Name, value: Value, m: map<Name,
                           Value>)
    requires g.Valid() && Space(g, fl) && Settled(fl) && GcAt(fl, l.sec) && WaitsFirst(fl, l.sec, Some(l)) && In(fl, l)
    requires At(fl, l).name == name && At(fl, l).value == value
    requires At(fl, l).len == g.KvLen(name, value) <= g.payload - g.Threshold()
    requires Chosen(g, fl, true, t, g.KvLen(name, value)) && Fits(g, fl, t, g.KvLen(name, value)) && |name| < NAME_MAX
    requires name !in idx
    requires
      var a := AfterPlace(g, fl, t, g.KvLen(name, value));
      Mid(a, idx, Some(l), {}) && Recov(a, idx, Some(l)) == m == m[name := value]
    ensures var w := ProgramWrites(g, AfterPlace(g, fl, t, g.KvLen(name, value)), t, name, value);
      && (forall k :: 0 <= k < 5 ==> InterruptedGc(g, w[k], m, l.sec)) && t != l.sec && Settled(w[4])
      && GcAt(w[4], l.sec)
      && WaitsFirst(w[4], l.sec, Some(l)) && w[4][l.sec] == fl[l.sec]
  {
    hide Mid, Space, Settled, GcAt, WaitsFirst, Recov, InterruptedGc, Chosen, Geometry.KvLen, Used, AfterPlace, AddRec,
      Fits;
    var len := g.KvLen(name, value);
    AfterPlaceSame(g, fl, t, len, Some(l));
    var a, p := AfterPlace(g, fl, t, len), Loc(t, |fl[t].recs|);
    ProgramSteps(g, a, idx, Some(l), {}, t, name, value);
    ProgramSpace(g, fl, t, name, value);
    var w := ProgramWrites(g, a, t, name, value);
    assert {} + {p} == {p};
    assert forall k :: 0 <= k < 5 ==> Space(g, w[k]);
    CopyStep(g, fl, l, t, len, Stub(g), idx, {});
    CopyStep(g, fl, l, t, len, NewRec(g, PreWrite, HeaderDone, name, value), idx, {p});
    CopyStep(g, fl, l, t, len, NewRec(g, PreWrite, NameDone, name, value), idx, {p});
    CopyStep(g, fl, l, t, len, NewRec(g, PreWrite, Complete, name, value), idx, {p});
    CopyStep(g, fl, l, t, len, NewRec(g, Written, Complete, name, value), idx[name := p], {});
  }

  /** The copy of a record, write by write. */
  lemma CopyInterrupted(g: Geometry, fl: Flash, idx: Index, l: Loc, t: nat)
    requires g.Valid() && Space(g, fl) && Settled(fl) && GcAt(fl, l.sec) && WaitsFirst(fl, l.sec, Some(l))
    requires Mid(fl, idx, Some(l), {}) && In(fl, l) && At(fl, l).name !in idx
    requires t < |fl| && Chosen(g, fl, true, t, At(fl, l).len)
    ensures AllInGc(g, CreateWrites(g, fl, t, At(fl, l).name, At(fl, l).value), Recov(fl, idx, Some(l)), l.sec)
    ensures var x := AfterCreate(g, fl, t, At(fl, l).name, At(fl, l).value);
      t != l.sec && Settled(x) && GcAt(x, l.sec) && WaitsFirst(x, l.sec, Some(l)) && x[l.sec] == fl[l.sec]
  {
    var m := Recov(fl, idx, Some(l));
    hide Mid, Space, Settled, GcAt, WaitsFirst, Recov, InterruptedGc, Chosen, Geometry.KvLen, Used, AfterPlace, AddRec,
      Fits, ProgramWrites, AfterCreate;
    var name, value := At(fl, l).name, At(fl, l).value;
    var len := g.KvLen(name, value);
    MovableRecord(g, fl, idx, {}, l);
    ChosenFits(g, fl, true, t, len);
    PlaceSteps(g, fl, idx, Some(l), {}, t, len);
    RecovAgain(fl, idx, l);
    ProgramInterrupted(g, fl, idx, l, t, name, value, m);
    PlaceMidway(g, fl, idx, l, t, len);
    LastWrite(g, fl, t, name, value);
  }

  lemma LastWrite(g: Geometry, fl: Flash, t: nat, name: Name, value: Value)
    requires t < |fl|
    ensures
      var w := ProgramWrites(g, AfterPlace(g, fl, t, g.KvLen(name, value)), t, name, value);
      |w| == 5 && w[4] == AfterCreate(g, fl, t, name, value)
  {
  }

  /** The write that takes the target sector into use. */
  lemma PlaceMidway(g: Geometry, fl: Flash, idx: Index, l: Loc, t: nat, len: nat)
    requires g.Valid() && Space(g, fl) && Settled(fl) && GcAt(fl, l.sec) && WaitsFirst(fl, l.sec, Some(l)) && In(fl, l)
    requires Mid(fl, idx, Some(l), {}) && len == At(fl, l).len && Chosen(g, fl, true, t, len) && Fits(g, fl, t, len)
    ensures InterruptedGc(g, AfterPlace(g, fl, t, len), Recov(fl, idx, Some(l)), l.sec)
  {
    hide Mid, Space, Recov, InterruptedGc, Used, WaitsFirst, Chosen;
    PlaceSteps(g, fl, idx, Some(l), {}, t, len);
    PlaceSpace(g, fl, t, len);
    PlacedOnly(g, fl, t, len, Stub(g));
    CopyMidway(g, fl, AfterPlace(g, fl, t, len), l, t, {});
    IntroGc(g, AfterPlace(g, fl, t, len), idx, Some(l), {}, l.sec);
  }

  /** In a collected sector a status write is all that marking or deleting a record does. */
  lemma GcMarks(g: Geometry, fl: Flash, l: Loc, complete: bool)
    requires GcAt(fl, l.sec) && In(fl, l) && Settled(fl) && !IsStub(At(fl, l)) && WaitsFirst(fl, l.sec, Some(l))
    ensures DelWrites(fl, l, complete) == [AfterDel(fl, l, complete)]
    ensures
      var x := AfterDel(fl, l, complete);
      In(x, l) && Settled(x) && GcAt(x, l.sec) && WaitsFirst(x, l.sec, Some(l))
  {
    var x := AfterDel(fl, l, complete);
    assert Marked(fl, l, complete)[l.sec].dirty.Gc? && x == Marked(fl, l, complete);
    assert x[l.sec].recs[l.idx] == At(x, l);
  }

  lemma FirstLive(fl: Flash, idx: Index, l: Loc)
    requires Mid(fl, idx, None, {}) && In(fl, l) && forall k :: k in idx && idx[k].sec == l.sec ==> idx[k].idx >= l.idx
    ensures WaitsFirst(fl, l.sec, Some(l))
  {
    forall j: nat | j < l.idx && j < |fl[l.sec].recs|
      ensures !Active(fl[l.sec].recs[j])
    {
      assert In(fl, Loc(l.sec, j)) && At(fl, Loc(l.sec, j)) == fl[l.sec].recs[j];
    }
  }

  /** Moving the first live record that is left, write by write. */
  lemma MoveInterrupted(g: Geometry, fl: Flash, idx: Index, l: Loc, t: nat)
    requires g.Valid() && Space(g, fl) && Settled(fl) && GcAt(fl, l.sec) && Mid(fl, idx, None, {})
    requires In(fl, l) && At(fl, l).status.Written?
    requires forall k :: k in idx && idx[k].sec == l.sec ==> idx[k].idx >= l.idx
    requires t < |fl| && Chosen(g, AfterDel(fl, l, false), true, t, At(fl, l).len)
    ensures AllInGc(g, UpdateWrites(g, fl, Some(l), t, At(fl, l).name, At(fl, l).value), Contents(fl, idx), l.sec)
  {
    var m, name, value := Contents(fl, idx), At(fl, l).name, At(fl, l).value;
    hide Mid, Space, Settled, GcAt, WaitsFirst, Recov, Contents, InterruptedGc, Chosen, Geometry.KvLen, AfterDel,
      DelWrites, AfterCreate, CreateWrites, AllInGc;
    FirstLive(fl, idx, l);
    ActiveRecord(g, fl, idx, None, {}, l);
    GcMarks(g, fl, l, false);
    DelPreSteps(g, fl, idx, {}, l);
    AfterDelFrame(g, fl, l, false, t, 0);
    var fl1, idx1 := AfterDel(fl, l, false), idx - {name};
    MarkMidway(g, fl1, idx1, l);
    CopyInterrupted(g, fl1, idx1, l, t);
    DropInterrupted(g, fl1, idx1, l, t);
    InGcOne(g, fl1, m, l.sec);
    var fl2 := AfterCreate(g, fl1, t, name, value);
    InGcOne(g, AfterDel(fl2, l, true), m, l.sec);
    InGcJoin(g, DelWrites(fl, l, false), CreateWrites(g, fl1, t, name, value), DelWrites(fl2, l, true), m, l.sec);
  }

  /** The last write of a move: the source of the copy is deleted. */
  lemma DropInterrupted(g: Geometry, fl: Flash, idx: Index, l: Loc, t: nat)
    requires g.Valid() && Space(g, fl) && Settled(fl) && GcAt(fl, l.sec) && WaitsFirst(fl, l.sec, Some(l))
    requires Mid(fl, idx, Some(l), {}) && In(fl, l) && At(fl, l).status.PreDelete? && At(fl, l).name !in idx
    requires t < |fl| && Chosen(g, fl, true, t, At(fl, l).len)
    ensures var x := AfterCreate(g, fl, t, At(fl, l).name, At(fl, l).value);
      In(x, l) && DelWrites(x, l, true) == [AfterDel(x, l, true)]
        && InterruptedGc(g, AfterDel(x, l, true), Recov(fl, idx, Some(l)), l.sec)
  {
    var m, name, value := Recov(fl, idx, Some(l)), At(fl, l).name, At(fl, l).value;
    hide Mid, Space, Settled, GcAt, WaitsFirst, Recov, Contents, InterruptedGc, Chosen, Geometry.KvLen, AfterDel,
      DelWrites, AfterCreate, CreateWrites;
    CopyInterrupted(g, fl, idx, l, t);
    MovableRecord(g, fl, idx, {}, l);
    ChosenFits(g, fl, true, t, g.KvLen(name, value));
    CreateSteps(g, fl, idx, Some(l), {}, t, name, value);
    RecovAgain(fl, idx, l);
    CreateFrame(g, fl, t, name, value, l);
    var x, idx2 := AfterCreate(g, fl, t, name, value), idx[name := Loc(t, |fl[t].recs|)];
    GcMarks(g, x, l, true);
    DelDoneSteps(g, x, idx2, {}, l);
    IntroQuiet(g, AfterDel(x, l, true), idx2, l.sec);
  }

  lemma MarkMidway(g: Geometry, fl: Flash, idx: Index, l: Loc)
    requires g.Valid() && Space(g, fl) && Settled(fl) && GcAt(fl, l.sec) && WaitsFirst(fl, l.sec, Some(l))
    requires Mid(fl, idx, Some(l), {})
    ensures InterruptedGc(g, fl, Recov(fl, idx, Some(l)), l.sec)
  {
    hide Space, Recov, Mid, InterruptedGc;
    IntroGc(g, fl, idx, Some(l), {}, l.sec);
  }

  /** Erasing and formatting the emptied sector: with its header back the flash is as between operations. */
  lemma ReclaimInterrupted(g: Geometry, fl: Flash, idx: Index, s: nat)
    requires g.Valid() && Space(g, fl) && Settled(fl) && Mid(fl, idx, None, {}) && s < |fl|
    requires forall k :: k in idx ==> idx[k].sec != s
    ensures var a := Erase(fl, s);
      Bare(a) && Headed(a) == WriteSectorHeader(a, s) && AtRest(g, Headed(a), Contents(fl, idx))
        && Headed(Headed(a)) == Headed(a)
  {
    var a := Erase(fl, s);
    var b := WriteSectorHeader(a, s);
    assert forall j: nat :: j < |fl| ==> SectorOk(g, fl[j]);
    assert Headed(a) == b;
    EraseMid(fl, idx, {}, s);
    WriteSectorHeaderMid(a, idx, {}, s);
    assert Used([]) == 0 && b[s] == Sector(true, Empty, Clean, []);
    assert SectorOk(g, b[s]);
    assert s in EmptySet(b);
  }

  /** The copy holds the value that the waiting record holds. */
  lemma RecovAgain(fl: Flash, idx: Index, l: Loc)
    requires Mid(fl, idx, Some(l), {}) && In(fl, l) && At(fl, l).name !in idx
    ensures Recov(fl, idx, Some(l))[At(fl, l).name := At(fl, l).value] == Recov(fl, idx, Some(l))
  {
  }

  lemma CopyDone(g: Geometry, fl: Flash, x: Flash, l: Loc, t: nat, pw: set<Loc>)
    requires OnlyAt(fl, x, t) && Settled(fl) && t != l.sec && l.sec < |fl| && Midway(g, x, l.sec, Some(l), pw)
    ensures x[l.sec] == fl[l.sec] && WaitsFirst(x, l.sec, Some(l)) && (!Unsettled(x[t]) ==> Settled(x))
  {
  }
}
