/**
 The write sequences of deleting, placing and moving a record. Each `...Writes` function lists
 the flash contents after every single write; a power loss can leave any of them.
 */
module KvWrites {
  import opened KvConfig
  import opened Options
  import opened KvFlash
  import opened KvSteps

  // ---------- del_kv ----------

  function Dirtied(fl: Flash, s: nat): Flash
    requires s < |fl|
  {
    if fl[s].dirty.Clean? then SetHead(fl, s, fl[s].store, Dirty) else fl
  }

  function Marked(fl: Flash, l: Loc, complete: bool): Flash
    requires In(fl, l)
  {
    SetStatus(fl, l, if complete then Deleted else PreDelete)
  }

  function AfterDel(fl: Flash, l: Loc, complete: bool): Flash
    requires In(fl, l)
  {
    Dirtied(Marked(fl, l, complete), l.sec)
  }

  ghost function DelWrites(fl: Flash, l: Loc, complete: bool): seq<Flash>
    requires In(fl, l)
  {
    var a := Marked(fl, l, complete);
    if a[l.sec].dirty.Clean? then [a, AfterDel(fl, l, complete)] else [a]
  }

  // ---------- update_sec_status, create_kv_blob and the copy of move_kv ----------

  /** A new record that leaves less than the threshold makes a sector in use full. */
  function PlacedStore(g: Geometry, sec: Sector, len: nat): StoreStatus {
    if sec.store.Empty? then Using
    else if sec.store.Using? && g.payload < Used(sec.recs) + len + g.Threshold() then Full
    else sec.store
  }

  function AfterPlace(g: Geometry, fl: Flash, t: nat, len: nat): Flash
    requires t < |fl|
  {
    SetHead(fl, t, PlacedStore(g, fl[t], len), fl[t].dirty)
  }

  ghost function PlaceWrites(g: Geometry, fl: Flash, t: nat, len: nat): seq<Flash>
    requires t < |fl|
  {
    if PlacedStore(g, fl[t], len) == fl[t].store then [] else [AfterPlace(g, fl, t, len)]
  }

  function NewRec(g: Geometry, status: KvStatus, stage: Stage, name: Name, value: Value): Rec {
    Rec(status, stage, name, value, g.KvLen(name, value))
  }

  ghost function ProgramWrites(g: Geometry, fl: Flash, t: nat, name: Name, value: Value): seq<Flash>
    requires t < |fl|
  {
    [AddRec(fl, t, Stub(g)),
     AddRec(fl, t, NewRec(g, PreWrite, HeaderDone, name, value)),
     AddRec(fl, t, NewRec(g, PreWrite, NameDone, name, value)),
     AddRec(fl, t, NewRec(g, PreWrite, Complete, name, value)),
     AddRec(fl, t, NewRec(g, Written, Complete, name, value))]
  }

  function AfterCreate(g: Geometry, fl: Flash, t: nat, name: Name, value: Value): Flash
    requires t < |fl|
  {
    AddRec(AfterPlace(g, fl, t, g.KvLen(name, value)), t, NewRec(g, Written, Complete, name, value))
  }

  ghost function CreateWrites(g: Geometry, fl: Flash, t: nat, name: Name, value: Value): seq<Flash>
    requires t < |fl|
  {
    PlaceWrites(g, fl, t, g.KvLen(name, value)) +
    ProgramWrites(g, AfterPlace(g, fl, t, g.KvLen(name, value)), t, name, value)
  }

  // ---------- What the writes keep ----------

  /** Every snapshot still determines one of the two maps. */
  ghost predicate AllRecoverable(w: seq<Flash>, m0: map<Name, Value>, m1: map<Name, Value>) {
    forall i :: 0 <= i < |w| ==> Recoverable(w[i], m0) || Recoverable(w[i], m1)
  }

  /** Every snapshot is one that the next boot can start from. */
  ghost predicate AllInterrupted(g: Geometry, w: seq<Flash>, m0: map<Name, Value>, m1: map<Name, Value>)
    requires g.Valid()
  {
    forall i :: 0 <= i < |w| ==> Interrupted(g, w[i], m0) || Interrupted(g, w[i], m1)
  }

  ghost predicate Calm(g: Geometry, fl: Flash)
    requires g.Valid()
  {
    Space(g, fl) && NoGc(fl) && EmptySet(fl) != {} && Settled(fl)
  }

  lemma IntroInterrupted(g: Geometry, fl: Flash, idx: Index, pd: Option<Loc>, pw: set<Loc>)
    requires g.Valid() && Space(g, fl) && NoGc(fl) && EmptySet(fl) != {} && Mid(fl, idx, pd, pw)
    requires |pw| <= 1 && (pw == {} || Settled(fl))
    ensures Interrupted(g, fl, Recov(fl, idx, pd))
  {
  }

  lemma DirtiedKeeps(g: Geometry, fl: Flash, s: nat, idx: Index, pd: Option<Loc>, pw: set<Loc>)
    requires g.Valid() && Space(g, fl) && Mid(fl, idx, pd, pw)
    requires s < |fl| && !fl[s].store.Empty?
    ensures Space(g, Dirtied(fl, s)) && Mid(Dirtied(fl, s), idx, pd, pw)
    ensures Recov(Dirtied(fl, s), idx, pd) == Recov(fl, idx, pd)
    ensures EmptySet(Dirtied(fl, s)) == EmptySet(fl) && (NoGc(fl) ==> NoGc(Dirtied(fl, s)))
    ensures Settled(fl) ==> Settled(Dirtied(fl, s))
  {
    hide Mid, Contents, Recov, SectorOk;
    SetHeadMid(fl, idx, pd, pw, s, fl[s].store, Dirty);
    if fl[s].dirty.Clean? {
      DirtySector(g, fl[s]);
      assert forall j: nat :: j < |fl| ==>
        Dirtied(fl, s)[j].store == fl[j].store && Dirtied(fl, s)[j].recs == fl[j].recs;
    }
  }

  lemma DirtySector(g: Geometry, sec: Sector)
    requires g.Valid() && SectorOk(g, sec) && !sec.store.Empty?
    ensures SectorOk(g, sec.(dirty := Dirty))
  {
  }

  lemma MarkedKeeps(g: Geometry, fl: Flash, l: Loc, complete: bool)
    requires g.Valid() && Space(g, fl) && In(fl, l)
    requires At(fl, l).status.Written? || At(fl, l).status.PreDelete?
    ensures var fl' := Marked(fl, l, complete);
      l.sec < |fl'| == |fl| && Space(g, fl') && fl'[l.sec].store == fl[l.sec].store && !fl[l.sec].store.Empty?
    ensures EmptySet(Marked(fl, l, complete)) == EmptySet(fl) && (NoGc(fl) ==> NoGc(Marked(fl, l, complete)))
    ensures Settled(fl) ==> Settled(Marked(fl, l, complete))
  {
    assert SectorOk(g, fl[l.sec]) && RecOk(g, At(fl, l));
    SetStatusSpace(g, fl, l, if complete then Deleted else PreDelete);
    var fl' := Marked(fl, l, complete);
    assert forall s: nat :: s < |fl| ==> fl'[s].store == fl[s].store && fl'[s].dirty == fl[s].dirty;
    assert !IsStub(At(fl', l)) && fl'[l.sec].recs[l.idx] == At(fl', l);
  }

  /** Marking a record PRE_DELETE: the key leaves the index but its value stays recoverable. */
  lemma DelPreSteps(g: Geometry, fl: Flash, idx: Index, pw: set<Loc>, l: Loc)
    requires g.Valid() && Space(g, fl) && Mid(fl, idx, None, pw) && In(fl, l) && At(fl, l).status.Written?
    ensures var fl', idx' := AfterDel(fl, l, false), idx - {At(fl, l).name};
      Space(g, fl') && Mid(fl', idx', Some(l), pw) && Recov(fl', idx', Some(l)) == Contents(fl, idx)
    ensures AllRecoverable(DelWrites(fl, l, false), Contents(fl, idx), Contents(fl, idx))
    ensures Calm(g, fl) ==> Calm(g, AfterDel(fl, l, false))
    ensures Calm(g, fl) && pw == {} ==> AllInterrupted(g, DelWrites(fl, l, false), Contents(fl, idx), Contents(fl, idx))
  {
    hide Mid, Space, NoGc, Settled, EmptySet, SetStatus, Dirtied, Contents, In, At;
    var a, idx' := Marked(fl, l, false), idx - {At(fl, l).name};
    MarkedKeeps(g, fl, l, false);
    PrepareDelete(fl, idx, pw, l);
    DirtiedKeeps(g, a, l.sec, idx', Some(l), pw);
    if Calm(g, fl) && pw == {} {
      IntroInterrupted(g, a, idx', Some(l), pw);
      IntroInterrupted(g, AfterDel(fl, l, false), idx', Some(l), pw);
    }
  }

  /** Deleting the old copy once the new one is live. */
  lemma DelDoneSteps(g: Geometry, fl: Flash, idx: Index, pw: set<Loc>, l: Loc)
    requires g.Valid() && Space(g, fl) && Mid(fl, idx, Some(l), pw)
    requires In(fl, l) && At(fl, l).status.PreDelete? && At(fl, l).name in idx
    ensures Space(g, AfterDel(fl, l, true)) && Mid(AfterDel(fl, l, true), idx, None, pw)
    ensures Contents(AfterDel(fl, l, true), idx) == Recov(fl, idx, Some(l))
    ensures AllRecoverable(DelWrites(fl, l, true), Recov(fl, idx, Some(l)), Recov(fl, idx, Some(l)))
    ensures Calm(g, fl) ==> Calm(g, AfterDel(fl, l, true))
    ensures Calm(g, fl) && pw == {} ==>
      AllInterrupted(g, DelWrites(fl, l, true), Recov(fl, idx, Some(l)), Recov(fl, idx, Some(l)))
  {
    hide Mid, Space, NoGc, Settled, EmptySet, SetStatus, Dirtied, Contents, In, At;
    var a := Marked(fl, l, true);
    MarkedKeeps(g, fl, l, true);
    FinishDelete(fl, idx, pw, l);
    DirtiedKeeps(g, a, l.sec, idx, None, pw);
    if Calm(g, fl) && pw == {} {
      IntroInterrupted(g, a, idx, None, pw);
      IntroInterrupted(g, AfterDel(fl, l, true), idx, None, pw);
    }
  }

  /** `fdb_kv_del`: one status write removes the key. */
  lemma DelDirectSteps(g: Geometry, fl: Flash, idx: Index, l: Loc)
    requires g.Valid() && Space(g, fl) && Mid(fl, idx, None, {}) && In(fl, l) && At(fl, l).status.Written?
    ensures var fl', idx' := AfterDel(fl, l, true), idx - {At(fl, l).name};
      Space(g, fl') && Mid(fl', idx', None, {}) && Contents(fl', idx') == Contents(fl, idx) - {At(fl, l).name}
    ensures AllRecoverable(DelWrites(fl, l, true), Contents(fl, idx), Contents(fl, idx) - {At(fl, l).name})
    ensures Calm(g, fl) ==> Calm(g, AfterDel(fl, l, true))
    ensures EmptySet(AfterDel(fl, l, true)) == EmptySet(fl) && (Settled(fl) ==> Settled(AfterDel(fl, l, true)))
    ensures Calm(g, fl) ==>
      AllInterrupted(g, DelWrites(fl, l, true), Contents(fl, idx), Contents(fl, idx) - {At(fl, l).name})
  {
    hide Mid, Space, NoGc, Settled, EmptySet, SetStatus, Dirtied, Contents, In, At;
    var a, idx' := Marked(fl, l, true), idx - {At(fl, l).name};
    MarkedKeeps(g, fl, l, true);
    DirectDelete(fl, idx, {}, l);
    DirtiedKeeps(g, a, l.sec, idx', None, {});
    if Calm(g, fl) {
      IntroInterrupted(g, a, idx', None, {});
      IntroInterrupted(g, AfterDel(fl, l, true), idx', None, {});
    }
  }

  /** A record of length `len` may be programmed into sector `t`. */
  ghost predicate Fits(g: Geometry, fl: Flash, t: nat, len: nat) {
    && t < |fl| && (fl[t].store.Empty? || fl[t].store.Using?) && !Unsettled(fl[t])
    && Used(fl[t].recs) + len < g.payload
  }

  lemma PlaceSpace(g: Geometry, fl: Flash, t: nat, len: nat)
    requires g.Valid() && Space(g, fl) && Fits(g, fl, t, len)
    ensures Space(g, AfterPlace(g, fl, t, len))
    ensures EmptySet(AfterPlace(g, fl, t, len)) == EmptySet(fl) - {t}
    ensures NoGc(fl) ==> NoGc(AfterPlace(g, fl, t, len))
    ensures PlacedStore(g, fl[t], len) == fl[t].store ==> AfterPlace(g, fl, t, len) == fl
  {
    hide SectorOk;
    var fl' := AfterPlace(g, fl, t, len);
    PlaceSector(g, fl[t], len);
    assert forall s: nat :: s < |fl| && s != t ==> fl'[s] == fl[s];
    if PlacedStore(g, fl[t], len) == fl[t].store {
      assert fl'[t] == fl[t];
    }
  }

  lemma PlaceSector(g: Geometry, sec: Sector, len: nat)
    requires g.Valid() && SectorOk(g, sec) && (sec.store.Empty? || sec.store.Using?) && !Unsettled(sec)
    ensures SectorOk(g, sec.(store := PlacedStore(g, sec, len)))
  {
  }

  lemma PlaceSteps(g: Geometry, fl: Flash, idx: Index, pd: Option<Loc>, pw: set<Loc>, t: nat, len: nat)
    requires Mid(fl, idx, pd, pw) && t < |fl|
    ensures Mid(AfterPlace(g, fl, t, len), idx, pd, pw)
    ensures Recov(AfterPlace(g, fl, t, len), idx, pd) == Recov(fl, idx, pd)
    ensures AllRecoverable(PlaceWrites(g, fl, t, len), Recov(fl, idx, pd), Recov(fl, idx, pd))
  {
    hide Mid, Contents, SetHead;
    SetHeadMid(fl, idx, pd, pw, t, PlacedStore(g, fl[t], len), fl[t].dirty);
  }

  /** Programming the record: until the last write the old map survives, with it the new value is there. */
  lemma ProgramSteps(g: Geometry, fl: Flash, idx: Index, pd: Option<Loc>, pw: set<Loc>, t: nat, name: Name,
                     value: Value)
    requires Mid(fl, idx, pd, pw) && t < |fl|
    requires |name| < NAME_MAX && name !in idx
    requires pd.Some? ==> In(fl, pd.value) && At(fl, pd.value).name == name
    ensures var w, l := ProgramWrites(g, fl, t, name, value), Loc(t, |fl[t].recs|);
      && Mid(w[0], idx, pd, pw) && Recov(w[0], idx, pd) == Recov(fl, idx, pd)
      && Mid(w[1], idx, pd, pw + {l}) && Recov(w[1], idx, pd) == Recov(fl, idx, pd)
      && Mid(w[2], idx, pd, pw + {l}) && Recov(w[2], idx, pd) == Recov(fl, idx, pd)
      && Mid(w[3], idx, pd, pw + {l}) && Recov(w[3], idx, pd) == Recov(fl, idx, pd)
      && Mid(w[4], idx[name := l], pd, pw) && Recov(w[4], idx[name := l], pd) == Recov(fl, idx, pd)[name := value]
  {
    hide Mid, Contents, AddRec;
    AddRecMid(fl, idx, pd, pw, t, Stub(g));
    AddRecMid(fl, idx, pd, pw, t, NewRec(g, PreWrite, HeaderDone, name, value));
    AddRecMid(fl, idx, pd, pw, t, NewRec(g, PreWrite, NameDone, name, value));
    AddRecMid(fl, idx, pd, pw, t, NewRec(g, PreWrite, Complete, name, value));
    AddWrittenContents(fl, idx, pd, pw, t, NewRec(g, Written, Complete, name, value));
  }

  lemma PlacedRoom(g: Geometry, fl: Flash, t: nat, len: nat)
    requires g.Valid() && Space(g, fl) && Fits(g, fl, t, len) && len <= g.payload - g.Threshold()
    ensures var sec := AfterPlace(g, fl, t, len)[t];
      && !sec.store.Empty? && sec.recs == fl[t].recs
      && Used(sec.recs) <= g.payload - g.Threshold() && Used(sec.recs) + len < g.payload
      && (sec.store.Using? ==> Used(sec.recs) + len <= g.payload - g.Threshold())
      && (sec.recs == [] ==> sec.store.Using?) && (|sec.recs| > 0 ==> !IsStub(sec.recs[0]))
  {
    assert SectorOk(g, fl[t]);
  }

  lemma ProgramSpace(g: Geometry, fl: Flash, t: nat, name: Name, value: Value)
    requires g.Valid() && Space(g, fl) && Fits(g, fl, t, g.KvLen(name, value))
    requires g.KvLen(name, value) <= g.payload - g.Threshold()
    ensures forall i :: 0 <= i < 5 ==>
      Space(g, ProgramWrites(g, AfterPlace(g, fl, t, g.KvLen(name, value)), t, name, value)[i])
  {
    hide Space, AddRec, SetHead, EmptySet, NoGc;
    var len := g.KvLen(name, value);
    PlacedRoom(g, fl, t, len);
    PlaceSpace(g, fl, t, len);
    var fl' := AfterPlace(g, fl, t, len);
    AddRecSpace(g, fl', t, Stub(g));
    AddRecSpace(g, fl', t, NewRec(g, PreWrite, HeaderDone, name, value));
    AddRecSpace(g, fl', t, NewRec(g, PreWrite, NameDone, name, value));
    AddRecSpace(g, fl', t, NewRec(g, PreWrite, Complete, name, value));
    AddRecSpace(g, fl', t, NewRec(g, Written, Complete, name, value));
  }

  lemma AddRecFrame(g: Geometry, fl: Flash, t: nat, len: nat, r: Rec)
    requires g.Valid() && Space(g, fl) && NoGc(fl) && Fits(g, fl, t, len)
    ensures var fl' := AddRec(AfterPlace(g, fl, t, len), t, r);
      EmptySet(fl') == EmptySet(fl) - {t} && NoGc(fl') && (Settled(fl) && !IsStub(r) ==> Settled(fl'))
  {
    var fl' := AddRec(AfterPlace(g, fl, t, len), t, r);
    assert SectorOk(g, fl[t]);
    assert forall s: nat :: s < |fl| && s != t ==> fl'[s] == fl[s];
    assert fl'[t].recs[|fl[t].recs|] == r;
    assert fl'[t].dirty == fl[t].dirty && !fl'[t].store.Empty?;
  }

  lemma AfterPlaceSame(g: Geometry, fl: Flash, t: nat, len: nat, pd: Option<Loc>)
    requires Fits(g, fl, t, len) && (pd.Some? ==> In(fl, pd.value))
    ensures t < |AfterPlace(g, fl, t, len)| == |fl| && AfterPlace(g, fl, t, len)[t].recs == fl[t].recs
    ensures pd.Some? ==>
      In(AfterPlace(g, fl, t, len), pd.value) && At(AfterPlace(g, fl, t, len), pd.value) == At(fl, pd.value)
  {
  }

  /**
   Putting a record into sector `t` keeps the invariants and adds the key, also for a crash
   between any two writes.
   */
  lemma CreateSteps(g: Geometry, fl: Flash, idx: Index, pd: Option<Loc>, pw: set<Loc>, t: nat, name: Name, value: Value)
    requires g.Valid() && Space(g, fl) && Mid(fl, idx, pd, pw)
    requires t < |fl| && Fits(g, fl, t, g.KvLen(name, value)) && g.KvLen(name, value) <= g.payload - g.Threshold()
    requires |name| < NAME_MAX && name !in idx
    requires pd.Some? ==> In(fl, pd.value) && At(fl, pd.value).name == name
    ensures var fl', idx' := AfterCreate(g, fl, t, name, value), idx[name := Loc(t, |fl[t].recs|)];
      && Space(g, fl') && Mid(fl', idx', pd, pw) && Recov(fl', idx', pd) == Recov(fl, idx, pd)[name := value]
    ensures AllRecoverable(CreateWrites(g, fl, t, name, value), Recov(fl, idx, pd), Recov(fl, idx, pd)[name := value])
  {
    hide Mid, Space, Contents, AddRec, SetHead, EmptySet, NoGc, Settled, In, At, Fits, AfterPlace, Geometry.KvLen;
    var len := g.KvLen(name, value);
    var fl1 := AfterPlace(g, fl, t, len);
    AfterPlaceSame(g, fl, t, len, pd);
    PlaceSteps(g, fl, idx, pd, pw, t, len);
    ProgramSteps(g, fl1, idx, pd, pw, t, name, value);
    ProgramSpace(g, fl, t, name, value);
    assert ProgramWrites(g, fl1, t, name, value)[4] == AfterCreate(g, fl, t, name, value);
  }

  lemma CreateInterrupted(g: Geometry, fl: Flash, idx: Index, pd: Option<Loc>, t: nat, name: Name, value: Value)
    requires g.Valid() && Calm(g, fl) && Mid(fl, idx, pd, {})
    requires t < |fl| && Fits(g, fl, t, g.KvLen(name, value)) && g.KvLen(name, value) <= g.payload - g.Threshold()
    requires |name| < NAME_MAX && name !in idx && EmptySet(fl) - {t} != {}
    requires pd.Some? ==> In(fl, pd.value) && At(fl, pd.value).name == name
    ensures Calm(g, AfterCreate(g, fl, t, name, value))
    ensures AllInterrupted(g, CreateWrites(g, fl, t, name, value), Recov(fl, idx, pd),
      Recov(fl, idx, pd)[name := value])
  {
    hide Mid, Space, Contents, AddRec, SetHead, EmptySet, NoGc, Settled, In, At, Fits, AfterPlace, Geometry.KvLen;
    var len := g.KvLen(name, value);
    var fl1 := AfterPlace(g, fl, t, len);
    AfterPlaceSame(g, fl, t, len, pd);
    PlaceSteps(g, fl, idx, pd, {}, t, len);
    PlaceSpace(g, fl, t, len);
    ProgramSteps(g, fl1, idx, pd, {}, t, name, value);
    ProgramSpace(g, fl, t, name, value);
    AddRecFrame(g, fl, t, len, Stub(g));
    AddRecFrame(g, fl, t, len, NewRec(g, PreWrite, HeaderDone, name, value));
    AddRecFrame(g, fl, t, len, NewRec(g, PreWrite, NameDone, name, value));
    AddRecFrame(g, fl, t, len, NewRec(g, PreWrite, Complete, name, value));
    AddRecFrame(g, fl, t, len, NewRec(g, Written, Complete, name, value));
    var w, l := ProgramWrites(g, fl1, t, name, value), Loc(t, |fl1[t].recs|);
    IntroInterrupted(g, fl1, idx, pd, {});
    IntroInterrupted(g, w[0], idx, pd, {});
    IntroInterrupted(g, w[1], idx, pd, {} + {l});
    IntroInterrupted(g, w[2], idx, pd, {} + {l});
    IntroInterrupted(g, w[3], idx, pd, {} + {l});
    IntroInterrupted(g, w[4], idx[name := l], pd, {});
    assert w[4] == AfterCreate(g, fl, t, name, value);
  }
}
