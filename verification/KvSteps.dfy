/** What each single flash write does to the invariants of KvFlash. */
module KvSteps {
  import opened Options
  import opened KvFlash

  type Index = map<Name, Loc>

  lemma ContentsAgree(a: Flash, b: Flash, idx: Index)
    requires forall k :: k in idx ==> In(a, idx[k]) && In(b, idx[k]) && At(a, idx[k]).value == At(b, idx[k]).value
    ensures Contents(a, idx) == Contents(b, idx)
  {
  }

  lemma ContentsExtend(a: Flash, b: Flash, idx: Index, k: Name, l: Loc)
    requires forall x :: x in idx ==> In(a, idx[x]) && In(b, idx[x]) && At(a, idx[x]).value == At(b, idx[x]).value
    requires In(b, l)
    ensures Contents(b, idx[k := l]) == Contents(a, idx)[k := At(b, l).value]
  {
  }

  lemma ContentsRemove(a: Flash, b: Flash, idx: Index, k: Name)
    requires k in idx
    requires forall x :: x in idx ==> In(a, idx[x]) && In(b, idx[x]) && At(a, idx[x]).value == At(b, idx[x]).value
    ensures Contents(b, idx - {k}) == Contents(a, idx) - {k}
    ensures Contents(b, idx - {k})[k := At(b, idx[k]).value] == Contents(a, idx)
  {
    assert Contents(b, idx - {k}) == Contents(a, idx) - {k};
  }

  // ---------- Programming a record at the end of a sector ----------

  lemma ReplaceLast(fl: Flash, t: nat, a: Rec, b: Rec)
    requires t < |fl|
    ensures In(AddRec(fl, t, a), Loc(t, |fl[t].recs|))
    ensures SetRec(AddRec(fl, t, a), Loc(t, |fl[t].recs|), b) == AddRec(fl, t, b)
  {
    assert (fl[t].recs + [a])[|fl[t].recs| := b] == fl[t].recs + [b];
  }

  lemma AddRecSpace(g: Geometry, fl: Flash, t: nat, r: Rec)
    requires g.Valid() && Space(g, fl)
    requires t < |fl| && !fl[t].store.Empty? && RecOk(g, r) && !IsJunk(r)
    requires Used(fl[t].recs) <= g.payload - g.Threshold()
    requires Used(fl[t].recs) + r.len < g.payload
    requires fl[t].store.Using? ==> Used(fl[t].recs) + r.len <= g.payload - g.Threshold()
    requires fl[t].recs == [] ==> fl[t].store.Using?
    requires |fl[t].recs| > 0 ==> !IsStub(fl[t].recs[0])
    ensures Space(g, AddRec(fl, t, r))
  {
    hide SectorOk, RecOk, Used;
    AddRecSector(g, fl[t], r);
    assert AddRec(fl, t, r)[t] == fl[t].(recs := fl[t].recs + [r]);
  }

  /** A sector with room for one more record. */
  lemma AddRecSector(g: Geometry, sec: Sector, r: Rec)
    requires g.Valid() && SectorOk(g, sec) && !sec.store.Empty? && RecOk(g, r) && !IsJunk(r)
    requires Used(sec.recs) <= g.payload - g.Threshold() && Used(sec.recs) + r.len < g.payload
    requires sec.store.Using? ==> Used(sec.recs) + r.len <= g.payload - g.Threshold()
    requires sec.recs == [] ==> sec.store.Using?
    requires |sec.recs| > 0 ==> !IsStub(sec.recs[0])
    ensures SectorOk(g, sec.(recs := sec.recs + [r]))
  {
    hide RecOk, Used;
    UsedAppend(sec.recs, r);
    forall i: nat | i < |sec.recs| + 1
      ensures Used((sec.recs + [r])[..i]) <= g.payload - g.Threshold() && RecOk(g, (sec.recs + [r])[i])
    {
      assert (sec.recs + [r])[..i] == sec.recs[..i];
      if i == |sec.recs| {
        assert sec.recs[..i] == sec.recs;
      }
    }
  }

  lemma AddRecMid(fl: Flash, idx: Index, pd: Option<Loc>, pw: set<Loc>, t: nat, r: Rec)
    requires Mid(fl, idx, pd, pw) && t < |fl|
    requires r.status.PreWrite? || r.status.ErrHdr?
    ensures
      var pw' := if r.status.PreWrite? && !r.stage.StatusOnly? then pw + {Loc(t, |fl[t].recs|)} else pw;
      Mid(AddRec(fl, t, r), idx, pd, pw')
    ensures Recov(AddRec(fl, t, r), idx, pd) == Recov(fl, idx, pd)
  {
    AddRecIndex(fl, idx, pd, pw, t, r);
    AddRecRecov(fl, idx, pd, pw, t, r);
  }

  lemma AddRecIndex(fl: Flash, idx: Index, pd: Option<Loc>, pw: set<Loc>, t: nat, r: Rec)
    requires Mid(fl, idx, pd, pw) && t < |fl|
    requires r.status.PreWrite? || r.status.ErrHdr?
    ensures
      var pw' := if r.status.PreWrite? && !r.stage.StatusOnly? then pw + {Loc(t, |fl[t].recs|)} else pw;
      Mid(AddRec(fl, t, r), idx, pd, pw')
  {
    var fl', l' := AddRec(fl, t, r), Loc(t, |fl[t].recs|);
    assert !In(fl, l') && In(fl', l');
    hide AddRec, In, At;
  }

  lemma AddRecRecov(fl: Flash, idx: Index, pd: Option<Loc>, pw: set<Loc>, t: nat, r: Rec)
    requires Mid(fl, idx, pd, pw) && t < |fl|
    ensures (forall k :: k in idx ==> In(AddRec(fl, t, r), idx[k])) && (pd.Some? ==> In(AddRec(fl, t, r), pd.value))
    ensures Recov(AddRec(fl, t, r), idx, pd) == Recov(fl, idx, pd)
  {
    var fl' := AddRec(fl, t, r);
    assert forall k :: k in idx ==> In(fl', idx[k]) && At(fl', idx[k]) == At(fl, idx[k]);
    assert pd.Some? ==> In(fl', pd.value) && At(fl', pd.value) == At(fl, pd.value);
    hide AddRec, Mid;
    ContentsAgree(fl', fl, idx);
  }

  lemma AddWrittenMid(fl: Flash, idx: Index, pd: Option<Loc>, pw: set<Loc>, t: nat, r: Rec)
    requires Mid(fl, idx, pd, pw) && t < |fl|
    requires r.status.Written? && IsCopy(r, r.name) && r.name !in idx
    ensures Mid(AddRec(fl, t, r), idx[r.name := Loc(t, |fl[t].recs|)], pd, pw)
  {
    var fl', l' := AddRec(fl, t, r), Loc(t, |fl[t].recs|);
    assert !In(fl, l');
    assert In(fl', l');
  }

  lemma AddWrittenContents(fl: Flash, idx: Index, pd: Option<Loc>, pw: set<Loc>, t: nat, r: Rec)
    requires Mid(fl, idx, pd, pw) && t < |fl|
    requires r.status.Written? && IsCopy(r, r.name) && r.name !in idx
    requires pd.Some? ==> At(fl, pd.value).name == r.name
    ensures Mid(AddRec(fl, t, r), idx[r.name := Loc(t, |fl[t].recs|)], pd, pw)
    ensures Recov(AddRec(fl, t, r), idx[r.name := Loc(t, |fl[t].recs|)], pd) == Recov(fl, idx, pd)[r.name := r.value]
  {
    var l' := Loc(t, |fl[t].recs|);
    AddWrittenMid(fl, idx, pd, pw, t, r);
    assert In(AddRec(fl, t, r), l');
    ContentsExtend(fl, AddRec(fl, t, r), idx, r.name, l');
  }

  // ---------- Changing a status ----------

  lemma SetStatusSpace(g: Geometry, fl: Flash, l: Loc, status: KvStatus)
    requires g.Valid() && Space(g, fl) && In(fl, l)
    requires RecOk(g, At(fl, l).(status := status))
    requires !At(fl, l).stage.StatusOnly?
    ensures Space(g, SetStatus(fl, l, status))
  {
    var fl' := SetStatus(fl, l, status);
    var a, b := fl[l.sec].recs, fl'[l.sec].recs;
    UsedSameLens(a, b);
    forall i: nat | i < |b|
      ensures Used(b[..i]) <= g.payload - g.Threshold() && RecOk(g, b[i])
    {
      UsedSameLens(a[..i], b[..i]);
    }
    assert SectorOk(g, fl[l.sec]);
    assert SectorOk(g, fl'[l.sec]);
  }

  lemma PrepareDelete(fl: Flash, idx: Index, pw: set<Loc>, l: Loc)
    requires Mid(fl, idx, None, pw) && In(fl, l) && At(fl, l).status.Written?
    ensures Mid(SetStatus(fl, l, PreDelete), idx - {At(fl, l).name}, Some(l), pw)
    ensures Recov(SetStatus(fl, l, PreDelete), idx - {At(fl, l).name}, Some(l)) == Contents(fl, idx)
  {
    var fl', k := SetStatus(fl, l, PreDelete), At(fl, l).name;
    ContentsRemove(fl, fl', idx, k);
  }

  lemma FinishDelete(fl: Flash, idx: Index, pw: set<Loc>, l: Loc)
    requires Mid(fl, idx, Some(l), pw) && At(fl, l).name in idx
    ensures Mid(SetStatus(fl, l, Deleted), idx, None, pw)
    ensures Contents(SetStatus(fl, l, Deleted), idx) == Recov(fl, idx, Some(l))
  {
    var fl' := SetStatus(fl, l, Deleted);
    ContentsAgree(fl', fl, idx);
  }

  lemma DirectDelete(fl: Flash, idx: Index, pw: set<Loc>, l: Loc)
    requires Mid(fl, idx, None, pw) && In(fl, l) && At(fl, l).status.Written?
    ensures Mid(SetStatus(fl, l, Deleted), idx - {At(fl, l).name}, None, pw)
    ensures Contents(SetStatus(fl, l, Deleted), idx - {At(fl, l).name}) == Contents(fl, idx) - {At(fl, l).name}
  {
    var fl', k := SetStatus(fl, l, Deleted), At(fl, l).name;
    ContentsRemove(fl, fl', idx, k);
  }

  lemma RejectUnfinished(fl: Flash, idx: Index, pd: Option<Loc>, pw: set<Loc>, l: Loc)
    requires Mid(fl, idx, pd, pw) && l in pw
    ensures Mid(SetStatus(fl, l, ErrHdr), idx, pd, pw - {l})
    ensures Recov(SetStatus(fl, l, ErrHdr), idx, pd) == Recov(fl, idx, pd)
  {
    ContentsAgree(SetStatus(fl, l, ErrHdr), fl, idx);
  }

  // ---------- Sector headers ----------

  lemma SetHeadMid(fl: Flash, idx: Index, pd: Option<Loc>, pw: set<Loc>, s: nat, store: StoreStatus, dirty: DirtyStatus)
    requires Mid(fl, idx, pd, pw) && s < |fl|
    ensures Mid(SetHead(fl, s, store, dirty), idx, pd, pw)
    ensures Recov(SetHead(fl, s, store, dirty), idx, pd) == Recov(fl, idx, pd)
  {
    ContentsAgree(SetHead(fl, s, store, dirty), fl, idx);
  }

  lemma EraseMid(fl: Flash, idx: Index, pw: set<Loc>, s: nat)
    requires Mid(fl, idx, None, pw) && s < |fl|
    requires (forall k :: k in idx ==> idx[k].sec != s) && forall l :: l in pw ==> l.sec != s
    ensures Mid(Erase(fl, s), idx, None, pw)
    ensures Contents(Erase(fl, s), idx) == Contents(fl, idx)
  {
    assert forall k :: k in idx ==> In(fl, idx[k]) && In(Erase(fl, s), idx[k]);
    ContentsAgree(Erase(fl, s), fl, idx);
  }

  lemma WriteSectorHeaderMid(fl: Flash, idx: Index, pw: set<Loc>, s: nat)
    requires Mid(fl, idx, None, pw) && s < |fl|
    ensures Mid(WriteSectorHeader(fl, s), idx, None, pw)
    ensures Contents(WriteSectorHeader(fl, s), idx) == Contents(fl, idx)
  {
    ContentsAgree(WriteSectorHeader(fl, s), fl, idx);
  }

  // ---------- Reads that mark an unwritten header ----------

  /** `b` is `a` after some reads: sectors that were unsettled may have been settled. */
  ghost predicate Touched(g: Geometry, a: Flash, b: Flash) {
    |a| == |b| && forall s: nat :: s < |a| ==> b[s] == a[s] || b[s] == Settle(g, a[s])
  }

  /** A record no reader ever uses again. */
  predicate Inert(r: Rec) {
    r.status.Deleted? || r.status.ErrHdr? || IsStub(r)
  }

  ghost predicate SameActive(a: Flash, b: Flash) {
    && (forall l :: In(a, l) && !Inert(At(a, l)) ==> In(b, l) && At(b, l) == At(a, l))
    && (forall l :: In(b, l) && !Inert(At(b, l)) ==> In(a, l) && At(b, l) == At(a, l))
  }

  lemma SameActiveMid(a: Flash, b: Flash, idx: Index, pd: Option<Loc>, pw: set<Loc>)
    requires SameActive(a, b) && Mid(a, idx, pd, pw)
    ensures Mid(b, idx, pd, pw) && Recov(b, idx, pd) == Recov(a, idx, pd)
  {
    assert forall k :: k in idx ==> In(b, idx[k]) && At(b, idx[k]) == At(a, idx[k]);
    ContentsAgree(b, a, idx);
  }

  lemma SettleSectorOk(g: Geometry, sec: Sector)
    requires g.Valid() && SectorOk(g, sec)
    ensures SectorOk(g, Settle(g, sec))
  {
    if Unsettled(sec) {
      var recs := [] + [Junk(g)];
      UsedAppend([], Junk(g));
      assert Settle(g, sec).recs == recs && recs[..0] == [];
    }
  }

  lemma TouchedActive(g: Geometry, a: Flash, b: Flash)
    requires Touched(g, a, b)
    ensures SameActive(a, b)
  {
    forall l | In(a, l) && !Inert(At(a, l))
      ensures In(b, l) && At(b, l) == At(a, l)
    {
      assert b[l.sec] == a[l.sec] || Unsettled(a[l.sec]);
    }
    forall l | In(b, l) && !Inert(At(b, l))
      ensures In(a, l) && At(b, l) == At(a, l)
    {
    }
  }

  lemma TouchedKeeps(g: Geometry, a: Flash, b: Flash, idx: Index, pd: Option<Loc>, pw: set<Loc>)
    requires g.Valid() && Space(g, a) && Touched(g, a, b) && Mid(a, idx, pd, pw)
    ensures Space(g, b) && Mid(b, idx, pd, pw) && Recov(b, idx, pd) == Recov(a, idx, pd)
    ensures EmptySet(b) == EmptySet(a) && (NoGc(a) ==> NoGc(b)) && (Settled(a) ==> b == a)
  {
    TouchedActive(g, a, b);
    SameActiveMid(a, b, idx, pd, pw);
    forall s: nat | s < |a|
      ensures SectorOk(g, b[s]) && b[s].(recs := a[s].recs) == a[s] && (Unsettled(a[s]) || b[s] == a[s])
    {
      SettleSectorOk(g, a[s]);
    }
  }

  lemma TouchedRefl(g: Geometry, a: Flash)
    ensures Touched(g, a, a)
  {
  }

  lemma TouchedTrans(g: Geometry, a: Flash, b: Flash, c: Flash)
    requires Touched(g, a, b) && Touched(g, b, c)
    ensures Touched(g, a, c)
  {
  }
}
