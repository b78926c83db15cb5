/** What the index says about single records. */
module KvIndex {
  import opened KvConfig
  import opened Options
  import opened KvFlash
  import opened KvSteps

  lemma WaitingIn(fl: Flash, idx: Index, pw: set<Loc>, l: Loc)
    requires Mid(fl, idx, Some(l), pw)
    ensures In(fl, l)
  {
  }

  lemma ActiveRecord(g: Geometry, fl: Flash, idx: Index, pd: Option<Loc>, pw: set<Loc>, l: Loc)
    requires g.Valid() && Space(g, fl) && Mid(fl, idx, pd, pw) && In(fl, l)
    requires At(fl, l).status.Written? || At(fl, l).status.PreDelete?
    ensures IsCopy(At(fl, l), At(fl, l).name)
    ensures At(fl, l).status.Written? ==> At(fl, l).name in idx && idx[At(fl, l).name] == l
    ensures At(fl, l).len == g.KvLen(At(fl, l).name, At(fl, l).value) <= g.payload - g.Threshold()
  {
    assert SectorOk(g, fl[l.sec]) && RecOk(g, At(fl, l));
  }

  lemma RecovNone(fl: Flash, idx: Index, pw: set<Loc>)
    ensures Mid(fl, idx, None, pw) ==> Recov(fl, idx, None) == Contents(fl, idx)
  {
  }

  /** What `move_kv` relies on: the record in PRE_DELETE is finished and of the size its parts give it. */
  lemma MovableRecord(g: Geometry, fl: Flash, idx: Index, pw: set<Loc>, l: Loc)
    requires g.Valid() && Space(g, fl) && Mid(fl, idx, Some(l), pw)
    ensures In(fl, l) && IsCopy(At(fl, l), At(fl, l).name) && At(fl, l).status.PreDelete?
    ensures At(fl, l).len == g.KvLen(At(fl, l).name, At(fl, l).value) <= g.payload - g.Threshold()
    ensures At(fl, l).name !in idx ==>
      Recov(fl, idx, Some(l))[At(fl, l).name := At(fl, l).value] == Recov(fl, idx, Some(l))
  {
    assert SectorOk(g, fl[l.sec]) && RecOk(g, At(fl, l));
  }

  lemma NotLive(fl: Flash, idx: Index, pd: Option<Loc>, pw: set<Loc>, l: Loc)
    requires Mid(fl, idx, pd, pw) && In(fl, l) && !(At(fl, l).stage.Complete? && At(fl, l).status.Written?)
    ensures forall k :: k in idx ==> idx[k] != l
  {
  }

  lemma OneKeyPerPlace(fl: Flash, idx: Index, pd: Option<Loc>, pw: set<Loc>, l: Loc)
    requires Mid(fl, idx, pd, pw) && In(fl, l)
    ensures forall k :: k in idx && idx[k] == l ==> k == At(fl, l).name
  {
  }

  lemma SectorKnown(g: Geometry, fl: Flash, s: nat)
    requires g.Valid() && Space(g, fl) && s < |fl|
    ensures fl[s].dirty.Clean? || fl[s].dirty.Dirty? || fl[s].dirty.Gc?
  {
    assert SectorOk(g, fl[s]);
  }

  lemma ContentsKeys(fl: Flash, idx: Index)
    requires Mid(fl, idx, None, {})
    ensures Contents(fl, idx).Keys == idx.Keys
  {
  }

  lemma SameKeysByContents(a: Flash, idxA: Index, b: Flash, idxB: Index)
    requires Mid(a, idxA, None, {}) && Mid(b, idxB, None, {}) && Contents(a, idxA) == Contents(b, idxB)
    ensures idxA.Keys == idxB.Keys
  {
    assert Contents(a, idxA).Keys == idxA.Keys && Contents(b, idxB).Keys == idxB.Keys;
  }

  lemma FoundRecord(fl: Flash, idx: Index, key: Name)
    requires Mid(fl, idx, None, {}) && key in idx
    ensures In(fl, idx[key]) && At(fl, idx[key]).status.Written? && IsCopy(At(fl, idx[key]), key)
    ensures Contents(fl, idx)[key] == At(fl, idx[key]).value
  {
  }

  lemma IndexedShort(fl: Flash, idx: Index, key: Name)
    requires Mid(fl, idx, None, {})
    ensures key in idx ==>
      |key| < NAME_MAX && In(fl, idx[key]) && At(fl, idx[key]).status.Written? && At(fl, idx[key]).name == key
  {
  }
}
