/**
 Why collection always finds space: a sector that was empty when the collection of sector `s`
 began has received no more bytes than the part of `s` already scanned, and every record of a
 sector starts with at least the threshold left, so that sector is never declared full early.
 */
module KvGc {
  import opened Options
  import opened KvFlash
  import opened KvSteps
  import opened KvWrites
  import opened KvUpdate
  import opened KvCache
  import opened KvCoherence
  import opened KvRoom
  import opened KvIndex

  ghost predicate SameLens(a: seq<Rec>, b: seq<Rec>) {
    |a| == |b| && forall j :: 0 <= j < |a| ==> a[j].len == b[j].len
  }

  /** Records `src[..i]` of the sector `s` under collection are dealt with; `f` is a reserve sector. */
  ghost predicate Collecting(g: Geometry, fl: Flash, s: nat, src: seq<Rec>, i: nat, f: nat) {
    && s < |fl| && f < |fl| && f != s && i <= |src|
    && fl[s].dirty.Gc? && !fl[s].store.Empty? && SameLens(fl[s].recs, src)
    && fl[f].dirty.Clean? && !Unsettled(fl[f])
    && Used(fl[f].recs) <= Used(src[..i])
    && (fl[f].store.Empty? || fl[f].store.Using? || (fl[f].store.Full? && i == |src|))
  }

  /** The scanned part of the source bounds what is left to place. */
  lemma SourceBounds(g: Geometry, fl: Flash, s: nat, src: seq<Rec>, i: nat)
    requires g.Valid() && Space(g, fl) && s < |fl| && SameLens(fl[s].recs, src) && i < |src|
    ensures Used(src[..i]) + src[i].len == Used(src[..i + 1]) < g.payload
    ensures i + 1 < |src| ==> Used(src[..i + 1]) <= g.payload - g.Threshold()
    ensures 0 < src[i].len <= g.payload - g.Threshold()
  {
    assert SectorOk(g, fl[s]);
    UsedStep(src, i);
    UsedMonotone(src, i + 1, |src|);
    assert src[..|src|] == src;
    UsedSameLens(fl[s].recs, src);
    if i + 1 < |src| {
      UsedSameLens(fl[s].recs[..i + 1], src[..i + 1]);
    }
    assert RecOk(g, fl[s].recs[i]) && fl[s].recs[i].len == src[i].len;
  }

  /** The reserve sector has room for the next record, so the allocator cannot fail. */
  lemma RoomForNext(g: Geometry, fl: Flash, s: nat, src: seq<Rec>, i: nat, f: nat)
    requires g.Valid() && Space(g, fl) && Collecting(g, fl, s, src, i, f) && i < |src|
    ensures In(fl, Loc(s, i)) && At(fl, Loc(s, i)).len == src[i].len
    ensures UsingFits(g, AfterDel(fl, Loc(s, i), false), true, f, src[i].len)
      || EmptyFits(g, AfterDel(fl, Loc(s, i), false), true, f, src[i].len)
  {
    SourceBounds(g, fl, s, src, i);
    assert AfterDel(fl, Loc(s, i), false)[f] == fl[f];
  }

  /** A record that is not live needs no space. */
  lemma SkipRecord(g: Geometry, fl: Flash, s: nat, src: seq<Rec>, i: nat, f: nat)
    requires g.Valid() && Space(g, fl) && Collecting(g, fl, s, src, i, f) && i < |src|
    ensures Collecting(g, fl, s, src, i + 1, f)
  {
    SourceBounds(g, fl, s, src, i);
  }

  lemma UpdateElsewhere(g: Geometry, fl: Flash, l: Loc, t: nat, key: Name, value: Value)
    requires In(fl, l) && t < |fl| && t != l.sec && fl[l.sec].dirty.Gc?
    ensures var fl' := AfterUpdate(g, fl, Some(l), t, key, value);
      && |fl'| == |fl| && (forall s: nat :: s < |fl| && s != l.sec && s != t ==> fl'[s] == fl[s])
      && fl'[l.sec].dirty.Gc? && fl'[l.sec].store == fl[l.sec].store && SameLens(fl'[l.sec].recs, fl[l.sec].recs)
      && fl'[t].store == PlacedStore(g, fl[t], g.KvLen(key, value)) && fl'[t].dirty == fl[t].dirty
      && fl'[t].recs == fl[t].recs + [NewRec(g, Written, Complete, key, value)]
  {
    var a := AfterDel(fl, l, false);
    assert a[t] == fl[t] && a[l.sec].dirty.Gc?;
    var b := AfterCreate(g, a, t, key, value);
    assert b[l.sec] == a[l.sec];
    assert forall s: nat :: s < |fl| && s != l.sec && s != t ==> a[s] == fl[s] && b[s] == a[s];
  }

  /** Moving record `i` away keeps the reserve's account. */
  lemma MoveRecord(g: Geometry, fl: Flash, s: nat, src: seq<Rec>, i: nat, f: nat, t: nat, key: Name, value: Value)
    requires g.Valid() && Space(g, fl) && Collecting(g, fl, s, src, i, f) && i < |src|
    requires t < |fl| && In(fl, Loc(s, i)) && Chosen(g, AfterDel(fl, Loc(s, i), false), true, t, src[i].len)
    requires g.KvLen(key, value) == src[i].len
    ensures t != s && fl[s].dirty.Gc?
    ensures Collecting(g, AfterUpdate(g, fl, Some(Loc(s, i)), t, key, value), s, src, i + 1, f)
  {
    var l := Loc(s, i);
    var a := AfterDel(fl, l, false);
    assert a[s].dirty.Gc? && a[s].store == fl[s].store;
    assert t != s;
    SourceBounds(g, fl, s, src, i);
    UpdateElsewhere(g, fl, l, t, key, value);
    var fl' := AfterUpdate(g, fl, Some(l), t, key, value);
    if t == f {
      UsedAppend(fl[t].recs, NewRec(g, Written, Complete, key, value));
      assert fl'[t].recs[|fl[t].recs|] == NewRec(g, Written, Complete, key, value);
    }
  }

  /** Marking a dirty sector GC starts its collection with any empty sector as reserve. */
  lemma StartCollecting(g: Geometry, hash: Hash, keys: seq<KvSlot>, slots: seq<SecSlot>, fl: Flash, idx: Index,
                        pw: set<Loc>, s: nat) returns (f: nat)
    requires g.Valid() && Space(g, fl) && Mid(fl, idx, None, pw) && Settled(fl) && s < |fl| && EmptySet(fl) != {}
    requires SecCacheOk(slots, fl, {}) && KvCacheOk(hash, keys, fl, idx, {}) && !fl[s].dirty.Clean?
    ensures var fl' := SetHead(fl, s, fl[s].store, Gc);
      && Space(g, fl') && Mid(fl', idx, None, pw) && Recov(fl', idx, None) == Recov(fl, idx, None) && Settled(fl')
      && SecCacheOk(slots, fl', {}) && KvCacheOk(hash, keys, fl', idx, {})
      && Collecting(g, fl', s, fl[s].recs, 0, f) && |fl[s].recs| > 0
  {
    var fl' := SetHead(fl, s, fl[s].store, Gc);
    f :| f in EmptySet(fl);
    assert SectorOk(g, fl[s]) && SectorOk(g, fl[f]);
    assert SectorOk(g, fl'[s]);
    assert f != s && fl'[f] == fl[f];
    assert Used([]) == 0;
    SetHeadMid(fl, idx, None, pw, s, fl[s].store, Gc);
    assert forall j: nat :: j < |fl| ==> fl'[j].recs == fl[j].recs && fl'[j].store == fl[j].store;
    SecCacheFrame(slots, fl, fl', {}, {});
    KvCacheFrame(hash, keys, fl, idx, fl', idx, {}, {});
  }

  /** Erasing and formatting a sector without live records loses nothing. */
  lemma ReclaimFacts(g: Geometry, hash: Hash, keys: seq<KvSlot>, slots: seq<SecSlot>, slots': seq<SecSlot>, fl: Flash,
                     idx: Index, pw: set<Loc>, s: nat)
    requires g.Valid() && Space(g, fl) && Mid(fl, idx, None, pw) && Settled(fl) && s < |fl|
    requires forall l :: l in pw ==> l.sec != s
    requires SecCacheOk(slots, fl, {}) && KvCacheOk(hash, keys, fl, idx, {})
    requires forall k :: k in idx ==> idx[k].sec != s
    requires |slots'| == |slots| && OncePerSector(slots')
    requires forall i :: 0 <= i < |slots'| && slots'[i].sec.Some? ==> slots'[i] == slots[i] && slots'[i].sec != Some(s)
    ensures var a, b, m := Erase(fl, s), WriteSectorHeader(Erase(fl, s), s), Contents(fl, idx);
      && AllRecoverable([a, b], m, m) && b == fl[s := Sector(true, Empty, Clean, [])]
      && Mid(b, idx, None, pw) && Contents(b, idx) == m && Space(g, b) && Settled(b)
      && SecCacheOk(slots', b, {}) && KvCacheOk(hash, keys, b, idx, {})
  {
    var a, b := Erase(fl, s), WriteSectorHeader(Erase(fl, s), s);
    ReclaimSpace(g, fl, s);
    ReclaimMap(fl, idx, pw, s);
    ReclaimKeys(hash, keys, fl, idx, pw, s);
    ReclaimSectors(slots, slots', fl, s);
    hide Mid, Space, Settled, SecCacheOk, KvCacheOk, Contents, Recoverable;
    assert AllRecoverable([a, b], Contents(fl, idx), Contents(fl, idx));
  }

  /** The flash after the sector was formatted. */
  lemma ReclaimSpace(g: Geometry, fl: Flash, s: nat)
    requires g.Valid() && Space(g, fl) && Settled(fl) && s < |fl|
    ensures
      var b := WriteSectorHeader(Erase(fl, s), s);
      b == fl[s := Sector(true, Empty, Clean, [])] && Space(g, b) && Settled(b)
  {
    var b := WriteSectorHeader(Erase(fl, s), s);
    assert b == fl[s := Sector(true, Empty, Clean, [])];
    assert Used([]) == 0;
    assert SectorOk(g, b[s]);
    hide SectorOk;
  }

  lemma ReclaimMap(fl: Flash, idx: Index, pw: set<Loc>, s: nat)
    requires Mid(fl, idx, None, pw) && s < |fl| && (forall l :: l in pw ==> l.sec != s)
    requires forall k :: k in idx ==> idx[k].sec != s
    ensures
      var a, b, m := Erase(fl, s), WriteSectorHeader(Erase(fl, s), s), Contents(fl, idx);
      Recoverable(a, m) && Recoverable(b, m) && Mid(b, idx, None, pw) && Contents(b, idx) == m
  {
    var a, b, m := Erase(fl, s), WriteSectorHeader(Erase(fl, s), s), Contents(fl, idx);
    hide Mid, Contents;
    EraseMid(fl, idx, pw, s);
    WriteSectorHeaderMid(a, idx, pw, s);
    RecovNone(a, idx, pw);
    RecovNone(b, idx, pw);
  }

  lemma ReclaimKeys(hash: Hash, keys: seq<KvSlot>, fl: Flash, idx: Index, pw: set<Loc>, s: nat)
    requires Mid(fl, idx, None, pw) && s < |fl| && KvCacheOk(hash, keys, fl, idx, {})
    requires forall k :: k in idx ==> idx[k].sec != s
    ensures KvCacheOk(hash, keys, WriteSectorHeader(Erase(fl, s), s), idx, {})
  {
    var b := WriteSectorHeader(Erase(fl, s), s);
    assert forall k :: k in idx ==> In(fl, idx[k]) && In(b, idx[k]);
    hide Mid, KvCacheOk;
    KvCacheFrame(hash, keys, fl, idx, b, idx, {}, {});
  }

  lemma ReclaimSectors(slots: seq<SecSlot>, slots': seq<SecSlot>, fl: Flash, s: nat)
    requires s < |fl| && SecCacheOk(slots, fl, {}) && |slots'| == |slots| && OncePerSector(slots')
    requires forall i :: 0 <= i < |slots'| && slots'[i].sec.Some? ==> slots'[i] == slots[i] && slots'[i].sec != Some(s)
    ensures SecCacheOk(slots', WriteSectorHeader(Erase(fl, s), s), {})
  {
    var b := WriteSectorHeader(Erase(fl, s), s);
    SecCacheSub(slots, slots', fl, {});
    hide OncePerSector;
    forall i | 0 <= i < |slots'|
      ensures SecSlotOk(slots'[i], b)
    {
      assert SecSlotOk(slots'[i], fl);
    }
  }
}
