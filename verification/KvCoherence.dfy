/** When the RAM tables agree with the flash. */
module KvCoherence {
  import opened Options
  import opened KvFlash
  import opened KvSteps
  import opened KvWrites
  import opened KvUpdate
  import opened KvCache
  import opened KvIndex

  type Hash = Name -> nat

  /** A valid slot of the key table points at the live record of a key with its hash. */
  ghost predicate SlotOk(hash: Hash, slot: KvSlot, fl: Flash, idx: Index) {
    slot.loc.Some? ==>
      && In(fl, slot.loc.value)
      && At(fl, slot.loc.value).name in idx
      && idx[At(fl, slot.loc.value).name] == slot.loc.value
      && hash(At(fl, slot.loc.value).name) == slot.crc
  }

  /** All slots are right, except perhaps those filed under the hashes `exc`. */
  ghost predicate KvCacheOk(hash: Hash, slots: seq<KvSlot>, fl: Flash, idx: Index, exc: set<nat>) {
    && FirstMatch(slots) && CacheInRange(slots) && |slots| < 0xFFFF
    && forall i :: 0 <= i < |slots| && slots[i].crc !in exc ==> SlotOk(hash, slots[i], fl, idx)
  }

  /** A valid slot of the sector table holds the first free offset of its sector. */
  ghost predicate SecSlotOk(slot: SecSlot, fl: Flash) {
    slot.sec.Some? ==>
      && slot.sec.value < |fl|
      && (fl[slot.sec.value].store.Using? || fl[slot.sec.value].store.Full?)
      && !Unsettled(fl[slot.sec.value])
      && slot.emptyOff == Used(fl[slot.sec.value].recs)
  }

  ghost predicate SecCacheOk(slots: seq<SecSlot>, fl: Flash, exc: set<nat>) {
    && OncePerSector(slots)
    && forall i :: 0 <= i < |slots| && !(slots[i].sec.Some? && slots[i].sec.value in exc) ==> SecSlotOk(slots[i], fl)
  }

  /** Keys keep their place from `a` to `b`, except those with a hash in `exc`. */
  ghost predicate SamePlaces(hash: Hash, a: Flash, idxA: Index, b: Flash, idxB: Index, exc: set<nat>) {
    forall k :: k in idxA && hash(k) !in exc && In(a, idxA[k]) && At(a, idxA[k]).name == k ==>
      k in idxB && idxB[k] == idxA[k] && In(b, idxB[k]) && At(b, idxB[k]).name == k
  }

  lemma KvCacheFrame(hash: Hash, slots: seq<KvSlot>, a: Flash, idxA: Index, b: Flash, idxB: Index, exc: set<nat>,
                     exc': set<nat>)
    requires KvCacheOk(hash, slots, a, idxA, exc) && exc <= exc'
    requires SamePlaces(hash, a, idxA, b, idxB, exc')
    ensures KvCacheOk(hash, slots, b, idxB, exc')
  {
    forall i | 0 <= i < |slots| && slots[i].crc !in exc'
      ensures SlotOk(hash, slots[i], b, idxB)
    {
      assert SlotOk(hash, slots[i], a, idxA);
    }
  }

  lemma SecCacheFrame(slots: seq<SecSlot>, a: Flash, b: Flash, exc: set<nat>, exc': set<nat>)
    requires SecCacheOk(slots, a, exc) && exc <= exc' && |a| == |b|
    requires forall s: nat :: s < |a| && s !in exc' && !Unsettled(a[s]) ==>
      b[s].store == a[s].store && !Unsettled(b[s]) && Used(b[s].recs) == Used(a[s].recs)
    ensures SecCacheOk(slots, b, exc')
  {
    forall i | 0 <= i < |slots| && !(slots[i].sec.Some? && slots[i].sec.value in exc')
      ensures SecSlotOk(slots[i], b)
    {
      assert SecSlotOk(slots[i], a);
    }
  }

  lemma StoreKvOk(hash: Hash, before: seq<KvSlot>, after: seq<KvSlot>, fl: Flash, idx: Index, k: Name, loc: Loc)
    requires KvCacheOk(hash, before, fl, idx, {hash(k)})
    requires |after| == |before| && FirstMatch(after) && CacheInRange(after)
    requires forall i :: 0 <= i < |after| && after[i].loc.Some? ==>
      if after[i].crc == hash(k) then after[i].loc == Some(loc) else SameKey(after[i], before[i])
    requires In(fl, loc) && At(fl, loc).name == k && k in idx && idx[k] == loc
    ensures KvCacheOk(hash, after, fl, idx, {})
  {
    forall i | 0 <= i < |after|
      ensures SlotOk(hash, after[i], fl, idx)
    {
      assert before[i].crc !in {hash(k)} ==> SlotOk(hash, before[i], fl, idx);
    }
  }

  lemma DropKvOk(hash: Hash, before: seq<KvSlot>, after: seq<KvSlot>, fl: Flash, idx: Index, h: nat)
    requires KvCacheOk(hash, before, fl, idx, {h})
    requires |after| == |before| && FirstMatch(after) && CacheInRange(after)
    requires forall i :: 0 <= i < |after| ==> if before[i].crc == h then after[i].loc.None? else after[i] == before[i]
    ensures KvCacheOk(hash, after, fl, idx, {})
  {
    forall i | 0 <= i < |after|
      ensures SlotOk(hash, after[i], fl, idx)
    {
      assert before[i].crc !in {h} ==> SlotOk(hash, before[i], fl, idx);
    }
  }

  /** Marking a record for deletion moves no key. */
  lemma AfterDelPlaces(hash: Hash, fl: Flash, idx: Index, l: Loc, complete: bool)
    requires In(fl, l)
    ensures SamePlaces(hash, fl, idx, AfterDel(fl, l, complete), idx, {})
    ensures SamePlaces(hash, fl, idx, AfterDel(fl, l, complete), idx - {At(fl, l).name}, {hash(At(fl, l).name)})
  {
  }

  lemma AfterCreatePlaces(hash: Hash, g: Geometry, fl: Flash, idx: Index, t: nat, key: Name, value: Value)
    requires t < |fl|
    ensures SamePlaces(hash, fl, idx, AfterCreate(g, fl, t, key, value), idx[key := Loc(t, |fl[t].recs|)], {hash(key)})
    ensures In(AfterCreate(g, fl, t, key, value), Loc(t, |fl[t].recs|))
    ensures At(AfterCreate(g, fl, t, key, value), Loc(t, |fl[t].recs|)) == NewRec(g, Written, Complete, key, value)
  {
    assert AfterPlace(g, fl, t, g.KvLen(key, value))[t].recs == fl[t].recs;
  }

  lemma AfterDelSectors(slots: seq<SecSlot>, fl: Flash, l: Loc, complete: bool, exc: set<nat>)
    requires SecCacheOk(slots, fl, exc) && In(fl, l) && !IsStub(At(fl, l))
    ensures SecCacheOk(slots, AfterDel(fl, l, complete), exc)
  {
    var fl' := AfterDel(fl, l, complete);
    forall s: nat | s < |fl| && s !in exc && !Unsettled(fl[s])
      ensures fl'[s].store == fl[s].store && !Unsettled(fl'[s]) && Used(fl'[s].recs) == Used(fl[s].recs)
    {
      UsedSameLens(fl[s].recs, fl'[s].recs);
      if s == l.sec {
        assert fl'[s].recs[l.idx] == At(fl', l);
      }
    }
    SecCacheFrame(slots, fl, fl', exc, exc);
  }

  lemma AfterCreateSectors(slots: seq<SecSlot>, g: Geometry, fl: Flash, t: nat, key: Name, value: Value)
    requires SecCacheOk(slots, fl, {}) && t < |fl|
    ensures SecCacheOk(slots, AfterCreate(g, fl, t, key, value), {t})
    ensures Used(AfterCreate(g, fl, t, key, value)[t].recs) == Used(fl[t].recs) + g.KvLen(key, value)
  {
    var fl' := AfterCreate(g, fl, t, key, value);
    assert forall s: nat :: s < |fl| && s != t ==> fl'[s] == fl[s];
    SecCacheFrame(slots, fl, fl', {}, {t});
    UsedAppend(fl[t].recs, NewRec(g, Written, Complete, key, value));
  }

  /** Storing the true first free offset of the one doubtful sector, or having no slot for it, repairs the table. */
  lemma SectorRepaired(before: seq<SecSlot>, after: seq<SecSlot>, fl: Flash, t: nat)
    requires SecCacheOk(before, fl, {t}) && OncePerSector(after) && |after| == |before|
    requires t < |fl| && (fl[t].store.Using? || fl[t].store.Full?) && !Unsettled(fl[t])
    requires forall i :: 0 <= i < |after| && after[i].sec.Some? ==>
      if after[i].sec == Some(t) then after[i].emptyOff == Used(fl[t].recs) else after[i] == before[i]
    ensures SecCacheOk(after, fl, {})
  {
    forall i | 0 <= i < |after|
      ensures SecSlotOk(after[i], fl)
    {
      if after[i].sec.Some? && after[i].sec != Some(t) {
        assert SecSlotOk(before[i], fl);
      }
    }
  }

  lemma CachedRight(slots: seq<SecSlot>, fl: Flash, s: nat, off: nat)
    requires SecCacheOk(slots, fl, {}) && exists i :: 0 <= i < |slots| && slots[i] == SecSlot(Some(s), off)
    ensures s < |fl| && off == Used(fl[s].recs) && !Unsettled(fl[s])
  {
    var i :| 0 <= i < |slots| && slots[i] == SecSlot(Some(s), off);
    assert SecSlotOk(slots[i], fl);
  }

  lemma SecCacheShape(slots: seq<SecSlot>, fl: Flash, exc: set<nat>)
    requires SecCacheOk(slots, fl, exc)
    ensures OncePerSector(slots)
  {
  }

  lemma KvCacheShape(hash: Hash, slots: seq<KvSlot>, fl: Flash, idx: Index, exc: set<nat>)
    requires KvCacheOk(hash, slots, fl, idx, exc)
    ensures FirstMatch(slots) && CacheInRange(slots) && |slots| < 0xFFFF
  {
  }

  lemma KvCacheWeaken(hash: Hash, slots: seq<KvSlot>, fl: Flash, idx: Index, exc: set<nat>)
    requires KvCacheOk(hash, slots, fl, idx, {})
    ensures KvCacheOk(hash, slots, fl, idx, exc)
  {
  }

  lemma SamePlacesWeaken(hash: Hash, a: Flash, idxA: Index, b: Flash, idxB: Index, exc: set<nat>)
    requires SamePlaces(hash, a, idxA, b, idxB, {})
    ensures SamePlaces(hash, a, idxA, b, idxB, exc)
  {
  }

  /** Reads move no key and leave records in use alone. */
  lemma TouchedPlaces(hash: Hash, g: Geometry, a: Flash, b: Flash, idx: Index, pd: Option<Loc>, pw: set<Loc>)
    requires Touched(g, a, b) && Mid(a, idx, pd, pw)
    ensures SamePlaces(hash, a, idx, b, idx, {})
    ensures pd.Some? ==> In(b, pd.value) && At(b, pd.value) == At(a, pd.value)
  {
    TouchedActive(g, a, b);
  }

  lemma TouchedAt(hash: Hash, g: Geometry, a: Flash, b: Flash, idx: Index, pw: set<Loc>, l: Loc)
    requires Touched(g, a, b) && Mid(a, idx, Some(l), pw)
    ensures |b| == |a| && In(a, l) && In(b, l) && At(b, l) == At(a, l)
  {
    hide Mid;
    TouchedPlaces(hash, g, a, b, idx, Some(l), pw);
    WaitingIn(a, idx, pw, l);
  }

  /** Dropping sector slots keeps the table right. */
  lemma SecCacheSub(before: seq<SecSlot>, after: seq<SecSlot>, fl: Flash, exc: set<nat>)
    requires SecCacheOk(before, fl, exc) && OncePerSector(after) && |after| == |before|
    requires forall i :: 0 <= i < |after| && after[i].sec.Some? ==> after[i] == before[i]
    ensures SecCacheOk(after, fl, exc)
  {
    forall i | 0 <= i < |after| && !(after[i].sec.Some? && after[i].sec.value in exc)
      ensures SecSlotOk(after[i], fl)
    {
      if after[i].sec.Some? {
        assert SecSlotOk(before[i], fl);
      }
    }
  }

  /** The key table is right for any table with the same entries. */
  lemma KvCacheSameKeys(hash: Hash, a: seq<KvSlot>, b: seq<KvSlot>, fl: Flash, idx: Index)
    requires KvCacheOk(hash, a, fl, idx, {}) && |b| == |a| && FirstMatch(b) && CacheInRange(b)
    requires forall i :: 0 <= i < |b| ==> SameKey(b[i], a[i])
    ensures KvCacheOk(hash, b, fl, idx, {})
  {
    forall i | 0 <= i < |b|
      ensures SlotOk(hash, b[i], fl, idx)
    {
      assert SlotOk(hash, a[i], fl, idx);
    }
  }

  lemma SlotsInRange(hash: Hash, slots: seq<KvSlot>, fl: Flash, idx: Index)
    requires KvCacheOk(hash, slots, fl, idx, {})
    ensures forall i :: 0 <= i < |slots| && slots[i].loc.Some? ==> In(fl, slots[i].loc.value)
  {
    forall i | 0 <= i < |slots| && slots[i].loc.Some?
      ensures In(fl, slots[i].loc.value)
    {
      assert SlotOk(hash, slots[i], fl, idx);
    }
  }

  /** Another live key with the hash of `key` whose saved bytes begin with `key`: a lookup would take it for `key`. */
  ghost predicate Confused(g: Geometry, hash: Hash, m: map<Name, Value>, key: Name) {
    exists k :: k in m && k != key && hash(k) == hash(key) && NameSaved(g, k, m[k], key)
  }

  /** A hit of the key table is the live record of the key, unless another live key is confused with it. */
  lemma HitIsRight(g: Geometry, hash: Hash, slots: seq<KvSlot>, fl: Flash, idx: Index, key: Name, i: nat)
    requires KvCacheOk(hash, slots, fl, idx, {}) && i < |slots| && slots[i].loc.Some? && slots[i].crc == hash(key)
    requires In(fl, slots[i].loc.value)
    requires NameSaved(g, At(fl, slots[i].loc.value).name, At(fl, slots[i].loc.value).value, key)
    requires Mid(fl, idx, None, {}) && !Confused(g, hash, Contents(fl, idx), key)
    ensures OldOf(idx, key) == slots[i].loc
  {
    assert SlotOk(hash, slots[i], fl, idx);
    var k := At(fl, slots[i].loc.value).name;
    assert k in Contents(fl, idx) && Contents(fl, idx)[k] == At(fl, slots[i].loc.value).value;
  }

  /** The condition is exact: a confused live key, once it is cached, is returned for `key`. */
  lemma ConfusedHit(g: Geometry, hash: Hash, fl: Flash, idx: Index, key: Name) returns (slot: KvSlot)
    requires Mid(fl, idx, None, {}) && Confused(g, hash, Contents(fl, idx), key)
    ensures SlotOk(hash, slot, fl, idx) && slot.crc == hash(key) && slot.loc.Some? && OldOf(idx, key) != slot.loc
    ensures NameSaved(g, At(fl, slot.loc.value).name, At(fl, slot.loc.value).value, key)
  {
    var m := Contents(fl, idx);
    var k :| k in m && k != key && hash(k) == hash(key) && NameSaved(g, k, m[k], key);
    slot := KvSlot(Some(idx[k]), hash(k), 0);
  }

  /** Tables as `fdb_kvdb_init` leaves them: no slot holds an address. */
  ghost predicate Cleared(keys: seq<KvSlot>, slots: seq<SecSlot>) {
    && |keys| < 0xFFFF && (forall i :: 0 <= i < |keys| ==> keys[i].loc.None? && keys[i].active < 0x10000)
    && (forall i :: 0 <= i < |slots| ==> slots[i].sec.None?)
  }

  lemma ClearedOk(hash: Hash, keys: seq<KvSlot>, slots: seq<SecSlot>, fl: Flash, idx: Index)
    requires Cleared(keys, slots)
    ensures KvCacheOk(hash, keys, fl, idx, {}) && SecCacheOk(slots, fl, {})
  {
  }
}
