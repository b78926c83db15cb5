/** The two RAM tables of the key-value database: key addresses and first free addresses of sectors. */
module KvCache {
  import opened Options
  import opened WriteUnits
  import opened KvFlash

  /** `loc` is None for a slot whose address is FDB_DATA_UNUSED; such a slot keeps its stale `crc`. */
  datatype KvSlot = KvSlot(loc: Option<Loc>, crc: nat, active: nat)

  datatype SecSlot = SecSlot(sec: Option<nat>, emptyOff: nat)

  function Decay(active: nat): nat {
    if active > 0 then active - 1 else 0
  }

  /** No slot before a valid slot carries its hash, so the first match of a hash is the only valid one. */
  ghost predicate FirstMatch(slots: seq<KvSlot>) {
    forall i, j :: 0 <= j < i < |slots| && slots[i].loc.Some? ==> slots[j].crc != slots[i].crc
  }

  ghost predicate CacheInRange(slots: seq<KvSlot>) {
    forall i :: 0 <= i < |slots| ==> slots[i].active < 0x10000
  }

  /** Slot `i` lost its key to make room for hash `crc`. */
  ghost predicate Evicted(before: seq<KvSlot>, after: seq<KvSlot>, crc: nat, i: nat)
    requires |before| == |after| && i < |before|
  {
    before[i].loc.Some? && before[i].crc != crc && after[i].crc == crc
  }

  predicate SameKey(a: KvSlot, b: KvSlot) {
    a.loc == b.loc && a.crc == b.crc
  }

  ghost predicate SameKeys(a: seq<KvSlot>, b: seq<KvSlot>) {
    |a| == |b| && forall j :: 0 <= j < |a| ==> SameKey(a[j], b[j]) && a[j].active <= b[j].active
  }

  /**
   The loop of `update_kv_cache`: the slot that already has the hash, otherwise the first free
   slot and the least active slot; every key passed over loses a point of activity.
   */
  method ScanKv(slots: seq<KvSlot>, crc: nat) returns (r: seq<KvSlot>, found: nat, emptyIndex: nat, minIndex: nat)
    requires CacheInRange(slots)
    ensures SameKeys(r, slots)
    ensures found <= |slots| && forall j :: 0 <= j < found ==> slots[j].crc != crc
    ensures found < |slots| ==> slots[found].crc == crc
    ensures found == |slots| && emptyIndex < |slots| ==> slots[emptyIndex].loc.None?
    ensures found == |slots| <= emptyIndex ==> forall j :: 0 <= j < |slots| ==> slots[j].loc.Some?
    ensures found == |slots| && minIndex >= |slots| ==> forall j :: 0 <= j < |slots| ==> slots[j].loc.None?
    ensures found == |slots| && minIndex < |slots| ==> slots[minIndex].loc.Some?
    ensures found == |slots| && minIndex < |slots| ==>
      forall j :: 0 <= j < |slots| && slots[j].loc.Some? ==> Decay(slots[minIndex].active) <= Decay(slots[j].active)
  {
    r, emptyIndex, minIndex, found := slots, |slots|, |slots|, 0;
    var minActivity := 0xFFFF;
    while found < |slots|
      invariant found <= |slots| == |r|
      invariant SameKeys(r, slots) && forall j :: found <= j < |r| ==> r[j] == slots[j]
      invariant forall j :: 0 <= j < found ==> slots[j].crc != crc
      invariant emptyIndex == |slots| ==> forall j :: 0 <= j < found ==> slots[j].loc.Some?
      invariant emptyIndex != |slots| ==> emptyIndex < found && slots[emptyIndex].loc.None?
      invariant minIndex == |slots| ==> minActivity == 0xFFFF && forall j :: 0 <= j < found ==> slots[j].loc.None?
      invariant minIndex != |slots| ==>
        minIndex < found && slots[minIndex].loc.Some? && minActivity == Decay(slots[minIndex].active)
      invariant forall j :: 0 <= j < found && slots[j].loc.Some? ==> minActivity <= Decay(slots[j].active)
    {
      if r[found].crc == crc {
        return;
      } else if r[found].loc.None? && emptyIndex == |slots| {
        emptyIndex := found;
      } else if r[found].loc.Some? {
        if r[found].active > 0 {
          r := r[found := r[found].(active := r[found].active - 1)];
        }
        if r[found].active < minActivity {
          minIndex, minActivity := found, r[found].active;
        }
      }
      found := found + 1;
    }
  }

  /** `update_kv_cache` with an address: remember where the key with this hash is. */
  method StoreKv(slots: seq<KvSlot>, crc: nat, loc: Loc) returns (r: seq<KvSlot>)
    requires FirstMatch(slots) && CacheInRange(slots)
    ensures |r| == |slots| && FirstMatch(r) && CacheInRange(r)
    // every valid slot is either the new entry or an old entry of another hash
    ensures forall i :: 0 <= i < |r| && r[i].loc.Some? ==>
      if r[i].crc == crc then r[i].loc == Some(loc) else r[i].crc == slots[i].crc && r[i].loc == slots[i].loc
    // the key is cached afterwards
    ensures |slots| > 0 ==> exists i :: 0 <= i < |r| && r[i].loc == Some(loc) && r[i].crc == crc
    // a key is dropped only from a table without free slot, and then a least active one
    ensures forall i: nat :: i < |r| && Evicted(slots, r, crc, i) ==>
      forall j :: 0 <= j < |slots| ==> slots[j].loc.Some? && Decay(slots[i].active) <= Decay(slots[j].active)
    // at most one slot changes its key
    ensures forall i, j :: 0 <= i < j < |r| ==> SameKey(r[i], slots[i]) || SameKey(r[j], slots[j])
  {
    var found, emptyIndex, minIndex;
    r, found, emptyIndex, minIndex := ScanKv(slots, crc);
    ghost var scanned := r;
    assert |slots| > 0 ==> slots[0].loc.Some? || slots[0].loc.None?;
    ghost var k := |slots|;
    if found < |slots| {
      k := found;
      r := r[found := r[found].(loc := Some(loc))];
    } else if emptyIndex < |slots| {
      k := emptyIndex;
      r := r[emptyIndex := KvSlot(Some(loc), crc, 0)];
    } else if minIndex < |slots| {
      k := minIndex;
      r := r[minIndex := KvSlot(Some(loc), crc, 0)];
    }
    assert k < |slots| ==> r[k].loc == Some(loc) && r[k].crc == crc;
    assert forall i :: 0 <= i < |r| && i != k ==> r[i] == scanned[i];
  }

  /** `update_kv_cache` with FDB_DATA_UNUSED: forget the key with this hash. */
  method DropKv(slots: seq<KvSlot>, crc: nat) returns (r: seq<KvSlot>)
    requires FirstMatch(slots) && CacheInRange(slots)
    ensures |r| == |slots| && FirstMatch(r) && CacheInRange(r)
    ensures forall i :: 0 <= i < |r| ==> if slots[i].crc == crc then r[i].loc.None? else r[i] == slots[i]
  {
    r := slots;
    for i := 0 to |slots|
      invariant r == slots
      invariant forall j :: 0 <= j < i ==> slots[j].crc != crc
    {
      if r[i].crc == crc {
        r := r[i := r[i].(loc := None, active := 0)];
        assert forall j :: i < j < |slots| && slots[j].crc == crc ==> slots[j].loc.None?;
        return;
      }
    }
  }

  /** The bytes that start at a record's name, as far as the record reaches. */
  function SavedBytes(g: Geometry, name: Name, value: Value): seq<bv8> {
    PadTo(g.words, name) + value
  }

  /** The bytes saved for `name` and `value` begin with `key`. */
  predicate NameSaved(g: Geometry, name: Name, value: Value, key: Name) {
    |key| <= |SavedBytes(g, name, value)| && SavedBytes(g, name, value)[..|key|] == key
  }

  /** `get_kv_from_cache`: only the first |key| saved bytes are compared. */
  method LookupKv(g: Geometry, fl: Flash, slots: seq<KvSlot>, crc: nat, key: Name)
    returns (r: seq<KvSlot>, hit: Option<Loc>)
    requires FirstMatch(slots) && CacheInRange(slots) && |slots| < 0xFFFF
    requires forall i :: 0 <= i < |slots| && slots[i].loc.Some? ==> In(fl, slots[i].loc.value)
    ensures |r| == |slots| && FirstMatch(r) && CacheInRange(r)
    ensures forall i :: 0 <= i < |r| ==>
      r[i].loc == slots[i].loc && r[i].crc == slots[i].crc && r[i].active >= slots[i].active
    ensures hit.Some? ==> exists i :: 0 <= i < |slots| && slots[i].loc == hit && slots[i].crc == crc
    ensures hit.Some? ==> In(fl, hit.value) && NameSaved(g, At(fl, hit.value).name, At(fl, hit.value).value, key)
    ensures hit.None? ==> forall i :: 0 <= i < |slots| && slots[i].loc.Some? && slots[i].crc == crc ==>
      !NameSaved(g, At(fl, slots[i].loc.value).name, At(fl, slots[i].loc.value).value, key)
  {
    r, hit := slots, None;
    for i := 0 to |slots|
      invariant r == slots
      invariant forall j :: 0 <= j < i && slots[j].loc.Some? && slots[j].crc == crc ==>
        !NameSaved(g, At(fl, slots[j].loc.value).name, At(fl, slots[j].loc.value).value, key)
    {
      if r[i].loc.Some? && r[i].crc == crc {
        if NameSaved(g, At(fl, r[i].loc.value).name, At(fl, r[i].loc.value).value, key) {
          hit := r[i].loc;
          if r[i].active >= 0xFFFF - |slots| {
            r := r[i := r[i].(active := 0xFFFF)];
          } else {
            r := r[i := r[i].(active := r[i].active + |slots|)];
          }
          return;
        }
      }
    }
  }

  // ---------- Sector table ----------

  ghost predicate OncePerSector(slots: seq<SecSlot>) {
    forall i, j :: 0 <= j < i < |slots| && slots[i].sec.Some? ==> slots[j].sec != slots[i].sec
  }

  /** `update_sector_cache`: a first free offset beyond the sector removes the sector's slot. */
  method StoreSector(slots: seq<SecSlot>, payload: nat, s: nat, emptyOff: nat) returns (r: seq<SecSlot>)
    requires OncePerSector(slots)
    ensures |r| == |slots| && OncePerSector(r)
    ensures forall i :: 0 <= i < |r| && r[i].sec.Some? ==>
      if r[i].sec == Some(s) then emptyOff < payload && r[i].emptyOff == emptyOff else r[i] == slots[i]
    // the offset is stored whenever the sector has a slot or one is free, and forgotten for a full sector
    ensures emptyOff < payload && (exists i :: 0 <= i < |slots| && (slots[i].sec == Some(s) || slots[i].sec.None?)) ==>
      exists i :: 0 <= i < |r| && r[i] == SecSlot(Some(s), emptyOff)
  {
    r := slots;
    var emptyIndex := |slots|;
    var i := 0;
    while i < |slots|
      invariant 0 <= i <= |slots| && r == slots && emptyIndex <= |slots|
      invariant forall j :: 0 <= j < i ==> slots[j].sec != Some(s)
      invariant emptyIndex < |slots| ==> 0 <= emptyIndex && slots[emptyIndex].sec.None? && emptyOff < payload
      invariant emptyOff < payload && emptyIndex == |slots| ==> forall j :: 0 <= j < i ==> slots[j].sec.Some?
    {
      if emptyOff < payload {
        if r[i].sec == Some(s) {
          r := r[i := SecSlot(Some(s), emptyOff)];
          assert r[i] == SecSlot(Some(s), emptyOff);
          return;
        } else if r[i].sec.None? && emptyIndex == |slots| {
          emptyIndex := i;
        }
      } else if r[i].sec == Some(s) {
        r := r[i := r[i].(sec := None)];
        return;
      }
      i := i + 1;
    }
    if emptyIndex < |slots| {
      r := r[emptyIndex := SecSlot(Some(s), emptyOff)];
      assert r[emptyIndex] == SecSlot(Some(s), emptyOff);
    }
  }

  /** `get_sector_from_cache`. */
  method LookupSector(slots: seq<SecSlot>, s: nat) returns (off: Option<nat>)
    requires OncePerSector(slots)
    ensures off.Some? ==> exists i :: 0 <= i < |slots| && slots[i] == SecSlot(Some(s), off.value)
    ensures off.None? ==> forall i :: 0 <= i < |slots| ==> slots[i].sec != Some(s)
  {
    for i := 0 to |slots|
      invariant forall j :: 0 <= j < i ==> slots[j].sec != Some(s)
    {
      if slots[i].sec == Some(s) {
        return Some(slots[i].emptyOff);
      }
    }
    off := None;
  }
}
