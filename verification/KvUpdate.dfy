/**
 The update phase of `set_kv` and, with the value kept, the move of one record in `move_kv`:
 mark the old record PRE_DELETE, program the new record, mark the old one DELETED.
 */
module KvUpdate {
  import opened KvConfig
  import opened Options
  import opened KvFlash
  import opened KvSteps
  import opened KvWrites

  /** The flash when the new record is complete and the old one waits for its deletion. */
  function MidUpdate(g: Geometry, fl: Flash, l: Loc, t: nat, key: Name, value: Value): Flash
    requires In(fl, l) && t < |fl|
  {
    AfterCreate(g, AfterDel(fl, l, false), t, key, value)
  }

  function AfterUpdate(g: Geometry, fl: Flash, prev: Option<Loc>, t: nat, key: Name, value: Value): Flash
    requires prev.Some? ==> In(fl, prev.value)
    requires t < |fl|
  {
    if prev.None? then AfterCreate(g, fl, t, key, value)
    else AfterDel(MidUpdate(g, fl, prev.value, t, key, value), prev.value, true)
  }

  ghost function UpdateWrites(g: Geometry, fl: Flash, prev: Option<Loc>, t: nat, key: Name, value: Value): seq<Flash>
    requires prev.Some? ==> In(fl, prev.value)
    requires t < |fl|
  {
    if prev.None? then CreateWrites(g, fl, t, key, value)
    else
      DelWrites(fl, prev.value, false) +
      CreateWrites(g, AfterDel(fl, prev.value, false), t, key, value) +
      DelWrites(MidUpdate(g, fl, prev.value, t, key, value), prev.value, true)
  }

  ghost function OldOf(idx: Index, key: Name): Option<Loc> {
    if key in idx then Some(idx[key]) else None
  }

  lemma AfterDelFrame(g: Geometry, fl: Flash, l: Loc, complete: bool, t: nat, len: nat)
    requires In(fl, l) && t < |fl|
    ensures |AfterDel(fl, l, complete)| == |fl| && |AfterDel(fl, l, complete)[t].recs| == |fl[t].recs|
    ensures Used(AfterDel(fl, l, complete)[t].recs) == Used(fl[t].recs)
    ensures AfterDel(fl, l, complete)[t].store == fl[t].store
    ensures In(AfterDel(fl, l, complete), l)
    ensures At(AfterDel(fl, l, complete), l) == At(fl, l).(status := if complete then Deleted else PreDelete)
    ensures Fits(g, fl, t, len) && !IsStub(At(fl, l)) ==> Fits(g, AfterDel(fl, l, complete), t, len)
    ensures EmptySet(AfterDel(fl, l, complete)) == EmptySet(fl)
  {
    var fl' := AfterDel(fl, l, complete);
    assert fl'[t].store == fl[t].store;
    UsedSameLens(fl[t].recs, fl'[t].recs);
    assert forall s: nat :: s < |fl| ==> fl'[s].store == fl[s].store;
  }

  lemma AfterUpdateSize(g: Geometry, fl: Flash, prev: Option<Loc>, t: nat, key: Name, value: Value)
    requires prev.Some? ==> In(fl, prev.value)
    requires t < |fl|
    ensures |AfterUpdate(g, fl, prev, t, key, value)| == |fl|
  {
  }

  lemma CreateFrame(g: Geometry, fl: Flash, t: nat, key: Name, value: Value, l: Loc)
    requires In(fl, l) && t < |fl|
    ensures In(AfterCreate(g, fl, t, key, value), l) && At(AfterCreate(g, fl, t, key, value), l) == At(fl, l)
  {
  }

  /**
   Replacing or adding a key keeps the index and space invariants, changes the map only at that
   key, and after each single write the flash still determines the old or the new map.
   */
  lemma UpdateSteps(g: Geometry, fl: Flash, idx: Index, pw: set<Loc>, t: nat, key: Name, value: Value)
    requires g.Valid() && Space(g, fl) && Mid(fl, idx, None, pw)
    requires t < |fl| && Fits(g, fl, t, g.KvLen(key, value)) && g.KvLen(key, value) <= g.payload - g.Threshold()
    requires |key| < NAME_MAX
    ensures var fl', idx' := AfterUpdate(g, fl, OldOf(idx, key), t, key, value), idx[key := Loc(t, |fl[t].recs|)];
      && Space(g, fl') && Mid(fl', idx', None, pw) && Contents(fl', idx') == Contents(fl, idx)[key := value]
    ensures AllRecoverable(UpdateWrites(g, fl, OldOf(idx, key), t, key, value), Contents(fl, idx),
      Contents(fl, idx)[key := value])
  {
    hide Space, Contents, AfterCreate, CreateWrites, DelWrites, AfterDel, EmptySet, Fits, Recoverable, Geometry.KvLen;
    if key !in idx {
      hide Mid;
      CreateSteps(g, fl, idx, None, pw, t, key, value);
    } else {
      var l := idx[key];
      assert In(fl, l) && At(fl, l).status.Written? && At(fl, l).name == key;
      hide Mid;
      DelPreSteps(g, fl, idx, pw, l);
      AfterDelFrame(g, fl, l, false, t, g.KvLen(key, value));
      var fl1, idx1 := AfterDel(fl, l, false), idx - {key};
      CreateSteps(g, fl1, idx1, Some(l), pw, t, key, value);
      CreateFrame(g, fl1, t, key, value, l);
      var fl2, idx2 := MidUpdate(g, fl, l, t, key, value), idx[key := Loc(t, |fl[t].recs|)];
      assert idx1[key := Loc(t, |fl[t].recs|)] == idx2;
      DelDoneSteps(g, fl2, idx2, pw, l);
    }
  }

  /**
   Power loss in the update phase: started between operations, with an empty sector to spare,
   every single write leaves a flash from which a boot can bring back the old or the new map.
   */
  lemma UpdateInterrupted(g: Geometry, fl: Flash, idx: Index, t: nat, key: Name, value: Value)
    requires g.Valid() && Calm(g, fl) && Mid(fl, idx, None, {})
    requires t < |fl| && Fits(g, fl, t, g.KvLen(key, value)) && g.KvLen(key, value) <= g.payload - g.Threshold()
    requires |key| < NAME_MAX && EmptySet(fl) - {t} != {}
    ensures Calm(g, AfterUpdate(g, fl, OldOf(idx, key), t, key, value))
    ensures AllInterrupted(g, UpdateWrites(g, fl, OldOf(idx, key), t, key, value), Contents(fl, idx),
      Contents(fl, idx)[key := value])
  {
    hide Space, Contents, AfterCreate, CreateWrites, DelWrites, AfterDel, EmptySet, Settled, NoGc, Fits, Recoverable,
      Interrupted, Geometry.KvLen;
    if key !in idx {
      hide Mid;
      CreateInterrupted(g, fl, idx, None, t, key, value);
    } else {
      var l := idx[key];
      assert In(fl, l) && At(fl, l).status.Written? && At(fl, l).name == key;
      hide Mid;
      DelPreSteps(g, fl, idx, {}, l);
      AfterDelFrame(g, fl, l, false, t, g.KvLen(key, value));
      var fl1, idx1 := AfterDel(fl, l, false), idx - {key};
      CreateSteps(g, fl1, idx1, Some(l), {}, t, key, value);
      CreateInterrupted(g, fl1, idx1, Some(l), t, key, value);
      CreateFrame(g, fl1, t, key, value, l);
      var fl2, idx2 := MidUpdate(g, fl, l, t, key, value), idx[key := Loc(t, |fl[t].recs|)];
      assert idx1[key := Loc(t, |fl[t].recs|)] == idx2;
      DelDoneSteps(g, fl2, idx2, {}, l);
    }
  }

  /** The update leaves an empty sector and settled sectors, whatever the dirty marks are. */
  lemma UpdateCalm(g: Geometry, fl: Flash, idx: Index, t: nat, key: Name, value: Value)
    requires g.Valid() && Space(g, fl) && Mid(fl, idx, None, {}) && Settled(fl)
    requires t < |fl| && Fits(g, fl, t, g.KvLen(key, value)) && EmptySet(fl) - {t} != {}
    ensures EmptySet(AfterUpdate(g, fl, OldOf(idx, key), t, key, value)) != {}
    ensures Settled(AfterUpdate(g, fl, OldOf(idx, key), t, key, value))
  {
    hide Space, Mid, Settled, Geometry.KvLen, AfterDel, AfterCreate, EmptySet;
    var len := g.KvLen(key, value);
    if key !in idx {
      CreateCalm(g, fl, t, key, value);
    } else {
      var l := idx[key];
      LiveAt(fl, idx, key);
      DelCalm(g, fl, l, false);
      AfterDelFrame(g, fl, l, false, t, len);
      CreateCalm(g, AfterDel(fl, l, false), t, key, value);
      CreateFrame(g, AfterDel(fl, l, false), t, key, value, l);
      DelCalm(g, MidUpdate(g, fl, l, t, key, value), l, true);
    }
  }

  lemma LiveAt(fl: Flash, idx: Index, key: Name)
    requires Mid(fl, idx, None, {}) && key in idx
    ensures In(fl, idx[key]) && At(fl, idx[key]).status.Written? && !IsStub(At(fl, idx[key]))
  {
  }

  lemma DelCalm(g: Geometry, fl: Flash, l: Loc, complete: bool)
    requires In(fl, l) && !IsStub(At(fl, l)) && Settled(fl)
    ensures Settled(AfterDel(fl, l, complete)) && EmptySet(AfterDel(fl, l, complete)) == EmptySet(fl)
  {
    var fl' := AfterDel(fl, l, complete);
    assert fl'[l.sec].recs[l.idx] == At(fl', l);
    assert forall s: nat :: s < |fl| ==> fl'[s].store == fl[s].store;
  }

  lemma CreateCalm(g: Geometry, fl: Flash, t: nat, key: Name, value: Value)
    requires Settled(fl) && Fits(g, fl, t, g.KvLen(key, value))
    ensures Settled(AfterCreate(g, fl, t, key, value))
    ensures EmptySet(AfterCreate(g, fl, t, key, value)) == EmptySet(fl) - {t}
  {
    var fl' := AfterCreate(g, fl, t, key, value);
    assert forall s: nat :: s < |fl| && s != t ==> fl'[s] == fl[s];
    assert !fl'[t].store.Empty? && fl'[t].recs[|fl[t].recs|] == NewRec(g, Written, Complete, key, value);
  }

  /** Every record of `a` except the one at `skip` is still in `b`, bit for bit. */
  ghost predicate Untouched(a: Flash, b: Flash, skip: Option<Loc>) {
    forall l :: In(a, l) && skip != Some(l) ==> In(b, l) && At(b, l) == At(a, l)
  }

  /** No write of the update phase changes a record other than the one being replaced. */
  lemma UpdateUntouched(g: Geometry, fl: Flash, prev: Option<Loc>, t: nat, key: Name, value: Value)
    requires prev.Some? ==> In(fl, prev.value)
    requires t < |fl|
    ensures forall i :: 0 <= i < |UpdateWrites(g, fl, prev, t, key, value)| ==>
      Untouched(fl, UpdateWrites(g, fl, prev, t, key, value)[i], prev)
  {
    if prev.None? {
      CreateUntouched(g, fl, t, key, value, prev);
    } else {
      var fl1 := AfterDel(fl, prev.value, false);
      var fl2 := AfterCreate(g, fl1, t, key, value);
      DelUntouched(fl, prev.value, false);
      CreateUntouched(g, fl1, t, key, value, prev);
      DelUntouched(fl2, prev.value, true);
      hide AfterCreate, CreateWrites, DelWrites, AfterDel;
      assert forall x :: Untouched(fl1, x, prev) ==> Untouched(fl, x, prev);
      assert forall x :: Untouched(fl2, x, prev) ==> Untouched(fl, x, prev);
    }
  }

  lemma DelUntouched(fl: Flash, l: Loc, complete: bool)
    requires In(fl, l)
    ensures Untouched(fl, AfterDel(fl, l, complete), Some(l))
    ensures forall i :: 0 <= i < |DelWrites(fl, l, complete)| ==> Untouched(fl, DelWrites(fl, l, complete)[i], Some(l))
  {
  }

  lemma CreateUntouched(g: Geometry, fl: Flash, t: nat, key: Name, value: Value, skip: Option<Loc>)
    requires t < |fl|
    ensures Untouched(fl, AfterCreate(g, fl, t, key, value), skip)
    ensures forall i :: 0 <= i < |CreateWrites(g, fl, t, key, value)| ==>
      Untouched(fl, CreateWrites(g, fl, t, key, value)[i], skip)
  {
    var fl1 := AfterPlace(g, fl, t, g.KvLen(key, value));
    assert fl1[t].recs == fl[t].recs;
    assert Untouched(fl, fl1, skip);
    forall r: Rec
      ensures Untouched(fl, AddRec(fl1, t, r), skip)
    {
    }
  }

  /** A finished copy of key `k` with value `v` that a boot will use. */
  ghost predicate SavedCopy(fl: Flash, l: Loc, k: Name, v: Value) {
    && In(fl, l) && IsCopy(At(fl, l), k) && At(fl, l).value == v
    && (At(fl, l).status.Written? || At(fl, l).status.PreDelete?)
  }

  ghost predicate WrittenAs(fl: Flash, l: Loc, k: Name) {
    In(fl, l) && At(fl, l).status.Written? && At(fl, l).name == k
  }

  /**
   What a recoverable flash holds: a finished copy of every key in WRITE or PRE_DELETE with its
   value, never two copies of a key in WRITE, and no WRITE copy of anything else.
   */
  lemma RecoverableMeans(fl: Flash, m: map<Name, Value>)
    requires Recoverable(fl, m)
    ensures forall k :: k in m ==> exists l :: SavedCopy(fl, l, k, m[k])
    ensures forall k, l, l' :: WrittenAs(fl, l, k) && WrittenAs(fl, l', k) ==> l == l'
    ensures forall k, l :: WrittenAs(fl, l, k) ==> k in m && m[k] == At(fl, l).value
  {
    var idx, pd, pw :| Mid(fl, idx, pd, pw) && Recov(fl, idx, pd) == m;
    forall k | k in m
      ensures exists l :: SavedCopy(fl, l, k, m[k])
    {
      assert SavedCopy(fl, if k in idx then idx[k] else pd.value, k, m[k]);
    }
  }
}
