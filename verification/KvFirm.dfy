/**
 What a reader of a sector can see. A lone status byte behind other records has no magic word
 and is missed by every traversal, so that the sum of the lengths seen falls short; the search
 for the free tail makes up for it only if the last write unit of the last record is not blank.
 */
module KvFirm {
  import opened Options
  import opened WriteUnits
  import opened KvFlash
  import opened KvSteps
  import opened KvWrites
  import opened KvUpdate

  /** The bytes of a finished record hold the magic word only at their head. */
  type Single = (Name, Value) -> bool

  predicate AllOnes(s: seq<bv8>) {
    forall i :: 0 <= i < |s| ==> s[i] == 0xFF
  }

  /** What stands on flash behind the header of a record. */
  function Body(g: Geometry, r: Rec): seq<bv8> {
    match r.stage
    case Complete => PadTo(g.words, r.name) + PadTo(g.words, r.value)
    case NameDone => PadTo(g.words, r.name) + Blanks(g.Align(|r.value|))
    case HeaderDone => Blanks(g.Align(|r.name|)) + Blanks(g.Align(|r.value|))
    case StatusOnly => []
  }

  /** The write units at the end of `b` that look erased. */
  function BlankUnits(g: Geometry, b: seq<bv8>): (r: nat)
    ensures g.Units(r) <= |b|
  {
    if |b| >= g.Units(1) && AllOnes(b[|b| - g.Units(1)..]) then 1 + BlankUnits(g, b[..|b| - g.Units(1)]) else 0
  }

  /** The lone status bytes behind other records. */
  function Hidden(recs: seq<Rec>): nat {
    if |recs| <= 1 then 0 else Hidden(recs[..|recs| - 1]) + if IsStub(recs[|recs| - 1]) then 1 else 0
  }

  function Min(a: nat, b: nat): nat {
    if a < b then a else b
  }

  /** The free offset that `read_sector_info` finds: the lengths seen, then the search for the last run of 0xFF. */
  function FreeOffset(g: Geometry, recs: seq<Rec>): int {
    if recs == [] then 0 else Used(recs) - g.Units(Min(Hidden(recs), BlankUnits(g, Body(g, recs[|recs| - 1]))))
  }

  /** The record ends with a write unit that does not look erased. */
  predicate EndsFirm(g: Geometry, r: Rec) {
    BlankUnits(g, Body(g, r)) == 0
  }

  /** The free offset is the true one exactly if no lone status byte is hidden or the last record ends firmly. */
  lemma FreeOffsetIff(g: Geometry, recs: seq<Rec>)
    requires recs != []
    ensures FreeOffset(g, recs) <= Used(recs)
    ensures FreeOffset(g, recs) == Used(recs) <==> Hidden(recs) == 0 || EndsFirm(g, recs[|recs| - 1])
  {
    hide BlankUnits, Body, Hidden, Used;
  }

  // ---------- The condition on flash ----------

  predicate Torn(r: Rec) {
    r.stage.HeaderDone? || r.stage.NameDone?
  }

  predicate RecFirm(g: Geometry, single: Single, r: Rec, torn: bool) {
    && (Torn(r) ==> torn && single(r.name, r.value))
    && (torn && (r.status.Written? || r.status.PreDelete?) ==> EndsFirm(g, r))
  }

  ghost predicate SectorFirm(g: Geometry, single: Single, sec: Sector, torn: bool) {
    && (forall i: nat :: i < |sec.recs| ==> RecFirm(g, single, sec.recs[i], torn))
    && (if torn then sec.store.Using? ==> FreeOffset(g, sec.recs) == Used(sec.recs) else Hidden(sec.recs) == 0)
  }

  /**
   Traversals see this flash as it is. Without `torn` no power loss has left anything behind;
   with it the free offsets of the sectors in use are found, the live records end firmly, and no
   unfinished record holds a second magic word.
   */
  ghost predicate Firm(g: Geometry, single: Single, fl: Flash, torn: bool) {
    forall s: nat :: s < |fl| ==> SectorFirm(g, single, fl[s], torn)
  }

  lemma {:induction false} HiddenAppend(recs: seq<Rec>, r: Rec)
    ensures Hidden(recs + [r]) == Hidden(recs) + if |recs| > 0 && IsStub(r) then 1 else 0
  {
    assert (recs + [r])[..|recs|] == recs;
  }

  lemma {:induction false} HiddenSame(a: seq<Rec>, b: seq<Rec>)
    requires |a| == |b| && forall i :: 0 <= i < |a| ==> (IsStub(a[i]) <==> IsStub(b[i]))
    ensures Hidden(a) == Hidden(b)
  {
    if |a| > 1 {
      HiddenSame(a[..|a| - 1], b[..|b| - 1]);
    }
  }

  /** Only statuses differ, and no status byte comes or goes alone. */
  ghost predicate SameBodies(a: seq<Rec>, b: seq<Rec>) {
    && |a| == |b|
    && forall i :: 0 <= i < |a| ==> b[i].(status := a[i].status) == a[i] && (IsStub(a[i]) <==> IsStub(b[i]))
  }

  lemma SameBodiesOffset(g: Geometry, a: seq<Rec>, b: seq<Rec>)
    requires SameBodies(a, b)
    ensures Used(a) == Used(b) && Hidden(a) == Hidden(b) && FreeOffset(g, a) == FreeOffset(g, b)
  {
    assert forall i :: 0 <= i < |a| ==> a[i].len == b[i].len;
    UsedSameLens(a, b);
    HiddenSame(a, b);
    if a != [] {
      assert Body(g, a[|a| - 1]) == Body(g, b[|b| - 1]);
    }
  }

  lemma FirmAt(g: Geometry, single: Single, fl: Flash, torn: bool, l: Loc)
    requires Firm(g, single, fl, torn) && In(fl, l)
    ensures RecFirm(g, single, At(fl, l), torn)
  {
    assert SectorFirm(g, single, fl[l.sec], torn);
  }

  /** A status change that does not make a record live. */
  lemma FirmStatus(g: Geometry, single: Single, fl: Flash, torn: bool, l: Loc, status: KvStatus)
    requires Firm(g, single, fl, torn) && In(fl, l) && !At(fl, l).stage.StatusOnly?
    requires status.Written? || status.PreDelete? ==> At(fl, l).status.Written? || At(fl, l).status.PreDelete?
    ensures Firm(g, single, SetStatus(fl, l, status), torn)
  {
    hide FreeOffset, Hidden, Used, BlankUnits, Body;
    var fl' := SetStatus(fl, l, status);
    var a, b := fl[l.sec].recs, fl'[l.sec].recs;
    assert SectorFirm(g, single, fl[l.sec], torn) && RecFirm(g, single, At(fl, l), torn);
    forall i: nat | i < |b|
      ensures RecFirm(g, single, b[i], torn) && b[i].(status := a[i].status) == a[i] && (IsStub(a[i]) <==> IsStub(b[i]))
    {
      assert RecFirm(g, single, a[i], torn);
      assert In(fl', Loc(l.sec, i)) && At(fl', Loc(l.sec, i)) == b[i];
      FirmBody(g, a[i], b[i]);
    }
    SameBodiesOffset(g, a, b);
    assert SectorFirm(g, single, fl'[l.sec], torn);
  }

  lemma FirmBody(g: Geometry, a: Rec, b: Rec)
    requires b.(status := a.status) == a
    ensures EndsFirm(g, a) <==> EndsFirm(g, b)
  {
    assert Body(g, a) == Body(g, b);
  }

  /** Header changes, with Empty only leading to Using without records. */
  lemma FirmHead(g: Geometry, single: Single, fl: Flash, torn: bool, s: nat, store: StoreStatus, dirty: DirtyStatus)
    requires Firm(g, single, fl, torn) && s < |fl|
    requires store.Using? ==> fl[s].store.Using? || fl[s].recs == []
    ensures Firm(g, single, SetHead(fl, s, store, dirty), torn)
  {
    hide FreeOffset, Hidden, RecFirm;
    assert SectorFirm(g, single, fl[s], torn);
    NoOffset(g);
  }

  lemma NoOffset(g: Geometry)
    ensures FreeOffset(g, []) == Used([]) == 0 && Hidden([]) == 0
  {
  }

  lemma FirmDel(g: Geometry, single: Single, fl: Flash, torn: bool, l: Loc, complete: bool)
    requires Firm(g, single, fl, torn) && In(fl, l) && At(fl, l).stage.Complete?
    requires At(fl, l).status.Written? || At(fl, l).status.PreDelete?
    ensures Firm(g, single, AfterDel(fl, l, complete), torn)
  {
    hide Firm;
    FirmStatus(g, single, fl, torn, l, if complete then Deleted else PreDelete);
    var a := Marked(fl, l, complete);
    if a[l.sec].dirty.Clean? {
      FirmHead(g, single, a, torn, l.sec, a[l.sec].store, Dirty);
    }
  }

  /** The record that `name` and `value` make. */
  function Finished(g: Geometry, name: Name, value: Value): Rec {
    NewRec(g, Written, Complete, name, value)
  }

  lemma FirmCreate(g: Geometry, single: Single, fl: Flash, torn: bool, t: nat, name: Name, value: Value)
    requires g.Valid() && Space(g, fl) && Firm(g, single, fl, torn) && t < |fl|
    requires torn ==> EndsFirm(g, Finished(g, name, value))
    ensures Firm(g, single, AfterCreate(g, fl, t, name, value), torn)
  {
    hide FreeOffset, Hidden, BlankUnits, Body, RecOk;
    var fl', r := AfterCreate(g, fl, t, name, value), Finished(g, name, value);
    var recs := fl[t].recs;
    assert SectorFirm(g, single, fl[t], torn);
    HiddenAppend(recs, r);
    FreeOffsetIff(g, recs + [r]);
    assert fl'[t].recs == recs + [r];
    forall i: nat | i < |recs| + 1
      ensures RecFirm(g, single, (recs + [r])[i], torn)
    {
      assert i < |recs| ==> RecFirm(g, single, recs[i], torn);
    }
    assert SectorFirm(g, single, fl'[t], torn);
    assert forall s: nat :: s < |fl| && s != t ==> fl'[s] == fl[s];
  }

  lemma FirmTouched(g: Geometry, single: Single, a: Flash, b: Flash, torn: bool)
    requires Firm(g, single, a, torn) && Touched(g, a, b)
    ensures Firm(g, single, b, torn)
  {
    forall s: nat | s < |b|
      ensures SectorFirm(g, single, b[s], torn)
    {
      assert SectorFirm(g, single, a[s], torn);
    }
  }

  lemma FirmErased(g: Geometry, single: Single, fl: Flash, torn: bool, s: nat)
    requires Firm(g, single, fl, torn) && s < |fl|
    ensures Firm(g, single, fl[s := Sector(true, Empty, Clean, [])], torn)
  {
  }

  lemma FirmFormatted(g: Geometry, single: Single, fl: Flash, torn: bool)
    requires forall s: nat :: s < |fl| ==> fl[s] == Sector(true, Empty, Clean, [])
    ensures Firm(g, single, fl, torn)
  {
  }

  // ---------- Updates ----------

  lemma FinishedEnds(g: Geometry, r: Rec)
    requires r.stage.Complete?
    ensures EndsFirm(g, Finished(g, r.name, r.value)) <==> EndsFirm(g, r)
  {
    assert Body(g, Finished(g, r.name, r.value)) == Body(g, r);
  }

  lemma FirmUpdate(g: Geometry, single: Single, fl: Flash, torn: bool, prev: Option<Loc>, t: nat, key: Name,
                   value: Value)
    requires g.Valid() && Space(g, fl) && Firm(g, single, fl, torn) && t < |fl|
    requires prev.Some? ==>
      In(fl, prev.value) && At(fl, prev.value).stage.Complete? && At(fl, prev.value).status.Written?
    requires prev.Some? ==> Space(g, AfterDel(fl, prev.value, false))
    requires torn ==> EndsFirm(g, Finished(g, key, value))
    ensures Firm(g, single, AfterUpdate(g, fl, prev, t, key, value), torn)
  {
    hide Firm, Space, AfterCreate, AfterDel, EndsFirm;
    if prev.None? {
      FirmCreate(g, single, fl, torn, t, key, value);
    } else {
      FirmDel(g, single, fl, torn, prev.value, false);
      AfterDelFrame(g, fl, prev.value, false, t, 0);
      FirmCreate(g, single, AfterDel(fl, prev.value, false), torn, t, key, value);
      CreateFrame(g, AfterDel(fl, prev.value, false), t, key, value, prev.value);
      FirmDel(g, single, MidUpdate(g, fl, prev.value, t, key, value), torn, prev.value, true);
    }
  }

  // ---------- Power loss ----------

  /** On flash without remnants, all of whose live records end firmly, the condition holds with `torn` too. */
  lemma FirmBeforeLoss(g: Geometry, single: Single, fl: Flash)
    requires Firm(g, single, fl, false)
    requires forall l :: In(fl, l) && (At(fl, l).status.Written? || At(fl, l).status.PreDelete?) ==>
      EndsFirm(g, At(fl, l))
    ensures Firm(g, single, fl, true) && forall s: nat :: s < |fl| ==> Hidden(fl[s].recs) == 0
  {
    hide BlankUnits, Body, Hidden, Used;
    forall s: nat | s < |fl|
      ensures SectorFirm(g, single, fl[s], true) && Hidden(fl[s].recs) == 0
    {
      assert SectorFirm(g, single, fl[s], false);
      forall i: nat | i < |fl[s].recs|
        ensures RecFirm(g, single, fl[s].recs[i], true)
      {
        assert In(fl, Loc(s, i)) && At(fl, Loc(s, i)) == fl[s].recs[i];
        assert RecFirm(g, single, fl[s].recs[i], false);
      }
      if fl[s].recs != [] {
        FreeOffsetIff(g, fl[s].recs);
      } else {
        NoOffset(g);
      }
    }
  }

  /** A record at the end of a sector: exactly one behind a hidden status byte must end firmly. */
  lemma FirmUnfinished(g: Geometry, single: Single, fl: Flash, t: nat, r: Rec)
    requires Firm(g, single, fl, true) && t < |fl| && RecFirm(g, single, r, true)
    ensures Firm(g, single, AddRec(fl, t, r), true) <==>
      (fl[t].store.Using? ==> Hidden(fl[t].recs) == 0 || EndsFirm(g, r))
  {
    hide BlankUnits, Used, FreeOffset, Hidden;
    var recs, fl' := fl[t].recs, AddRec(fl, t, r);
    assert SectorFirm(g, single, fl[t], true);
    HiddenAppend(recs, r);
    FreeOffsetIff(g, recs + [r]);
    StubEnds(g, r);
    forall i: nat | i < |recs| + 1
      ensures RecFirm(g, single, (recs + [r])[i], true)
    {
      assert i < |recs| ==> RecFirm(g, single, recs[i], true);
    }
    assert fl'[t].recs == recs + [r] && fl'[t].store == fl[t].store;
    assert SectorFirm(g, single, fl'[t], true) <==> (fl[t].store.Using? ==> Hidden(recs) == 0 || EndsFirm(g, r));
  }

  lemma StubEnds(g: Geometry, r: Rec)
    ensures IsStub(r) ==> EndsFirm(g, r)
  {
  }

  /** Sector `t` is in use and ends with a record cut short, behind a lone status byte. */
  ghost predicate TornBehind(g: Geometry, fl: Flash, t: nat) {
    && t < |fl| && fl[t].store.Using? && Hidden(fl[t].recs) > 0
    && var r := fl[t].recs[|fl[t].recs| - 1]; Torn(r) && !EndsFirm(g, r)
  }

  /**
   Power loss in the update phase, on flash with or without remnants of earlier ones, the new
   record ending firmly and holding one magic word: traversals see the flash as it is, unless a
   record was cut short behind a lone status byte.
   */
  lemma LossStaysFirm(g: Geometry, single: Single, fl: Flash, prev: Option<Loc>, t: nat, key: Name, value: Value)
    requires g.Valid() && Space(g, fl) && Firm(g, single, fl, true) && t < |fl|
    requires prev.Some? ==>
      In(fl, prev.value) && At(fl, prev.value).stage.Complete? && At(fl, prev.value).status.Written?
    requires prev.Some? ==>
      Space(g, AfterDel(fl, prev.value, false)) && Space(g, MidUpdate(g, fl, prev.value, t, key, value))
    requires EndsFirm(g, Finished(g, key, value)) && single(key, value)
    ensures
      var w := UpdateWrites(g, fl, prev, t, key, value);
      forall i :: 0 <= i < |w| ==> (Firm(g, single, w[i], true) <==> !TornBehind(g, w[i], t))
  {
    hide Firm, Space, EndsFirm, AfterCreate, CreateWrites, DelWrites, AfterDel, TornBehind;
    EmptyHasNone(g, fl, t);
    if prev.None? {
      CreateStaysFirm(g, single, fl, t, key, value);
    } else {
      var l := prev.value;
      var fl1, fl2 := AfterDel(fl, l, false), MidUpdate(g, fl, l, t, key, value);
      DelStaysFirm(g, single, fl, l, false, t);
      AfterDelFrame(g, fl, l, false, t, 0);
      EmptyHasNone(g, fl1, t);
      CreateStaysFirm(g, single, fl1, t, key, value);
      CreateFrame(g, fl1, t, key, value, l);
      FirmCreate(g, single, fl1, true, t, key, value);
      DelStaysFirm(g, single, fl2, l, true, t);
    }
  }

  /** Where no status byte is hidden, no power loss in that sector spoils anything. */
  lemma NothingBehind(g: Geometry, fl: Flash, t: nat, r: Rec)
    requires t < |fl| && Hidden(fl[t].recs) == 0
    ensures !TornBehind(g, AddRec(fl, t, r), t)
  {
    HiddenAppend(fl[t].recs, r);
    assert AddRec(fl, t, r)[t].recs == fl[t].recs + [r];
  }

  lemma FirmNotBehind(g: Geometry, single: Single, fl: Flash, t: nat)
    requires Firm(g, single, fl, true)
    ensures !TornBehind(g, fl, t)
  {
    hide BlankUnits, Body, Used, Hidden;
    if t < |fl| && fl[t].recs != [] {
      assert SectorFirm(g, single, fl[t], true);
      FreeOffsetIff(g, fl[t].recs);
    } else if t < |fl| {
      NoneHidden();
    }
  }

  lemma EmptyHasNone(g: Geometry, fl: Flash, t: nat)
    requires g.Valid() && Space(g, fl) && t < |fl|
    ensures fl[t].store.Empty? ==> fl[t].recs == []
  {
    assert SectorOk(g, fl[t]);
  }

  lemma NoneHidden()
    ensures Hidden([]) == 0
  {
  }

  /** There the free offset is found too low, but only by blank units at the end of the record cut short. */
  lemma TornBehindBlank(g: Geometry, fl: Flash, t: nat)
    requires TornBehind(g, fl, t)
    ensures
      var recs := fl[t].recs;
      && recs != [] && FreeOffset(g, recs) < Used(recs)
      && Used(recs) <= FreeOffset(g, recs) + g.Units(BlankUnits(g, Body(g, recs[|recs| - 1])))
  {
    hide Body, BlankUnits;
    if fl[t].recs == [] {
      NoneHidden();
    }
    FreeOffsetIff(g, fl[t].recs);
  }

  lemma DelStaysFirm(g: Geometry, single: Single, fl: Flash, l: Loc, complete: bool, t: nat)
    requires Firm(g, single, fl, true) && In(fl, l) && At(fl, l).stage.Complete?
    requires At(fl, l).status.Written? || At(fl, l).status.PreDelete?
    ensures Firm(g, single, AfterDel(fl, l, complete), true)
    ensures
      var w := DelWrites(fl, l, complete);
      forall i :: 0 <= i < |w| ==> Firm(g, single, w[i], true) && !TornBehind(g, w[i], t)
  {
    hide Firm, TornBehind;
    var a, b := Marked(fl, l, complete), AfterDel(fl, l, complete);
    FirmStatus(g, single, fl, true, l, if complete then Deleted else PreDelete);
    FirmDel(g, single, fl, true, l, complete);
    FirmNotBehind(g, single, a, t);
    FirmNotBehind(g, single, b, t);
  }

  /** One write of a creation. */
  lemma StageStaysFirm(g: Geometry, single: Single, fl: Flash, t: nat, r: Rec)
    requires Firm(g, single, fl, true) && t < |fl| && RecFirm(g, single, r, true) && (Torn(r) || EndsFirm(g, r))
    ensures Firm(g, single, AddRec(fl, t, r), true) <==> !TornBehind(g, AddRec(fl, t, r), t)
  {
    hide BlankUnits, Body, Used, Hidden, Firm, EndsFirm;
    var x := AddRec(fl, t, r);
    FirmUnfinished(g, single, fl, t, r);
    HiddenAppend(fl[t].recs, r);
    assert x[t].recs == fl[t].recs + [r] && x[t].recs[|fl[t].recs|] == r;
  }

  lemma CreateStaysFirm(g: Geometry, single: Single, fl: Flash, t: nat, key: Name, value: Value)
    requires Firm(g, single, fl, true) && t < |fl| && EndsFirm(g, Finished(g, key, value)) && single(key, value)
    requires fl[t].store.Empty? ==> fl[t].recs == []
    ensures
      var w := CreateWrites(g, fl, t, key, value);
      forall i :: 0 <= i < |w| ==> (Firm(g, single, w[i], true) <==> !TornBehind(g, w[i], t))
  {
    hide Firm, BlankUnits, Used, Geometry.KvLen, TornBehind;
    var len := g.KvLen(key, value);
    var fl1 := AfterPlace(g, fl, t, len);
    FirmHead(g, single, fl, true, t, PlacedStore(g, fl[t], len), fl[t].dirty);
    FirmNotBehind(g, single, fl1, t);
    StubEnds(g, Stub(g));
    assert EndsFirm(g, NewRec(g, PreWrite, Complete, key, value))
      && EndsFirm(g, NewRec(g, Written, Complete, key, value));
    hide EndsFirm, Body;
    StageStaysFirm(g, single, fl1, t, Stub(g));
    StageStaysFirm(g, single, fl1, t, NewRec(g, PreWrite, HeaderDone, key, value));
    StageStaysFirm(g, single, fl1, t, NewRec(g, PreWrite, NameDone, key, value));
    StageStaysFirm(g, single, fl1, t, NewRec(g, PreWrite, Complete, key, value));
    StageStaysFirm(g, single, fl1, t, NewRec(g, Written, Complete, key, value));
  }

  /**
   Why the condition is needed. A power loss leaves a lone status byte behind the records of a
   sector, and a later record goes behind it: a traversal then finds the true free offset exactly
   if that record ends firmly; otherwise the next record would be programmed over its end.
   */
  lemma LostByte(g: Geometry, recs: seq<Rec>, name: Name, value: Value)
    requires recs != [] && Hidden(recs) == 0
    ensures
      var after := recs + [Stub(g)] + [Finished(g, name, value)];
      && (FreeOffset(g, after) == Used(after) <==> EndsFirm(g, Finished(g, name, value)))
      && (!EndsFirm(g, Finished(g, name, value)) ==> FreeOffset(g, after) == Used(after) - g.Units(1))
  {
    hide BlankUnits, Body, Used;
    var r := Finished(g, name, value);
    var after := recs + [Stub(g)] + [r];
    HiddenAppend(recs, Stub(g));
    HiddenAppend(recs + [Stub(g)], r);
    FreeOffsetIff(g, after);
    assert after[|after| - 1] == r;
  }

  /** The smallest case, in a sector that is in order: a record, a lone status byte, a value that is the byte 0xFF. */
  lemma LostByteExample()
    ensures
      var g := Geometry(200, 28, false);
      var sec := Sector(true, Using, Clean, [Finished(g, [1], [2]), Stub(g), Finished(g, [3], [0xFF])]);
      && g.Valid() && SectorOk(g, sec) && !Unsettled(sec) && Used(sec.recs) == 61 && FreeOffset(g, sec.recs) == 60
  {
    hide FreeOffset, EndsFirm, Used, SectorOk;
    var g := Geometry(200, 28, false);
    var a, b, c := Finished(g, [1], [2]), Stub(g), Finished(g, [3], [0xFF]);
    var recs := [] + [a] + [b] + [c];
    ExampleRecords(g, a, c);
    NoOffset(g);
    UsedAppend([], a);
    UsedAppend([] + [a], b);
    UsedAppend([] + [a] + [b], c);
    var start := Sector(true, Using, Clean, []);
    StartOk(g, start);
    AddRecSector(g, start, a);
    AddRecSector(g, start.(recs := [] + [a]), b);
    AddRecSector(g, start.(recs := [] + [a] + [b]), c);
    assert recs == [a, b, c] && [] + [a] == [a];
    LostByte(g, [a], [3], [0xFF]);
    BlankByte(g);
  }

  lemma StartOk(g: Geometry, sec: Sector)
    requires g.Valid() && sec == Sector(true, Using, Clean, [])
    ensures SectorOk(g, sec)
  {
  }

  lemma ExampleRecords(g: Geometry, a: Rec, c: Rec)
    requires g == Geometry(200, 28, false) && a == Finished(g, [1], [2]) && c == Finished(g, [3], [0xFF])
    ensures a.len == 30 && c.len == 30 && RecOk(g, a) && RecOk(g, c) && RecOk(g, Stub(g)) && Stub(g).len == 1
    ensures !IsJunk(a) && !IsJunk(c) && !IsStub(a)
  {
  }

  lemma BlankByte(g: Geometry)
    requires !g.words
    ensures !EndsFirm(g, Finished(g, [3], [0xFF]))
  {
    var body := Body(g, Finished(g, [3], [0xFF]));
    assert body == [3, 0xFF];
    assert body[1..] == [0xFF];
  }

  // ---------- Reading a sector ----------

  /** The summing loop of `read_sector_info`, over the records that have a magic word or come first. */
  method SumSeen(g: Geometry, recs: seq<Rec>) returns (seen: nat, hidden: nat)
    requires forall i :: 0 <= i < |recs| && IsStub(recs[i]) ==> recs[i].len == g.Units(1)
    ensures hidden == Hidden(recs) && seen + g.Units(hidden) == Used(recs)
  {
    seen, hidden := 0, 0;
    for i := 0 to |recs|
      invariant hidden == Hidden(recs[..i]) && seen + g.Units(hidden) == Used(recs[..i])
    {
      UsedStep(recs, i);
      assert recs[..i + 1] == recs[..i] + [recs[i]];
      HiddenAppend(recs[..i], recs[i]);
      if i > 0 && IsStub(recs[i]) {
        hidden := hidden + 1;
      } else {
        seen := seen + recs[i].len;
      }
    }
    assert recs[..|recs|] == recs;
  }

  /** The end of `read_sector_info`: from where the lengths seen lead, forward to the last run of blank units. */
  method FindFree(g: Geometry, recs: seq<Rec>) returns (off: int)
    requires recs != [] && forall i :: 0 <= i < |recs| && IsStub(recs[i]) ==> recs[i].len == g.Units(1)
    ensures off == FreeOffset(g, recs)
  {
    hide BlankUnits, Body, Hidden, Used;
    var seen, hidden := SumSeen(g, recs);
    var blank := BlankUnits(g, Body(g, recs[|recs| - 1]));
    off := seen;
    if blank < hidden {
      off := seen + g.Units(hidden - blank);
    }
  }

  lemma StubLens(g: Geometry, sec: Sector)
    requires g.Valid() && SectorOk(g, sec)
    ensures forall i :: 0 <= i < |sec.recs| && IsStub(sec.recs[i]) ==> sec.recs[i].len == g.Units(1)
  {
    forall i | 0 <= i < |sec.recs| && IsStub(sec.recs[i])
      ensures sec.recs[i].len == g.Units(1)
    {
      assert RecOk(g, sec.recs[i]);
    }
  }

  /** A sector in use that is firm: the offset found is the true one. */
  lemma FoundIsTrue(g: Geometry, single: Single, fl: Flash, torn: bool, s: nat)
    requires Firm(g, single, fl, torn) && s < |fl| && fl[s].store.Using? && fl[s].recs != []
    ensures FreeOffset(g, fl[s].recs) == Used(fl[s].recs)
  {
    hide BlankUnits, Body, Used, RecFirm;
    assert SectorFirm(g, single, fl[s], torn);
    FreeOffsetIff(g, fl[s].recs);
  }
}
