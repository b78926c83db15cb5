/** Between formats sectors only grow. */
module KvGrowth {
  import opened KvFlash
  import opened KvSteps
  import opened KvWrites

  /** Between formats, sectors keep their records and settled sectors stay settled. */
  ghost predicate Grows(a: Flash, b: Flash) {
    && |a| == |b|
    && (forall s: nat :: s < |a| && !Unsettled(a[s]) ==> !Unsettled(b[s]) && |a[s].recs| <= |b[s].recs|)
    && (forall s: nat :: s < |a| ==> (a[s].dirty.Gc? <==> b[s].dirty.Gc?))
  }

  lemma GrowsTrans(a: Flash, b: Flash, c: Flash)
    requires Grows(a, b) && Grows(b, c)
    ensures Grows(a, c)
  {
  }

  lemma GrowsTouched(g: Geometry, a: Flash, b: Flash)
    requires Touched(g, a, b)
    ensures Grows(a, b)
  {
  }

  lemma GrowsDel(fl: Flash, l: Loc, complete: bool)
    requires In(fl, l) && !IsStub(At(fl, l))
    ensures Grows(fl, AfterDel(fl, l, complete))
  {
    var fl' := AfterDel(fl, l, complete);
    assert fl'[l.sec].recs[l.idx] == At(fl', l);
  }

  lemma GrowsCreate(g: Geometry, fl: Flash, t: nat, key: Name, value: Value)
    requires t < |fl|
    ensures Grows(fl, AfterCreate(g, fl, t, key, value))
  {
    var fl' := AfterCreate(g, fl, t, key, value);
    assert fl'[t].recs[|fl[t].recs|] == NewRec(g, Written, Complete, key, value);
  }

  lemma GrowsRefl(a: Flash)
    ensures Grows(a, a)
  {
  }

  lemma AfterDelSettled(g: Geometry, fl: Flash, l: Loc, complete: bool)
    requires In(fl, l) && !IsStub(At(fl, l)) && Settled(fl)
    ensures Settled(AfterDel(fl, l, complete))
  {
    GrowsDel(fl, l, complete);
  }

  lemma GrowsSettled(a: Flash, b: Flash)
    requires Grows(a, b) && Settled(a)
    ensures Settled(b)
  {
  }

  lemma GrowsNoGc(a: Flash, b: Flash)
    requires Grows(a, b)
    ensures NoGc(a) <==> NoGc(b)
  {
  }

  lemma SettledNow(fl: Flash)
    requires forall s: nat :: s < |fl| ==> !Unsettled(fl[s])
    ensures Settled(fl)
  {
  }
}
