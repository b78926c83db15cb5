/**
 A collection write by write: which flash it leaves, and that a power loss at any of its writes
 leaves a flash that the next boot is proved for.
 */
module KvGcTrace {
  import opened Options
  import opened KvFlash
  import opened KvSteps
  import opened KvWrites
  import opened KvUpdate
  import opened KvRoom
  import opened KvGc
  import opened KvIndex
  import opened KvRecovery
  import opened KvResume
  import opened KvGcCrash
  import opened KvGcRoom

  /** The writes of `move_kv` when record `i` of sector `s` is live. */
  ghost function TurnWrites(g: Geometry, fl: Flash, s: nat, i: nat): seq<Flash>
    requires s < |fl| && i < |fl[s].recs|
  {
    var r, l := fl[s].recs[i], Loc(s, i);
    if !Active(r) || !r.status.Written? then []
    else
      var a := AfterDel(fl, l, false);
      if Placeable(g, a, r.len) then
        var t: nat :| t < |a| && Chosen(g, a, true, t, r.len);
        UpdateWrites(g, fl, Some(l), t, r.name, r.value)
      else DelWrites(fl, l, false)
  }

  /** The writes of the loop of `do_gc` from record `i` on. */
  ghost function LoopWrites(g: Geometry, fl: Flash, s: nat, i: nat, n: nat): seq<Flash>
    requires s < |fl|
    decreases n - i
  {
    if i >= n || i >= |fl[s].recs| then []
    else
      var x := Turn(g, fl, s, i);
      TurnWrites(g, fl, s, i) + if s < |x| then LoopWrites(g, x, s, i + 1, n) else []
  }

  function GcMarked(fl: Flash, s: nat): (r: Flash)
    requires s < |fl|
    ensures |r| == |fl| && |r[s].recs| == |fl[s].recs|
  {
    SetHead(fl, s, fl[s].store, Gc)
  }

  /** The flash after `do_gc` on sector `s`. */
  ghost function AfterGc(g: Geometry, fl: Flash, s: nat): Flash
    requires s < |fl|
  {
    if fl[s].dirty.Clean? then fl
    else
      var x := Collected(g, GcMarked(fl, s), s, 0, |fl[s].recs|);
      if s < |x| then WriteSectorHeader(Erase(x, s), s) else x
  }

  /** The writes of `do_gc` on sector `s`. */
  ghost function GcWrites(g: Geometry, fl: Flash, s: nat): seq<Flash>
    requires s < |fl|
  {
    if fl[s].dirty.Clean? then []
    else
      var x := Collected(g, GcMarked(fl, s), s, 0, |fl[s].recs|);
      [GcMarked(fl, s)] + LoopWrites(g, GcMarked(fl, s), s, 0, |fl[s].recs|)
      + if s < |x| then [Erase(x, s), WriteSectorHeader(Erase(x, s), s)] else []
  }

  /** The writes of `gc_collect` from sector `s` on. */
  ghost function AllGcWrites(g: Geometry, fl: Flash, s: nat): seq<Flash>
    decreases |fl| - s
  {
    if s >= |fl| then []
    else
      var x := AfterGc(g, fl, s);
      GcWrites(g, fl, s) + if |x| == |fl| then AllGcWrites(g, x, s + 1) else []
  }

  // ---------- What the methods do, turn by turn ----------

  /** A live record for which the allocator chooses `t`. */
  lemma LiveTurn(g: Geometry, fl: Flash, idx: Index, pw: set<Loc>, s: nat, i: nat, n: nat, t: nat)
    requires g.Valid() && Space(g, fl) && Mid(fl, idx, None, pw) && Shape(g, fl, s, n) && i < n
    requires Active(fl[s].recs[i]) && fl[s].recs[i].status.Written?
    requires t < |fl| && Chosen(g, AfterDel(fl, Loc(s, i), false), true, t, fl[s].recs[i].len)
    ensures
      var r, l := fl[s].recs[i], Loc(s, i);
      && Turn(g, fl, s, i) == AfterUpdate(g, fl, Some(l), t, r.name, r.value)
      && TurnWrites(g, fl, s, i) == UpdateWrites(g, fl, Some(l), t, r.name, r.value)
  {
    hide Mid, Space, Chosen, RecOk, Live, AfterDel, AfterUpdate, UpdateWrites, Turn, Recov, Contents;
    var r, l := fl[s].recs[i], Loc(s, i);
    var a := AfterDel(fl, l, false);
    assert At(fl, l) == r;
    DelPreSteps(g, fl, idx, pw, l);
    LiveIff(a, idx - {r.name}, Some(l), pw, r.name);
    MarkedShape(g, fl, s, i, n);
    AfterDelIn(fl, l);
    var t' := TurnPlaces(g, fl, a, s, i, n);
    ChosenUnique(g, a, true, t, t', r.len);
    TurnWritesIs(g, fl, s, i, t);
  }

  lemma AfterDelIn(fl: Flash, l: Loc)
    requires In(fl, l)
    ensures In(AfterDel(fl, l, false), l) && |AfterDel(fl, l, false)| == |fl|
  {
  }

  lemma TurnWritesIs(g: Geometry, fl: Flash, s: nat, i: nat, t: nat)
    requires s < |fl| && i < |fl[s].recs| && Active(fl[s].recs[i]) && fl[s].recs[i].status.Written?
    requires t < |fl| && Chosen(g, AfterDel(fl, Loc(s, i), false), true, t, fl[s].recs[i].len)
    ensures TurnWrites(g, fl, s, i) == UpdateWrites(g, fl, Some(Loc(s, i)), t, fl[s].recs[i].name, fl[s].recs[i].value)
  {
    var r, a := fl[s].recs[i], AfterDel(fl, Loc(s, i), false);
    hide Chosen, UpdateWrites, AfterDel;
    AfterDelIn(fl, Loc(s, i));
    assert Placeable(g, a, r.len);
    forall t': nat | t' < |a| && Chosen(g, a, true, t', r.len)
      ensures t' == t
    {
      ChosenUnique(g, a, true, t, t', r.len);
    }
  }

  lemma TurnSilent(g: Geometry, fl: Flash, s: nat, i: nat)
    requires s < |fl| && i < |fl[s].recs| && !Active(fl[s].recs[i])
    ensures TurnWrites(g, fl, s, i) == []
  {
  }

  lemma SectorShape(g: Geometry, fl: Flash, s: nat)
    requires g.Valid() && Space(g, fl) && s < |fl| && fl[s].dirty.Gc?
    ensures Shape(g, fl, s, |fl[s].recs|)
  {
    assert SectorOk(g, fl[s]);
  }

  /** A record waiting in PRE_DELETE for which the allocator chooses `t`. */
  lemma WaitingTurn(g: Geometry, fl: Flash, s: nat, i: nat, t: nat)
    requires s < |fl| && i < |fl[s].recs| && Active(fl[s].recs[i]) && fl[s].recs[i].status.PreDelete?
    requires t < |fl| && Chosen(g, fl, true, t, fl[s].recs[i].len)
    ensures Turn(g, fl, s, i) == MovedAgain(g, fl, Loc(s, i), t, Live(fl, fl[s].recs[i].name))
  {
    var r := fl[s].recs[i];
    hide Chosen, MovedAgain, Live;
    assert Placeable(g, fl, r.len);
    forall t': nat | t' < |fl| && Chosen(g, fl, true, t', r.len)
      ensures t' == t
    {
      ChosenUnique(g, fl, true, t, t', r.len);
    }
  }

  /** One more turn of the loop. */
  lemma LoopStep(g: Geometry, fl: Flash, s: nat, i: nat, n: nat)
    requires s < |fl| && i < n == |fl[s].recs| && s < |Turn(g, fl, s, i)|
    ensures Collected(g, fl, s, i, n) == Collected(g, Turn(g, fl, s, i), s, i + 1, n)
    ensures LoopWrites(g, fl, s, i, n) == TurnWrites(g, fl, s, i) + LoopWrites(g, Turn(g, fl, s, i), s, i + 1, n)
  {
    hide Turn, TurnWrites;
  }

  /** Records that are not moved need no turn. */
  lemma {:induction false} LoopIdle(g: Geometry, fl: Flash, s: nat, i: nat, j: nat, n: nat)
    requires s < |fl| && i <= j <= n == |fl[s].recs| && forall k :: i <= k < j ==> !Active(fl[s].recs[k])
    ensures Collected(g, fl, s, i, n) == Collected(g, fl, s, j, n)
    ensures LoopWrites(g, fl, s, i, n) == LoopWrites(g, fl, s, j, n)
    decreases j - i
  {
    if i < j {
      TurnIdle(g, fl, s, i);
      hide Turn;
      LoopStep(g, fl, s, i, n);
      LoopIdle(g, fl, s, i + 1, j, n);
    }
  }

  lemma LoopEnds(g: Geometry, fl: Flash, s: nat, n: nat)
    requires s < |fl| && |fl[s].recs| == n
    ensures Collected(g, fl, s, n, n) == fl && LoopWrites(g, fl, s, n, n) == []
  {
  }

  lemma MarkedAgain(fl: Flash, s: nat)
    requires s < |fl| && fl[s].dirty.Gc?
    ensures GcMarked(fl, s) == fl
  {
  }

  /** The sector has been emptied: `x` is what is erased and formatted. */
  lemma GcDone(g: Geometry, b: Flash, a: Flash, x: Flash, s: nat, n: nat)
    requires s < |b| && |b[s].recs| == n && !b[s].dirty.Clean? && s < |x|
    requires a == GcMarked(b, s) && x == Collected(g, a, s, 0, n)
    ensures
      var y := x[s := Sector(true, Empty, Clean, [])];
      AfterGc(g, b, s) == y && GcWrites(g, b, s) == [a] + LoopWrites(g, a, s, 0, n) + [Erase(x, s), y]
  {
    hide Collected, LoopWrites, GcMarked;
  }

  lemma GcNothing(g: Geometry, fl: Flash, s: nat)
    requires s < |fl| && fl[s].dirty.Clean?
    ensures GcWrites(g, fl, s) == []
  {
  }

  lemma Joined(log: seq<Flash>, x: Flash, w: seq<Flash>, end: seq<Flash>)
    ensures log + [x] + w + end == log + ([x] + w + end)
  {
  }

  // ---------- Power loss at any write ----------

  /** What a power loss at a write of an operation can leave, `m` being the map to bring back. */
  ghost predicate Crashed(g: Geometry, x: Flash, m: map<Name, Value>)
    requires g.Valid()
  {
    && Bare(x)
    && (Interrupted(g, Headed(x), m) || AtRest(g, Headed(x), m) || exists s :: InterruptedGc(g, Headed(x), m, s))
  }

  ghost predicate AllCrashed(g: Geometry, w: seq<Flash>, m: map<Name, Value>)
    requires g.Valid()
  {
    forall j :: 0 <= j < |w| ==> Crashed(g, w[j], m)
  }

  lemma CrashedJoin(g: Geometry, a: seq<Flash>, b: seq<Flash>, m: map<Name, Value>)
    requires g.Valid() && AllCrashed(g, a, m) && AllCrashed(g, b, m)
    ensures AllCrashed(g, a + b, m)
  {
    hide Crashed;
  }

  lemma CrashedFew(g: Geometry, x: Flash, y: Flash, m: map<Name, Value>)
    requires g.Valid()
    ensures AllCrashed(g, [], m) && (Crashed(g, x, m) ==> AllCrashed(g, [x], m))
    ensures Crashed(g, x, m) && Crashed(g, y, m) ==> AllCrashed(g, [x, y], m)
  {
    hide Crashed;
  }

  lemma GcCrashed(g: Geometry, x: Flash, m: map<Name, Value>, s: nat)
    requires g.Valid() && InterruptedGc(g, x, m, s)
    ensures Crashed(g, x, m)
  {
    hide Interrupted, AtRest;
    assert Space(g, x);
    HeadersFine(g, x);
    hide InterruptedGc;
  }

  lemma GcAllCrashed(g: Geometry, w: seq<Flash>, m: map<Name, Value>, s: nat)
    requires g.Valid() && AllInGc(g, w, m, s)
    ensures AllCrashed(g, w, m)
  {
    hide InterruptedGc, Crashed;
    forall j | 0 <= j < |w|
      ensures Crashed(g, w[j], m)
    {
      GcCrashed(g, w[j], m, s);
    }
  }

  /** A move leaves read sectors read. */
  lemma MovedSettled(g: Geometry, fl: Flash, x: Flash, s: nat, i: nat, t: nat, added: bool)
    requires s < |fl| && i < |fl[s].recs| && MovedTo(g, fl, x, s, i, t, added) && Settled(fl)
    ensures Settled(x) && forall j: nat :: j < |fl| ==> x[j].dirty == fl[j].dirty
  {
    hide Used;
    assert x[s].recs[i].status.Deleted?;
    if added {
      assert x[t].recs[|fl[t].recs|].status.Written?;
    }
  }

  /** The state of a collection that nothing has interrupted. */
  ghost predicate Going(g: Geometry, fl: Flash, idx: Index, s: nat, i: nat, n: nat) {
    Sweep(g, fl, idx, None, {}, s, i, n) && Settled(fl) && GcAt(fl, s) && FitsFrom(g, fl, s, i, n)
  }

  /** One turn of it. */
  lemma GoingStep(g: Geometry, fl: Flash, idx: Index, s: nat, i: nat, n: nat) returns (idx': Index)
    requires Going(g, fl, idx, s, i, n) && i < n
    ensures
      var x := Turn(g, fl, s, i);
      && |x| == |fl| && Going(g, x, idx', s, i + 1, n) && Contents(x, idx') == Contents(fl, idx)
      && AllInGc(g, TurnWrites(g, fl, s, i), Contents(fl, idx), s)
  {
    hide Mid, Space, Recov, Contents, Turn, Shape, FitsFrom, Settled, InterruptedGc;
    SweepShape(g, fl, idx, None, {}, s, i, n);
    var pd', k;
    idx', pd', k := SweepStep(g, fl, idx, None, {}, s, i, n);
    var r, x := fl[s].recs[i], Turn(g, fl, s, i);
    RecovNone(fl, idx, {});
    RecovNone(x, idx', {});
    if !Active(r) {
      TurnIdle(g, fl, s, i);
    } else {
      GoingMove(g, fl, idx, s, i, n);
    }
  }

  lemma GoingMove(g: Geometry, fl: Flash, idx: Index, s: nat, i: nat, n: nat)
    requires Going(g, fl, idx, s, i, n) && i < n && Active(fl[s].recs[i])
    ensures Settled(Turn(g, fl, s, i)) && GcAt(Turn(g, fl, s, i), s) && |Turn(g, fl, s, i)| == |fl|
    ensures AllInGc(g, TurnWrites(g, fl, s, i), Contents(fl, idx), s)
  {
    var r, l := fl[s].recs[i], Loc(s, i);
    assert In(fl, l) && At(fl, l) == r;
    NoneWaiting(fl, idx, {}, l);
    LenIs(g, r);
    hide Mid, Space, Contents, Turn, TurnWrites, UpdateWrites, AfterUpdate, AfterDel, FitsFrom, Settled, InterruptedGc,
      AllInGc, RecOk, MovedTo, Chosen;
    var t := FitsMove(g, fl, s, i, n);
    ChosenNotGc(g, fl, l, t, r.len);
    LiveTurn(g, fl, idx, {}, s, i, n, t);
    MoveInterrupted(g, fl, idx, l, t);
    UpdateShape(g, fl, s, i, t);
    MovedSettled(g, fl, Turn(g, fl, s, i), s, i, t, true);
    MovedSize(g, fl, Turn(g, fl, s, i), s, i, t);
  }

  lemma MovedSize(g: Geometry, fl: Flash, x: Flash, s: nat, i: nat, t: nat)
    requires s < |fl| && i < |fl[s].recs| && MovedTo(g, fl, x, s, i, t, true)
    ensures |x| == |fl|
  {
  }

  /** The whole loop: all its writes, and the state it ends in. */
  lemma {:induction false} GoingAll(g: Geometry, fl: Flash, idx: Index, s: nat, i: nat, n: nat) returns (idx': Index)
    requires Going(g, fl, idx, s, i, n)
    ensures
      var x := Collected(g, fl, s, i, n);
      && |x| == |fl| && Going(g, x, idx', s, n, n) && Contents(x, idx') == Contents(fl, idx)
      && AllInGc(g, LoopWrites(g, fl, s, i, n), Contents(fl, idx), s)
    decreases n - i
  {
    hide Mid, Space, Contents, Turn, TurnWrites, FitsFrom, Settled, InterruptedGc, Shape, GcAt;
    SweepShape(g, fl, idx, None, {}, s, i, n);
    if i < n {
      hide Sweep;
      var x := Turn(g, fl, s, i);
      var idx1 := GoingStep(g, fl, idx, s, i, n);
      SweepShape(g, x, idx1, None, {}, s, i + 1, n);
      LoopStep(g, fl, s, i, n);
      idx' := GoingAll(g, x, idx1, s, i + 1, n);
    } else {
      idx' := idx;
      LoopEnds(g, fl, s, n);
    }
  }

  /** Between operations, or between the sectors of a collection: the sectors before `s` are clean. */
  ghost predicate Resting(g: Geometry, fl: Flash, idx: Index, s: nat) {
    && g.Valid() && Space(g, fl) && Settled(fl) && Mid(fl, idx, None, {}) && EmptySet(fl) != {}
    && forall j: nat :: j < s && j < |fl| ==> fl[j].dirty.Clean?
  }

  /** The GC mark starts a collection that finds room. */
  lemma GoingStart(g: Geometry, fl: Flash, idx: Index, s: nat)
    requires Resting(g, fl, idx, s) && s < |fl| && !fl[s].dirty.Clean?
    ensures
      var x := GcMarked(fl, s);
      && Going(g, x, idx, s, 0, |fl[s].recs|) && Contents(x, idx) == Contents(fl, idx)
      && InterruptedGc(g, x, Contents(fl, idx), s)
  {
    var x, n := GcMarked(fl, s), |fl[s].recs|;
    assert SectorOk(g, fl[s]);
    var f :| f in EmptySet(fl);
    assert SectorOk(g, fl[f]) && f != s && x[f] == fl[f];
    MarkedSectors(g, fl, s);
    assert Collecting(g, x, s, fl[s].recs, 0, f) by {
      assert Used([]) == 0;
    }
    hide Mid, Space, Contents, InterruptedGc, Collecting, FitsFrom, EmptySet, Recov;
    MarkInterrupted(g, fl, idx, s);
    SetHeadMid(fl, idx, None, {}, s, fl[s].store, Gc);
    RecovNone(fl, idx, {});
    RecovNone(x, idx, {});
    ReserveFits(g, x, idx, {}, s, fl[s].recs, 0, f);
    SweepNone(g, x, idx, {}, s, 0, n);
  }

  lemma MarkedSectors(g: Geometry, fl: Flash, s: nat)
    requires g.Valid() && Space(g, fl) && Settled(fl) && s < |fl| && !fl[s].dirty.Clean?
    ensures
      var x := GcMarked(fl, s);
      Space(g, x) && Settled(x) && Shape(g, x, s, |fl[s].recs|) && forall j: nat :: j < |fl| && j != s ==> x[j] == fl[j]
  {
    var x := GcMarked(fl, s);
    assert SectorOk(g, fl[s]);
    assert SectorOk(g, x[s]);
  }

  /** Collecting sector `s`: power loss at any of the writes, and the state between the sectors. */
  lemma GcCrashes(g: Geometry, fl: Flash, idx: Index, s: nat) returns (idx': Index)
    requires Resting(g, fl, idx, s) && s < |fl|
    ensures
      var x := AfterGc(g, fl, s);
      && |x| == |fl| && Resting(g, x, idx', s + 1) && Contents(x, idx') == Contents(fl, idx)
      && AllCrashed(g, GcWrites(g, fl, s), Contents(fl, idx))
  {
    var m := Contents(fl, idx);
    hide Mid, Space, Contents, InterruptedGc, FitsFrom, EmptySet, Collected, LoopWrites, Crashed, GcMarked, Settled,
      AllCrashed, AllInGc, Going;
    CrashedFew(g, fl, fl, m);
    if fl[s].dirty.Clean? {
      idx' := idx;
    } else {
      var n, a := |fl[s].recs|, GcMarked(fl, s);
      GoingStart(g, fl, idx, s);
      idx' := GoingAll(g, a, idx, s, 0, n);
      GcCrashed(g, a, m, s);
      GcAllCrashed(g, LoopWrites(g, a, s, 0, n), m, s);
      var x := Collected(g, a, s, 0, n);
      FormatCrashes(g, x, idx', s, n);
      var w := LoopWrites(g, a, s, 0, n);
      CrashedFew(g, a, a, m);
      CrashedFew(g, Erase(x, s), WriteSectorHeader(Erase(x, s), s), m);
      CrashedJoin(g, [a], w, m);
      CrashedJoin(g, [a] + w, [Erase(x, s), WriteSectorHeader(Erase(x, s), s)], m);
    }
  }

  /** The emptied sector is erased and gets its header. */
  lemma FormatCrashes(g: Geometry, fl: Flash, idx: Index, s: nat, n: nat)
    requires Going(g, fl, idx, s, n, n)
    ensures s < |fl|
    ensures
      var a, b, m := Erase(fl, s), WriteSectorHeader(Erase(fl, s), s), Contents(fl, idx);
      && |b| == |fl| && Resting(g, b, idx, s + 1) && Contents(b, idx) == m && Crashed(g, a, m) && Crashed(g, b, m)
  {
    forall k | k in idx
      ensures idx[k].sec != s
    {
      assert In(fl, idx[k]);
    }
    hide InterruptedGc, Interrupted, FitsFrom, RecOk;
    ReclaimInterrupted(g, fl, idx, s);
    var a, b := Erase(fl, s), WriteSectorHeader(Erase(fl, s), s);
    EraseMid(fl, idx, {}, s);
    WriteSectorHeaderMid(a, idx, {}, s);
    HeadersFine(g, b);
  }

  /** A whole collection: power loss at any of its writes leaves a flash that boot is proved for. */
  lemma {:induction false} AllGcCrashes(g: Geometry, fl: Flash, idx: Index, s: nat, m: map<Name, Value>)
    requires Resting(g, fl, idx, s) && Contents(fl, idx) == m
    ensures AllCrashed(g, AllGcWrites(g, fl, s), m)
    decreases |fl| - s
  {
    hide Mid, Space, Contents, EmptySet, Crashed, Settled, GcWrites, AfterGc, AllCrashed, AllGcWrites;
    if s < |fl| {
      var idx' := GcCrashes(g, fl, idx, s);
      hide Resting;
      var x := AfterGc(g, fl, s);
      AllGcCrashes(g, x, idx', s + 1, m);
      AllGcStep(g, fl, s);
      CrashedJoin(g, GcWrites(g, fl, s), AllGcWrites(g, x, s + 1), m);
    } else {
      AllGcEnds(g, fl, s);
      CrashedFew(g, fl, fl, m);
    }
  }

  lemma AllGcStep(g: Geometry, fl: Flash, s: nat)
    requires s < |fl| && |AfterGc(g, fl, s)| == |fl|
    ensures AllGcWrites(g, fl, s) == GcWrites(g, fl, s) + AllGcWrites(g, AfterGc(g, fl, s), s + 1)
  {
    hide GcWrites, AfterGc;
  }

  lemma AllGcEnds(g: Geometry, fl: Flash, s: nat)
    requires s >= |fl|
    ensures AllGcWrites(g, fl, s) == []
  {
  }

  lemma GcStays(g: Geometry, fl: Flash, s: nat)
    requires s < |fl|
    ensures fl[s].dirty.Clean? ==> AfterGc(g, fl, s) == fl
  {
  }

  // ---------- The log of an operation ----------

  /** `b` extends `a` by snapshots that a boot is proved for, with one of the two maps. */
  ghost predicate CrashLogged(g: Geometry, a: seq<Flash>, b: seq<Flash>, m0: map<Name, Value>, m1: map<Name, Value>)
    requires g.Valid()
  {
    a <= b && forall i :: |a| <= i < |b| ==> Crashed(g, b[i], m0) || Crashed(g, b[i], m1)
  }

  lemma CrashRefl(g: Geometry, a: seq<Flash>, m0: map<Name, Value>, m1: map<Name, Value>)
    requires g.Valid()
    ensures CrashLogged(g, a, a, m0, m1) && a + [] == a
  {
  }

  lemma CrashTrans(g: Geometry, a: seq<Flash>, b: seq<Flash>, c: seq<Flash>, m0: map<Name, Value>, m1: map<Name, Value>)
    requires g.Valid() && CrashLogged(g, a, b, m0, m1) && CrashLogged(g, b, c, m0, m1)
    ensures CrashLogged(g, a, c, m0, m1)
  {
    hide Crashed;
    assert forall i :: |a| <= i < |b| ==> c[i] == b[i];
  }

  lemma CrashWeaken(g: Geometry, a: seq<Flash>, b: seq<Flash>, m0: map<Name, Value>, m1: map<Name, Value>)
    requires g.Valid() && CrashLogged(g, a, b, m0, m0)
    ensures CrashLogged(g, a, b, m0, m1) && CrashLogged(g, a, b, m1, m0)
  {
    hide Crashed;
  }

  lemma CollectCrashes(g: Geometry, log: seq<Flash>, fl: Flash, idx: Index, m: map<Name, Value>)
    requires g.Valid() && Space(g, fl) && Settled(fl) && Mid(fl, idx, None, {}) && EmptySet(fl) != {}
    requires Recov(fl, idx, None) == m
    ensures CrashLogged(g, log, log + AllGcWrites(g, fl, 0), m, m)
  {
    hide Mid, Space, Settled, EmptySet, Recov, Contents, Crashed, AllGcWrites;
    RecovNone(fl, idx, {});
    AllGcCrashes(g, fl, idx, 0, m);
    var w := AllGcWrites(g, fl, 0);
    assert forall i :: |log| <= i < |log + w| ==> (log + w)[i] == w[i - |log|];
  }

  /** The writes of an update or a deletion. */
  lemma UpdateCrashes(g: Geometry, log: seq<Flash>, w: seq<Flash>, m0: map<Name, Value>, m1: map<Name, Value>)
    requires g.Valid() && AllInterrupted(g, w, m0, m1)
    ensures CrashLogged(g, log, log + w, m0, m1)
  {
    hide Interrupted, Crashed;
    forall i | |log| <= i < |log + w|
      ensures Crashed(g, (log + w)[i], m0) || Crashed(g, (log + w)[i], m1)
    {
      assert (log + w)[i] == w[i - |log|];
      InterruptedCrashed(g, w[i - |log|], m0);
      InterruptedCrashed(g, w[i - |log|], m1);
    }
  }

  lemma InterruptedCrashed(g: Geometry, x: Flash, m: map<Name, Value>)
    requires g.Valid()
    ensures Interrupted(g, x, m) ==> Crashed(g, x, m)
  {
    if Interrupted(g, x, m) {
      HeadersFine(g, x);
    }
  }
}
