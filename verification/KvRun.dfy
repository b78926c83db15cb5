/** Whole runs of the key-value database: power loss with reboot, and sequences of operations. */
module KvRun {
  import opened KvConfig
  import opened Options
  import opened WriteUnits
  import opened KvFlash
  import opened KvSteps
  import opened KvCache
  import opened KvCoherence
  import opened KvLog
  import opened KvRoom
  import opened KvIndex
  import opened KvRecovery
  import opened KvDb
  import opened KvFirm
  import opened KvResume
  import opened KvWrites
  import opened KvUpdate
  import opened KvGcTrace
  import opened KvTidy

  // ---------- Formatting and recovery ----------

  /** Booting a flash that holds no sector header gives an empty database. */
  method Format(g: Geometry, hash: Hash, single: Single, fl: Flash, keys: seq<KvSlot>, slots: seq<SecSlot>)
    returns (db: Kvdb)
    requires g.Valid() && |fl| > 1 && Cleared(keys, slots)
    requires forall s: nat :: s < |fl| ==> !fl[s].hdrOk && fl[s].recs == []
    ensures fresh(db) && db.Valid() && db.Map() == map[] && db.g == g && db.hash == hash && !db.torn
    ensures |db.flash| == |fl| && forall s: nat :: s < |fl| ==> db.flash[s] == Sector(true, Empty, Clean, [])
    ensures NoGc(db.flash) && Tidy(g, db.flash)
  {
    hide SecCacheOk, Firm, KvCacheOk, Logged, CanTake, Resumable, Tidy;
    db := new Kvdb.Open(g, hash, single, fl, keys, slots, map[], false);
    FormattedOk(g, Headed(fl));
    FirmFormatted(g, single, Headed(fl), false);
    ghost var pd, pw;
    var at;
    at, pd, pw := db.Load(None, {}, 0, 0);
    RecovNone(db.flash, db.index, {});
    TidyFormatted(g, db.flash);
  }

  /** At boot there is room for the record whose replacement was interrupted. */
  ghost predicate RoomAtBoot(g: Geometry, fl: Flash, f: nat) {
    forall l :: In(fl, l) && At(fl, l).status.PreDelete? ==> CanTake(g, fl, f, At(fl, l).len)
  }

  /** A power loss left the map `m`, and the boot has the room it needs. */
  ghost predicate Restorable(g: Geometry, fl: Flash, m: map<Name, Value>, f: nat, s: nat)
    requires g.Valid()
  {
    || (Interrupted(g, fl, m) && RoomAtBoot(g, fl, f))
    || (InterruptedGc(g, fl, m, s) && RoomForGc(g, fl, s))
    || AtRest(g, fl, m)
  }

  lemma RestorableLoads(g: Geometry, single: Single, fl: Flash, m: map<Name, Value>, f: nat, s: nat, torn: bool)
    returns (idx: Index, pd: Option<Loc>, pw: set<Loc>)
    requires g.Valid() && Restorable(g, fl, m, f, s) && Firm(g, single, fl, torn)
    ensures Mid(fl, idx, pd, pw) && Recov(fl, idx, pd) == m && |pw| <= 1 && Loadable(g, single, torn, fl, pd, pw, f, s)
  {
    hide Firm, Recov, Contents, EmptySet, CanTake, Space, Settled, NoGc, RoomForGc, Midway, Loadable;
    if Interrupted(g, fl, m) && RoomAtBoot(g, fl, f) {
      idx, pd, pw :| Mid(fl, idx, pd, pw) && Recov(fl, idx, pd) == m && |pw| <= 1 && (pw == {} || Settled(fl));
      CalmLoads(g, single, fl, idx, pd, pw, f, s, torn);
    } else if AtRest(g, fl, m) {
      idx :| Mid(fl, idx, None, {}) && Contents(fl, idx) == m;
      pd, pw := None, {};
      RecovNone(fl, idx, {});
      RestLoads(g, single, fl, f, s, torn);
    } else {
      idx, pd, pw :| Mid(fl, idx, pd, pw) && Recov(fl, idx, pd) == m && |pw| <= 1 && Midway(g, fl, s, pd, pw);
      ResumableIf(g, fl, idx, pd, pw, s);
      GcLoads(g, single, fl, idx, pd, pw, f, s, torn);
    }
  }

  lemma CalmLoads(g: Geometry, single: Single, fl: Flash, idx: Index, pd: Option<Loc>, pw: set<Loc>, f: nat, s: nat,
                  torn: bool)
    requires g.Valid() && Space(g, fl) && NoGc(fl) && EmptySet(fl) != {} && Firm(g, single, fl, torn)
    requires Mid(fl, idx, pd, pw) && (pw == {} || Settled(fl)) && RoomAtBoot(g, fl, f)
    ensures Loadable(g, single, torn, fl, pd, pw, f, s)
  {
    hide Firm, EmptySet, CanTake, Space, Settled, NoGc, Resumable;
  }

  lemma RestLoads(g: Geometry, single: Single, fl: Flash, f: nat, s: nat, torn: bool)
    requires g.Valid() && Space(g, fl) && Settled(fl) && EmptySet(fl) != {} && Firm(g, single, fl, torn)
    ensures Loadable(g, single, torn, fl, None, {}, f, s)
  {
    hide Firm, EmptySet, CanTake, Space, Settled, NoGc, RoomToResume;
  }

  lemma GcLoads(g: Geometry, single: Single, fl: Flash, idx: Index, pd: Option<Loc>, pw: set<Loc>, f: nat, s: nat,
                torn: bool)
    requires g.Valid() && Space(g, fl) && Firm(g, single, fl, torn) && Resumable(g, fl, pd, pw, s) && !NoGc(fl)
    requires s < |fl| && Mid(fl, idx, pd, pw) && Midway(g, fl, s, pd, pw)
    ensures Loadable(g, single, torn, fl, pd, pw, f, s)
  {
    hide Firm, EmptySet, CanTake, Space, NoGc, Mid, RoomToResume, KeptApart, Unplaced, WaitsFirst;
  }

  /** Record `l` holds the only copy of its key and lies behind `p`, where the first boot stops. */
  ghost predicate Missed(fl: Flash, p: Loc, l: Loc) {
    && In(fl, l) && At(fl, l).status.PreDelete? && Before(p, l) && !Live(fl, At(fl, l).name)
    && (NoGc(fl) || |EmptySet(fl)| > 1)
  }

  /** What is found after the boot that stopped at `p`: everything, or all but the key that is missed. */
  ghost predicate SeenAfter(fl: Flash, p: Loc, m: map<Name, Value>, seen: map<Name, Value>) {
    && (forall l :: Missed(fl, p, l) ==> seen == m - {At(fl, l).name})
    && ((forall l :: !Missed(fl, p, l)) ==> seen == m)
  }

  ghost predicate Unfinished(fl: Flash, p: Loc) {
    In(fl, p) && At(fl, p).status.PreWrite? && !At(fl, p).stage.StatusOnly?
  }

  lemma UnfinishedIff(fl: Flash, idx: Index, pd: Option<Loc>, pw: set<Loc>, p: Loc)
    requires Mid(fl, idx, pd, pw)
    ensures Unfinished(fl, p) <==> p in pw
  {
  }

  /** Without the key that waits, the index gives the rest of the map. */
  lemma FoundSoFar(fl: Flash, idx: Index, pd: Option<Loc>, pw: set<Loc>, m: map<Name, Value>)
    returns (seen: map<Name, Value>)
    requires Mid(fl, idx, pd, pw) && Recov(fl, idx, pd) == m
    ensures pd.Some? ==> In(fl, pd.value)
    ensures seen == if pd.Some? && At(fl, pd.value).name !in idx then m - {At(fl, pd.value).name} else m
    ensures seen == Contents(fl, idx)
  {
    seen := Contents(fl, idx);
    if pd.Some? && At(fl, pd.value).name !in idx {
      assert seen == m - {At(fl, pd.value).name};
    }
  }

  /** The index and the map determine the key that waits. */
  lemma SameWaiting(a: Flash, b: Flash, idx: Index, pw: set<Loc>, pw': set<Loc>, l: Loc, m: map<Name, Value>)
    requires Mid(a, idx, Some(l), pw) && Mid(b, idx, Some(l), pw')
    requires Recov(a, idx, Some(l)) == m == Recov(b, idx, Some(l))
    ensures In(a, l) && In(b, l) && (At(a, l).name in idx <==> At(b, l).name in idx)
    ensures At(a, l).name !in idx ==> At(a, l).name == At(b, l).name
  {
    var x, y := At(a, l).name, At(b, l).name;
    assert m.Keys == idx.Keys + {x};
    assert m.Keys == idx.Keys + {y};
    assert x in m.Keys && y in m.Keys;
  }

  /** What is missed is the record that still waits. */
  lemma MissedIff(fl: Flash, idx: Index, pd: Option<Loc>, pw: set<Loc>, p: Loc, l: Loc)
    requires Mid(fl, idx, pd, pw)
    ensures Missed(fl, p, l) <==>
      pd == Some(l) && StillWaiting(fl, pd) == pd && Before(p, l) && In(fl, l) && At(fl, l).name !in idx
  {
    if In(fl, l) {
      LiveIff(fl, idx, pd, pw, At(fl, l).name);
    }
    hide Live, NoGc, EmptySet;
  }

  /** The first boot stopped at `at`, or not at all. */
  lemma SeenAfterStop(fl: Flash, idx: Index, pd: Option<Loc>, pw: set<Loc>, fl1: Flash, idx1: Index, pd1: Option<Loc>,
                      pw1: set<Loc>,
                      at: Option<Loc>, m: map<Name, Value>) returns (seen: map<Name, Value>)
    requires Mid(fl, idx, pd, pw) && |pw| <= 1 && Mid(fl1, idx1, pd1, pw1) && Recov(fl1, idx1, pd1) == m
    requires if at.Some? then StoppedAt(at.value, StillWaiting(fl, pd), pw, pd1, pw1) else pw == {} && pd1 == None
    requires (pd1.Some? ==> idx1 == idx) && Recov(fl, idx, pd) == m
    ensures pw == {} ==> seen == m
    ensures forall p :: p in pw ==> SeenAfter(fl, p, m, seen)
  {
    hide Mid, Recov, Contents, Missed;
    seen := FoundSoFar(fl1, idx1, pd1, pw1, m);
    if pd1.Some? {
      SameWaiting(fl, fl1, idx, pw, pw1, pd1.value, m);
    }
    forall p | p in pw
      ensures SeenAfter(fl, p, m, seen)
    {
      assert pw == {p} by {
        assert |pw - {p}| == 0;
      }
      forall l
        ensures Missed(fl, p, l) <==> pd1 == Some(l) && At(fl, l).name !in idx
      {
        MissedIff(fl, idx, pd, pw, p, l);
      }
    }
  }

  /**
   After a power loss at any write of the update phase of `set_kv` or of a collection, at most
   two boots restore the state between operations with exactly the map that was on flash. A
   sector whose erase or header write was the last thing done is formatted first.
   */
  method Recover(g: Geometry, hash: Hash, single: Single, fl: Flash, keys: seq<KvSlot>, slots: seq<SecSlot>,
                 ghost m: map<Name, Value>, ghost f: nat, ghost s: nat, ghost torn: bool)
    returns (db: Kvdb, boots: nat, ghost seen: map<Name, Value>)
    requires g.Valid() && |fl| > 1 && Cleared(keys, slots) && Bare(fl) && Restorable(g, Headed(fl), m, f, s)
    requires Firm(g, single, Headed(fl), torn)
    ensures fresh(db) && db.Valid() && db.Map() == m && db.g == g && db.hash == hash && db.single == single
    ensures db.torn == torn
    // one boot is enough exactly if no record is unfinished; `seen` is what is found after the first
    ensures boots == if exists p :: Unfinished(fl, p) then 2 else 1
    ensures boots == 1 ==> seen == m
    ensures forall p :: Unfinished(fl, p) ==> SeenAfter(Headed(fl), p, m, seen)
  {
    hide Mid, SecCacheOk, Firm, KvCacheOk, Recov, Contents, EmptySet, NoGc, CanTake, Logged, Settled, Loadable,
      Restorable,
      StoppedAt, SeenAfter, Unfinished;
    ghost var idx, pd, pw := RestorableLoads(g, single, Headed(fl), m, f, s, torn);
    SameRecsMid(Headed(fl), fl, idx, pd, pw);
    db := new Kvdb.Open(g, hash, single, fl, keys, slots, idx, torn);
    boots := 1;
    var at;
    ghost var pd1, pw1;
    at, pd1, pw1 := db.Load(pd, pw, f, s);
    seen := SeenAfterStop(Headed(fl), idx, pd, pw, db.flash, db.index, pd1, pw1, at, m);
    forall p
      ensures Unfinished(fl, p) <==> p in pw
    {
      UnfinishedIff(fl, idx, pd, pw, p);
    }
    if at.Some? {
      assert pw1 == {};
      HeadersFine(g, db.flash);
      db := new Kvdb.Open(g, hash, single, db.flash, keys, slots, db.index, torn);
      boots := 2;
      ghost var pd2, pw2;
      at, pd2, pw2 := db.Load(pd1, pw1, f, s);
    }
    RecovNone(db.flash, db.index, {});
  }

  // ---------- Crash-free runs ----------

  datatype Op = Set(key: Name, value: Value) | Del(key: Name) | Get(key: Name, bufLen: nat)

  datatype Out = Status(e: Error) | Data(data: Value, valueLen: nat)

  /** The flash `fl` is in order and holds exactly the map `m`. */
  ghost predicate Represents(g: Geometry, fl: Flash, m: map<Name, Value>) {
    g.Valid() && Space(g, fl) && exists idx :: Mid(fl, idx, None, {}) && Contents(fl, idx) == m
  }

  /**
   What an operation on the map `m` may answer, `fl` being the flash behind it: a refusal for
   want of space is honest, and on a flash that no power loss has touched it means that the live
   records themselves fill every sector but the reserved one.
   */
  ghost predicate Answer(g: Geometry, m: map<Name, Value>, op: Op, out: Out, fl: Flash) {
    match op
    case Set(key, value) =>
      && out.Status? && (out.e.KvNameErr? ==> |key| > NAME_MAX) && (out.e.NoErr? ==> |key| < NAME_MAX)
      && (out.e.SavedFull? ==> g.KvLen(key, value) >= g.payload || FullFor(g, fl, g.KvLen(key, value)))
      && (out.e.SavedFull? && g.KvLen(key, value) < g.payload && Tidy(g, fl) ==> Crowded(g, m, |fl|, key, value))
    case Del(key) => out == Status(if key in m then NoErr else KvNameErr)
    case Get(key, bufLen) =>
      if key !in m then out == Data([], 0)
      else
        && out.Data? && out.data <= m[key] && out.valueLen == |m[key]|
        && |out.data| == if bufLen < |m[key]| then bufLen else |m[key]|
  }

  /** The records of the map and the new one, or the threshold, leave no room in `n` sectors. */
  ghost predicate Crowded(g: Geometry, m: map<Name, Value>, n: int, key: Name, value: Value) {
    MapBytes(g, m) >= (n - 1) * (g.payload - Max(g.KvLen(key, value), g.kvHdr + 64))
  }

  /** The map after an operation with this answer. */
  ghost function After(m: map<Name, Value>, op: Op, out: Out): map<Name, Value> {
    match op
    case Set(key, value) => if out == Status(NoErr) then m[key := value] else m
    case Del(key) => m - {key}
    case Get(_, _) => m
  }

  ghost function AfterAll(m: map<Name, Value>, ops: seq<Op>, outs: seq<Out>): map<Name, Value>
    requires |ops| == |outs|
  {
    if ops == [] then m
    else After(AfterAll(m, ops[..|ops| - 1], outs[..|ops| - 1]), ops[|ops| - 1], outs[|ops| - 1])
  }

  /** What the source asks of an operation's arguments. */
  ghost predicate OpOk(g: Geometry, torn: bool, op: Op) {
    op.Set? ==>
      && (torn ==> EndsFirm(g, Finished(g, op.key, op.value)))
      && |op.key| != NAME_MAX
      && (g.KvLen(op.key, op.value) <= g.payload - g.Threshold() || g.KvLen(op.key, op.value) >= g.payload)
  }

  /** No name is ever taken for another by the key table, whatever the values. */
  ghost predicate Distinct(g: Geometry, hash: Hash, names: set<Name>) {
    forall a, b, v: Value :: a in names && b in names && a != b && hash(a) == hash(b) ==> !NameSaved(g, a, v, b)
  }

  /** Names of which none begins with another are never confused, whatever the hash. */
  lemma PrefixFreeDistinct(g: Geometry, hash: Hash, names: set<Name>)
    requires forall a, b :: a in names && b in names && a != b ==> !(a <= b)
    ensures Distinct(g, hash, names)
  {
    forall a, b, v: Value | a in names && b in names && a != b && NameSaved(g, a, v, b)
      ensures false
    {
      SavedPrefix(g, a, v, b);
    }
  }

  /** A name is taken for another only if one of them begins with the other. */
  lemma SavedPrefix(g: Geometry, name: Name, value: Value, key: Name)
    requires NameSaved(g, name, value, key)
    ensures key <= name || name <= key
  {
    var p := PadTo(g.words, name);
    assert p[..|name|] == name && forall i :: 0 <= i < |name| ==> p[i] == name[i];
    assert forall i :: 0 <= i < |key| && i < |name| ==> key[i] == (p + value)[i] == name[i];
  }

  lemma KeysNoClash(db: Kvdb, names: set<Name>, key: Name)
    requires db.Valid() && Distinct(db.g, db.hash, names) && db.Map().Keys <= names && key in names
    ensures db.NoClash(key)
  {
    hide NameSaved, Kvdb.Valid, Kvdb.Map;
  }

  /** No sector is lost, and a flash in the state of a run without power loss stays in it. */
  ghost predicate StaysTidy(g: Geometry, a: Flash, b: Flash) {
    |b| == |a| && (Tidy(g, a) ==> Tidy(g, b))
  }

  lemma TidySteps(g: Geometry, a: Flash, b: Flash, c: Flash)
    ensures StaysTidy(g, a, a) && (StaysTidy(g, a, b) && StaysTidy(g, b, c) ==> StaysTidy(g, a, c))
  {
    hide Tidy;
  }

  /** One operation answers and changes the map as specified. */
  method Do(db: Kvdb, op: Op, ghost names: set<Name>) returns (out: Out)
    requires db.Valid() && OpOk(db.g, db.torn, op) && Distinct(db.g, db.hash, names) && db.Map().Keys <= names
    requires op.key in names
    modifies db
    ensures db.Valid() && Answer(db.g, old(db.Map()), op, out, db.flash) && db.Map() == After(old(db.Map()), op, out)
    ensures db.Map().Keys <= names
    ensures NoGc(old(db.flash)) ==>
      NoGc(db.flash) && CrashLogged(db.g, old(db.trace), db.trace, old(db.Map()), db.Map())
    ensures StaysTidy(db.g, old(db.flash), db.flash)
  {
    hide Mid, Space, SecCacheOk, Firm, KvCacheOk, Contents, EmptySet, NoGc, Logged, Settled, Geometry.KvLen, Distinct,
      EndsFirm, NoUsingFits, CrashLogged, Chosen, AfterUpdate, AllGcWrites, AfterDel, Tidy, MapBytes, Max;
    ghost var m := db.Map();
    CrashRefl(db.g, db.trace, m, m);
    KeysNoClash(db, names, op.key);
    match op
    case Set(key, value) =>
      var e := db.SetKv(key, value);
      out := Status(e);
    case Del(key) =>
      var e := db.DelKey(key);
      out := Status(e);
      assert key !in m ==> m - {key} == m;
    case Get(key, bufLen) =>
      var data, valueLen := db.GetKv(key, bufLen);
      out := Data(data, valueLen);
  }

  lemma ValidRepresents(db: Kvdb)
    requires db.Valid()
    ensures Represents(db.g, db.flash, db.Map())
  {
    assert Mid(db.flash, db.index, None, {});
  }

  /** The flash `x` is one that a boot is proved for, with the map before or behind some operation of the run. */
  ghost predicate CrashInRun(g: Geometry, x: Flash, m: map<Name, Value>, ops: seq<Op>, outs: seq<Out>)
    requires g.Valid() && |ops| == |outs|
  {
    exists i :: 0 <= i < |ops| && CrashAt(g, x, m, ops, outs, i)
  }

  ghost predicate CrashAt(g: Geometry, x: Flash, m: map<Name, Value>, ops: seq<Op>, outs: seq<Out>, i: nat)
    requires g.Valid() && i < |ops| == |outs|
  {
    || Crashed(g, x, AfterAll(m, ops[..i], outs[..i]))
    || Crashed(g, x, AfterAll(m, ops[..i + 1], outs[..i + 1]))
  }

  ghost predicate AllInRun(g: Geometry, a: seq<Flash>, b: seq<Flash>, m: map<Name, Value>, ops: seq<Op>, outs: seq<Out>)
    requires g.Valid() && |ops| == |outs|
  {
    a <= b && forall j :: |a| <= j < |b| ==> CrashInRun(g, b[j], m, ops, outs)
  }

  /** One more operation, with the snapshots from `b` to `c`. */
  lemma InRunMore(g: Geometry, a: seq<Flash>, b: seq<Flash>, c: seq<Flash>, m: map<Name, Value>, ops: seq<Op>,
                  outs: seq<Out>, n: nat)
    requires g.Valid() && n < |ops| && |outs| == n + 1 && AllInRun(g, a, b, m, ops[..n], outs[..n])
    requires CrashLogged(g, b, c, AfterAll(m, ops[..n], outs[..n]), AfterAll(m, ops[..n + 1], outs))
    ensures AllInRun(g, a, c, m, ops[..n + 1], outs)
  {
    hide Crashed, AfterAll;
    forall j | |a| <= j < |c|
      ensures CrashInRun(g, c[j], m, ops[..n + 1], outs)
    {
      assert ops[..n + 1][..n] == ops[..n] && ops[..n + 1][..n + 1] == ops[..n + 1] && outs[..n + 1] == outs;
      if j < |b| {
        assert c[j] == b[j];
        var i :| 0 <= i < n && CrashAt(g, b[j], m, ops[..n], outs[..n], i);
        assert ops[..n + 1][..i] == ops[..n][..i] && outs[..i] == outs[..n][..i];
        assert ops[..n + 1][..i + 1] == ops[..n][..i + 1] && outs[..i + 1] == outs[..n][..i + 1];
        assert CrashAt(g, c[j], m, ops[..n + 1], outs, i);
      } else {
        assert CrashAt(g, c[j], m, ops[..n + 1], outs, n);
      }
    }
  }

  /**
   Every run of set, delete and get refines a finite map: each answer is the one the map gives
   at that point, whatever allocations, sector changes and collections happened in between. `fls`
   is the flash behind each operation; a set is refused only when that flash is full for it.
   */
  method Run(db: Kvdb, ops: seq<Op>, ghost names: set<Name>) returns (outs: seq<Out>, ghost fls: seq<Flash>)
    requires db.Valid() && Distinct(db.g, db.hash, names) && db.Map().Keys <= names
    requires forall i :: 0 <= i < |ops| ==> OpOk(db.g, db.torn, ops[i]) && ops[i].key in names
    modifies db
    ensures |outs| == |ops| == |fls| && db.Valid() && db.Map() == AfterAll(old(db.Map()), ops, outs)
    ensures forall i :: 0 <= i < |ops| ==> Answered(db.g, old(db.Map()), ops, outs, fls, i)
    // a power loss at any write of the run leaves a flash that the next boot is proved for
    ensures NoGc(old(db.flash)) ==> NoGc(db.flash) && AllInRun(db.g, old(db.trace), db.trace, old(db.Map()), ops, outs)
    ensures forall i :: 0 <= i < |ops| ==> StaysTidy(db.g, old(db.flash), fls[i])
  {
    GeometryOk(db);
    hide NoGc, AllInRun, CrashLogged, Kvdb.Valid, Answer, After, OpOk, Distinct, Represents, AfterAll, Kvdb.Map,
      Answered, StaysTidy, Answers;
    ghost var m, a := db.Map(), db.flash;
    outs, fls := [], [];
    TidySteps(db.g, a, a, a);
    AnswersNone(db.g, m, ops, a);
    AfterNone(m, ops);
    InRunNone(db.g, db.trace, m, ops);
    for n := 0 to |ops|
      invariant |outs| == n == |fls| && db.Valid() && db.Map().Keys <= names && db.Map() == AfterAll(m, ops[..n], outs)
      invariant Answers(db.g, m, ops, outs, fls, a) && StaysTidy(db.g, a, db.flash)
      invariant NoGc(a) ==> NoGc(db.flash) && AllInRun(db.g, old(db.trace), db.trace, m, ops[..n], outs)
    {
      ghost var log, before, fl := db.trace, outs, db.flash;
      var out := Do(db, ops[n], names);
      TidySteps(db.g, a, fl, db.flash);
      ValidRepresents(db);
      AfterOneMore(m, ops, outs, out);
      AnsweredMore(db.g, m, ops, outs, out, fls, db.flash, a);
      outs := outs + [out];
      fls := fls + [db.flash];
      if NoGc(a) {
        assert outs[..n] == before;
        InRunMore(db.g, old(db.trace), log, db.trace, m, ops, outs, n);
      }
    }
    assert ops[..|ops|] == ops;
    AnswersEach(db.g, m, ops, outs, fls, a);
  }

  /**
   A run from a formatted flash refines the empty map, and a record that a sector can hold is
   refused only when the records stored by then fill every sector but one, up to the room that
   the record or the threshold takes: deleted and replaced records never count.
   */
  method FreshRun(g: Geometry, hash: Hash, single: Single, fl: Flash, keys: seq<KvSlot>, slots: seq<SecSlot>,
                  ops: seq<Op>, ghost names: set<Name>) returns (db: Kvdb, outs: seq<Out>)
    requires g.Valid() && |fl| > 1 && Cleared(keys, slots) && Distinct(g, hash, names)
    requires forall s: nat :: s < |fl| ==> !fl[s].hdrOk && fl[s].recs == []
    requires forall i :: 0 <= i < |ops| ==> OpOk(g, false, ops[i]) && ops[i].key in names
    ensures db.Valid() && |outs| == |ops| && db.Map() == AfterAll(map[], ops, outs)
    ensures forall i :: 0 <= i < |ops| && ops[i].Set? && outs[i] == Status(SavedFull) ==>
      || g.KvLen(ops[i].key, ops[i].value) >= g.payload
      || Crowded(g, AfterAll(map[], ops[..i], outs[..i]), |fl|, ops[i].key, ops[i].value)
  {
    hide AllInRun, Kvdb.Valid, Answer, OpOk, Distinct, Represents, AfterAll, Kvdb.Map, Answered, Tidy, NoGc, Crowded,
      Geometry.KvLen, Cleared;
    db := Format(g, hash, single, fl, keys, slots);
    ghost var fls;
    outs, fls := Run(db, ops, names);
    forall i | 0 <= i < |ops| && ops[i].Set? && outs[i] == Status(SavedFull)
      ensures g.KvLen(ops[i].key, ops[i].value) >= g.payload
        || Crowded(g, AfterAll(map[], ops[..i], outs[..i]), |fl|, ops[i].key, ops[i].value)
    {
      assert Answered(g, map[], ops, outs, fls, i);
      RefusalCrowded(g, map[], ops, outs, fls, i);
    }
  }

  lemma RefusalCrowded(g: Geometry, m: map<Name, Value>, ops: seq<Op>, outs: seq<Out>, fls: seq<Flash>, i: nat)
    requires i < |outs| == |fls| <= |ops| && Answered(g, m, ops, outs, fls, i) && Tidy(g, fls[i])
    requires ops[i].Set? && outs[i] == Status(SavedFull)
    ensures
      || g.KvLen(ops[i].key, ops[i].value) >= g.payload
      || Crowded(g, AfterAll(m, ops[..i], outs[..i]), |fls[i]|, ops[i].key, ops[i].value)
  {
    hide AfterAll, Tidy, Crowded, Geometry.KvLen, Represents, FullFor;
  }

  /** Operation `i` answered as the map does at that point, and its flash holds the map behind it. */
  ghost predicate Answered(g: Geometry, m: map<Name, Value>, ops: seq<Op>, outs: seq<Out>, fls: seq<Flash>, i: nat)
    requires i < |outs| == |fls| <= |ops|
  {
    && Answer(g, AfterAll(m, ops[..i], outs[..i]), ops[i], outs[i], fls[i])
    && Represents(g, fls[i], AfterAll(m, ops[..i + 1], outs[..i + 1]))
  }

  /** Every operation so far has answered so, and no flash lost the state that `a` is in. */
  ghost predicate Answers(g: Geometry, m: map<Name, Value>, ops: seq<Op>, outs: seq<Out>, fls: seq<Flash>, a: Flash) {
    && |outs| == |fls| <= |ops|
    && forall i :: 0 <= i < |outs| ==> Answered(g, m, ops, outs, fls, i) && StaysTidy(g, a, fls[i])
  }

  lemma AnswersNone(g: Geometry, m: map<Name, Value>, ops: seq<Op>, a: Flash)
    ensures Answers(g, m, ops, [], [], a)
  {
  }

  lemma AnswersEach(g: Geometry, m: map<Name, Value>, ops: seq<Op>, outs: seq<Out>, fls: seq<Flash>, a: Flash)
    requires Answers(g, m, ops, outs, fls, a)
    ensures |outs| == |fls| <= |ops| && forall i :: 0 <= i < |outs| ==> Answered(g, m, ops, outs, fls, i)
    ensures forall i :: 0 <= i < |outs| ==> StaysTidy(g, a, fls[i])
  {
    hide Answered, StaysTidy;
  }

  lemma AnsweredMore(g: Geometry, m: map<Name, Value>, ops: seq<Op>, outs: seq<Out>, out: Out, fls: seq<Flash>,
                     fl: Flash, a: Flash)
    requires |outs| == |fls| < |ops| && Answers(g, m, ops, outs, fls, a) && StaysTidy(g, a, fl)
    requires
      var n := |outs|;
      && Answer(g, AfterAll(m, ops[..n], outs), ops[n], out, fl)
      && Represents(g, fl, AfterAll(m, ops[..n + 1], outs + [out]))
    ensures Answers(g, m, ops, outs + [out], fls + [fl], a)
  {
    hide Answer, Represents, AfterAll, StaysTidy;
    forall i | 0 <= i <= |outs|
      ensures Answered(g, m, ops, outs + [out], fls + [fl], i)
    {
      assert (outs + [out])[..i] == outs[..i];
      if i < |outs| {
        assert Answered(g, m, ops, outs, fls, i) && (outs + [out])[..i + 1] == outs[..i + 1];
      } else {
        assert (outs + [out])[..i + 1] == outs + [out] && outs[..i] == outs;
      }
    }
  }

  lemma InRunNone(g: Geometry, a: seq<Flash>, m: map<Name, Value>, ops: seq<Op>)
    requires g.Valid()
    ensures AllInRun(g, a, a, m, ops[..0], [])
  {
  }

  lemma GeometryOk(db: Kvdb)
    requires db.Valid()
    ensures db.g.Valid()
  {
  }

  lemma AfterNone(m: map<Name, Value>, ops: seq<Op>)
    ensures AfterAll(m, ops[..0], []) == m
  {
  }

  lemma AfterOneMore(m: map<Name, Value>, ops: seq<Op>, outs: seq<Out>, out: Out)
    requires |outs| < |ops|
    ensures AfterAll(m, ops[..|outs| + 1], outs + [out]) == After(AfterAll(m, ops[..|outs|], outs), ops[|outs|], out)
  {
    hide After;
    var n := |outs|;
    assert ops[..n + 1][..n] == ops[..n] && (outs + [out])[..n] == outs;
  }
}
