/** The public iterator of the key-value database. */
module KvIterate {
  import opened Options
  import opened KvFlash
  import opened KvSteps
  import opened KvCoherence
  import opened KvRecovery
  import opened KvDb
  import opened KvFirm

  /** A live record at or behind position `from`. */
  ghost predicate LiveFrom(fl: Flash, from: Loc, l: Loc) {
    In(fl, l) && At(fl, l).status.Written? && !Before(l, from)
  }

  /** The inner loop of `fdb_kv_iterate`, from record `i` of sector `s`. */
  method FirstLive(db: Kvdb, s: nat, i: nat) returns (r: Option<nat>)
    requires db.Valid() && In(db.flash, Loc(s, i))
    ensures r.Some? ==> i <= r.value < |db.flash[s].recs| && db.flash[s].recs[r.value].status.Written?
    ensures forall j :: i <= j < (if r.Some? then r.value else |db.flash[s].recs|) ==>
      !db.flash[s].recs[j].status.Written?
  {
    hide Mid, Space, SecCacheOk, Firm, KvCacheOk, Settled, EmptySet, NoGc;
    var j, more := i, true;
    while more
      invariant i <= j <= |db.flash[s].recs| && (more <==> j < |db.flash[s].recs|)
      invariant forall k :: i <= k < j ==> !db.flash[s].recs[k].status.Written?
      decreases |db.flash[s].recs| - j
    {
      if db.flash[s].recs[j].status.Written? {
        return Some(j);
      }
      FirmAt(db.g, db.single, db.flash, db.torn, Loc(s, j));
      var next := db.NextKv(s, j);
      more := next.Some?;
      j := if more then next.value else |db.flash[s].recs|;
    }
    r := None;
  }

  class KvIterator {
    var sec: nat
    /** The record returned last; None where the source keeps address 0. */
    var cur: Option<nat>
    var count: nat
    var objBytes: nat
    var valueBytes: nat

    /** `fdb_kv_iterator_init`. */
    constructor ()
      ensures Position() == Loc(0, 0) && count == 0 && objBytes == 0 && valueBytes == 0
    {
      sec, cur, count, objBytes, valueBytes := 0, None, 0, 0, 0;
    }

    function Position(): Loc
      reads this
    {
      Loc(sec, if cur.None? then 0 else cur.value + 1)
    }

    /** `fdb_kv_iterate`: advance to the next live record, if there is one. */
    method Next(db: Kvdb) returns (found: bool)
      requires db.Valid()
      modifies this
      ensures found ==> cur.Some? && LiveFrom(db.flash, old(Position()), Loc(sec, cur.value))
      ensures found ==> forall l :: LiveFrom(db.flash, old(Position()), l) ==>
        l == Loc(sec, cur.value) || LiveFrom(db.flash, Position(), l)
      ensures found ==> count == old(count) + 1 && objBytes == old(objBytes) + At(db.flash, Loc(sec, cur.value)).len
      ensures found ==> valueBytes == old(valueBytes) + |At(db.flash, Loc(sec, cur.value)).value|
      ensures !found ==> forall l :: !LiveFrom(db.flash, old(Position()), l)
      ensures !found ==> count == old(count) && objBytes == old(objBytes) && valueBytes == old(valueBytes)
    {
      hide Mid, Space, SecCacheOk, Firm, KvCacheOk, Settled, EmptySet, NoGc;
      while sec < |db.flash|
        invariant !Before(Position(), old(Position()))
        invariant forall l :: LiveFrom(db.flash, old(Position()), l) ==> LiveFrom(db.flash, Position(), l)
        invariant count == old(count) && objBytes == old(objBytes) && valueBytes == old(valueBytes)
        decreases |db.flash| - sec
      {
        NoRecords(db, sec);
        if db.flash[sec].store.Using? || db.flash[sec].store.Full? {
          var i := if cur.None? then 0 else cur.value + 1;
          if i < |db.flash[sec].recs| {
            var r := FirstLive(db, sec, i);
            if r.Some? {
              var kv := db.flash[sec].recs[r.value];
              cur, count, objBytes, valueBytes := r, count + 1, objBytes + kv.len, valueBytes + |kv.value|;
              return true;
            }
          }
        }
        cur, sec := None, sec + 1;
      }
      found := false;
    }
  }

  lemma NoRecords(db: Kvdb, s: nat)
    requires db.Valid() && s < |db.flash|
    ensures db.flash[s].store.Using? || db.flash[s].store.Full? || db.flash[s].recs == []
  {
    SectorHasRecords(db.g, db.flash, s);
  }

  ghost function ObjBytes(fl: Flash, ls: seq<Loc>): nat
    requires forall i :: 0 <= i < |ls| ==> In(fl, ls[i])
  {
    if ls == [] then 0 else ObjBytes(fl, ls[..|ls| - 1]) + At(fl, ls[|ls| - 1]).len
  }

  ghost function ValueBytes(fl: Flash, ls: seq<Loc>): nat
    requires forall i :: 0 <= i < |ls| ==> In(fl, ls[i])
  {
    if ls == [] then 0 else ValueBytes(fl, ls[..|ls| - 1]) + |At(fl, ls[|ls| - 1]).value|
  }

  /** The records collected so far are the live ones before `pos`, in scan order. */
  ghost predicate Collected(fl: Flash, ls: seq<Loc>) {
    && (forall i :: 0 <= i < |ls| ==> LiveFrom(fl, Loc(0, 0), ls[i]))
    && (forall i, j :: 0 <= i < j < |ls| ==> Before(ls[i], ls[j]))
  }

  /** `ls` names every key of `m` exactly once, with its value. */
  ghost predicate ListsMap(fl: Flash, ls: seq<Loc>, m: map<Name, Value>) {
    && (forall i :: 0 <= i < |ls| ==> In(fl, ls[i]) && At(fl, ls[i]).name in m)
    && (forall i :: 0 <= i < |ls| ==> At(fl, ls[i]).value == m[At(fl, ls[i]).name])
    && (forall i, j :: 0 <= i < j < |ls| ==> At(fl, ls[i]).name != At(fl, ls[j]).name)
    && (forall k :: k in m ==> exists i :: 0 <= i < |ls| && At(fl, ls[i]).name == k)
  }

  /** Iterating to the end yields every live key exactly once, with the byte totals of their records. */
  method IterateAll(db: Kvdb) returns (ls: seq<Loc>, itr: KvIterator)
    requires db.Valid()
    ensures ListsMap(db.flash, ls, db.Map())
    ensures itr.count == |ls| && itr.objBytes == ObjBytes(db.flash, ls) && itr.valueBytes == ValueBytes(db.flash, ls)
  {
    hide Mid, Space, SecCacheOk, Firm, KvCacheOk, Settled, EmptySet, NoGc, Contents, ListsMap;
    itr := new KvIterator();
    ls := [];
    ghost var fl := db.flash;
    var more := true;
    while more
      invariant fresh(itr) && db.Valid() && db.flash == fl && Collected(fl, ls)
      invariant more ==> forall i :: 0 <= i < |ls| ==> Before(ls[i], itr.Position())
      invariant forall l :: LiveFrom(fl, Loc(0, 0), l) ==> l in ls || (more && LiveFrom(fl, itr.Position(), l))
      invariant itr.count == |ls| && itr.objBytes == ObjBytes(fl, ls) && itr.valueBytes == ValueBytes(fl, ls)
      decreases more, |fl| - itr.sec, if itr.sec < |fl| then |fl[itr.sec].recs| - itr.Position().idx else 0
    {
      more := itr.Next(db);
      if more {
        ghost var before := ls;
        ls := ls + [Loc(itr.sec, itr.cur.value)];
        assert ls[..|ls| - 1] == before;
      }
    }
    AllLive(fl, db.index, ls);
  }

  lemma AllLive(fl: Flash, idx: Index, ls: seq<Loc>)
    requires Mid(fl, idx, None, {}) && Collected(fl, ls) && forall l :: LiveFrom(fl, Loc(0, 0), l) ==> l in ls
    ensures ListsMap(fl, ls, Contents(fl, idx))
  {
    var m := Contents(fl, idx);
    forall k | k in m
      ensures exists i :: 0 <= i < |ls| && At(fl, ls[i]).name == k
    {
      assert LiveFrom(fl, Loc(0, 0), idx[k]);
    }
    forall i, j | 0 <= i < j < |ls|
      ensures At(fl, ls[i]).name != At(fl, ls[j]).name
    {
      assert Before(ls[i], ls[j]) && LiveFrom(fl, Loc(0, 0), ls[i]) && LiveFrom(fl, Loc(0, 0), ls[j]);
    }
  }
}
