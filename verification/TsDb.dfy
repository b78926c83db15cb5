/** The time-series database object with the operations of fdb_tsdb.c. */
module TsDb {
  import opened Options
  import opened TsFlash
  import opened TsQuery
  import opened TsPacks

  datatype Error = NoErr | WriteErr | SavedFull

  /** `tsdb_sec_info` of the sector being written; addresses are offsets in the sector. */
  datatype SecInfo = SecInfo(sec: nat, store: StoreStatus, startTime: int, endTime: int, endIdx: int,
                             remain: int, emptyIdx: int, emptyData: int)

  lemma FirstIdx(g: Geometry)
    ensures g.IdxOff(0) == g.hdr
  {
  }

  /** A formatted ring is in order and holds the packs of an empty history. */
  lemma FreshRing(g: Geometry, fl: TsFlash)
    requires g.Valid() && |fl| > 0 && forall s: nat :: s < |fl| ==> fl[s] == TsSector(Empty, -1, None, [])
    ensures RingOk(g, fl, 0, 0) && Placed(fl, 0, 0, [])
  {
  }

  class Tsdb {
    const g: Geometry
    var flash: TsFlash
    var cur: SecInfo
    var lastTime: int
    var oldest: nat
    var rollover: bool
    /** All logs ever appended, and how many of the first of them are gone. */
    ghost var history: seq<Log>
    ghost var dropped: nat

    /** The RAM copy describes the current sector. */
    ghost predicate CurOk()
      reads this
    {
      && cur.sec < |flash| && cur.store == flash[cur.sec].store
      && var logs := flash[cur.sec].logs;
        && cur.emptyIdx == g.IdxOff(|logs|) && cur.emptyData == g.secSize - DataUsed(g, logs)
        && cur.remain == cur.emptyData - cur.emptyIdx
        && (logs != [] ==> cur.startTime == logs[0].time && cur.endTime == logs[|logs| - 1].time == lastTime)
        && (logs != [] ==> cur.endIdx == g.IdxOff(|logs| - 1))
    }

    /** The stored logs are a suffix of the history, in order of time. */
    ghost predicate HistoryOk()
      reads this
    {
      && oldest < |flash| && dropped <= |history| && RingLogs(flash, oldest, |flash|) == history[dropped..]
      && Sorted(history) && (forall i :: 0 <= i < |history| ==> history[i].time <= lastTime)
    }

    ghost predicate Inv()
      reads this
    {
      g.Valid() && RingOk(g, flash, oldest, cur.sec) && HistoryOk()
    }

    /** The ring holds what it should of the history, and nothing older. */
    ghost predicate PacksOk()
      reads this
    {
      && oldest < |flash| && cur.sec < |flash| && Placed(flash, oldest, cur.sec, Packs(g, history))
      && dropped == Dropped(g, |flash|, history)
    }

    /** The current sector waits for the first log of its own. */
    ghost predicate Waiting()
      reads this
    {
      && oldest < |flash| && cur.sec < |flash| && Ready(flash, oldest, cur.sec, Packs(g, history))
      && Gone(|flash|, |Packs(g, history)| + 1) <= |Packs(g, history)|
      && dropped == Count(Packs(g, history), Gone(|flash|, |Packs(g, history)| + 1))
    }

    ghost predicate Valid()
      reads this
    {
      && PacksOk() && Inv() && (cur.store.Full? || CurOk()) && cur.store == flash[cur.sec].store
      && (cur.store.Using? ==> flash[cur.sec].logs != [])
    }

    /** What `fdb_tsl_iter` can reach, in ring order. */
    ghost function Logs(): seq<Log>
      requires Valid()
      reads this
    {
      RingLogs(flash, oldest, |flash|)
    }

    /** A formatted database (`tsl_format_all`). */
    constructor (g: Geometry, n: nat)
      requires g.Valid() && n > 0
      ensures Valid() && Logs() == [] && history == [] && dropped == 0 && lastTime == 0 && rollover && this.g == g
      ensures |flash| == n && cur.store.Empty?
    {
      this.g := g;
      flash := seq(n, _ => TsSector(Empty, -1, None, []));
      cur := SecInfo(0, Empty, -1, 0, 0, g.secSize - g.hdr, g.hdr, g.secSize);
      lastTime, oldest, rollover := 0, 0, true;
      history, dropped := [], 0;
      new;
      hide RingOk, Placed, Geometry.IdxOff;
      RingLogsEmptyTail(flash, 0, 0, |flash|);
      FreshRing(g, flash);
      FirstIdx(g);
    }

    /** Step 1 of `update_sec_status`: close the current sector with its end information. */
    method CloseSector()
      requires Inv() && PacksOk() && CurOk() && cur.store.Using? && flash[cur.sec].logs != []
      modifies `flash, `cur
      ensures Inv() && PacksOk() && cur == old(cur).(store := Full)
      ensures
        var end := Some(EndInfo(lastTime, cur.emptyIdx - g.idx));
        flash == old(flash)[cur.sec := old(flash)[cur.sec].(store := Full, end := end)]
    {
      hide SectorOk, RingOk, LayoutOk, Sorted;
      var sec := flash[cur.sec];
      ghost var fl := flash;
      RingSector(g, flash, oldest, cur.sec, cur.sec);
      CloseOk(g, sec, lastTime);
      flash := flash[cur.sec := sec.(store := Full, end := Some(EndInfo(lastTime, cur.emptyIdx - g.idx)))];
      cur := cur.(store := Full);
      RingCurrent(g, fl, oldest, cur.sec, flash[cur.sec]);
      RingHeaders(fl, oldest, cur.sec, flash[cur.sec]);
      PlacedHeaders(fl, oldest, cur.sec, Packs(g, history), cur.sec, flash[cur.sec]);
    }

    /** `read_sector_info` without traversal, on a sector that is not in use. */
    function ReadSector(s: nat): SecInfo
      requires s < |flash|
      reads this
    {
      SecInfo(s, flash[s].store, flash[s].startTime, cur.endTime, cur.endIdx, g.secSize - g.hdr, g.hdr, g.secSize)
    }

    /** Step 2 of `update_sec_status`: go to the next sector of the ring, formatting it if it holds old logs. */
    method NextSector()
      requires Inv() && PacksOk() && history != [] && cur.store.Full? && flash[cur.sec].store.Full?
      modifies `flash, `cur, `oldest, `dropped
      ensures |flash| == |old(flash)| && Inv() && Waiting() && CurOk() && cur.store.Empty? && flash[cur.sec].logs == []
      ensures
        var next := old(flash)[Pos(|flash|, old(cur).sec, 1)];
        dropped == old(dropped) + if next.store.Empty? then 0 else |old(flash)[old(oldest)].logs|
    {
      hide SectorOk, RingOk, LayoutOk, Sorted, RingLogs, DataUsed, Geometry.IdxOff, Packs, Placed, Ready, Count;
      var next := if cur.sec + 1 < |flash| then cur.sec + 1 else 0;
      ghost var fl, first, ps := flash, oldest, Packs(g, history);
      RingSector(g, flash, oldest, cur.sec, cur.sec);
      RingAdvance(g, flash, oldest, cur.sec);
      BlankSector(g);
      ghost var last := cur.sec;
      cur := ReadSector(next);
      if !cur.store.Empty? {
        oldest := if next + 1 < |flash| then next + 1 else 0;
        flash := flash[next := TsSector(Empty, -1, None, [])];
        cur := ReadSector(next);
        RingDrop(g, fl, first, flash[next]);
        SuffixTwice(history, dropped, |fl[first].logs|);
        dropped := dropped + |fl[first].logs|;
        ReadyDrop(g, fl, first, last, ps, flash[next]);
      } else {
        ReadyNext(g, fl, first, last, ps);
      }
    }

    /** The next log goes to another sector, and that one holds logs. */
    ghost predicate Overwrites(size: nat)
      reads this
      requires cur.sec < |flash|
    {
      cur.store.Using? && cur.remain < g.idx + g.Align(size) && !flash[Pos(|flash|, cur.sec, 1)].store.Empty?
    }

    /** `update_sec_status` for a log of `size` bytes. */
    method UpdateSecStatus(size: nat, time: int) returns (e: Error)
      requires Valid() && time >= lastTime && g.idx + g.Align(size) <= g.secSize - g.hdr
      modifies `flash, `cur, `oldest, `dropped
      ensures |flash| == |old(flash)|
      ensures e.NoErr? ==> Inv() && CurOk() && cur.store.Using? && cur.remain >= g.idx + g.Align(size)
      ensures e.NoErr? ==> (flash[cur.sec].logs == [] ==> flash[cur.sec].startTime == cur.startTime == time)
      ensures e.NoErr? ==> if flash[cur.sec].logs == [] then Waiting() else PacksOk()
      ensures e.NoErr? && flash[cur.sec].logs == [] && history != [] ==>
        !Room(g, Packs(g, history)[|Packs(g, history)| - 1], size)
      ensures e.NoErr? ==> dropped == old(dropped) + if old(Overwrites(size)) then |old(flash)[old(oldest)].logs| else 0
      ensures e.NoErr? || (e.SavedFull? && Valid() && dropped == old(dropped) && oldest == old(oldest))
      ensures e.SavedFull? <==>
        || old(cur).store.Full?
        || (!rollover && old(cur).store.Using? && old(cur).sec + 1 == |flash|
            && old(cur).remain < g.idx + g.Align(size))
    {
      hide SectorOk, RingOk, LayoutOk, Sorted, RingLogs, DataUsed, Geometry.IdxOff, Packs, Placed, Ready, Count,
        Tsdb.PacksOk, Tsdb.Waiting;
      RingSector(g, flash, oldest, cur.sec, cur.sec);
      BlankSector(g);
      if cur.store.Using? && cur.remain < g.idx + g.Align(size) {
        NotEmpty();
        CloseSector();
        if cur.sec + 1 >= |flash| && !rollover {
          return SavedFull;
        }
        NextSector();
        RingSector(g, flash, oldest, cur.sec, cur.sec);
      } else if cur.store.Full? {
        return SavedFull;
      }
      if cur.store.Empty? {
        EmptyNoLogs(g, flash[cur.sec]);
        EmptyWaits();
        OpenSector(time);
      }
      e := NoErr;
    }

    /** Step 3 of `update_sec_status`: an empty sector comes into use. */
    method OpenSector(time: int)
      requires Inv() && Waiting() && CurOk() && cur.store.Empty? && flash[cur.sec].logs == []
      modifies `flash, `cur
      ensures |flash| == |old(flash)| && Inv() && Waiting() && CurOk()
      ensures cur == old(cur).(store := Using, startTime := time) && flash[cur.sec].logs == []
      ensures flash[cur.sec].startTime == time
    {
      hide SectorOk, RingOk, LayoutOk, Sorted, RingLogs, DataUsed, Geometry.IdxOff, Packs, Placed, Ready, Count;
      ghost var fl := flash;
      RingSector(g, flash, oldest, cur.sec, cur.sec);
      UsingOk(g, flash[cur.sec], time);
      cur := cur.(store := Using, startTime := time);
      flash := flash[cur.sec := flash[cur.sec].(store := Using, startTime := time)];
      RingCurrent(g, fl, oldest, cur.sec, flash[cur.sec]);
      RingHeaders(fl, oldest, cur.sec, flash[cur.sec]);
      PlacedHeaders(fl, oldest, cur.sec, Packs(g, history), cur.sec, flash[cur.sec]);
    }

    /** A sector with logs means a history. */
    lemma NotEmpty()
      requires cur.sec < |flash| && PacksOk() && flash[cur.sec].logs != []
      ensures history != [] && oldest < |flash| && Placed(flash, oldest, cur.sec, Packs(g, history))
      ensures RingOk(g, flash, oldest, cur.sec) ==> flash[cur.sec].logs == Packs(g, history)[|Packs(g, history)| - 1]
    {
      hide RingOk;
      if RingOk(g, flash, oldest, cur.sec) {
        LastPack(g, flash, oldest, cur.sec, Packs(g, history));
      }
    }

    /** An empty current sector: nothing was ever written, or the ring has just moved on. */
    lemma EmptyWaits()
      requires cur.sec < |flash| && (PacksOk() || Waiting()) && RingOk(g, flash, oldest, cur.sec)
      requires flash[cur.sec].logs == []
      ensures Waiting() && (PacksOk() ==> history == [])
    {
      if PacksOk() && history != [] {
        LastPack(g, flash, oldest, cur.sec, Packs(g, history));
      }
    }

    /**
     `tsl_append`. With success the history grows by the log, and the logs of the oldest sector go
     exactly when the log needs another sector and the next one holds logs; a time before the last
     one, or a full ring without rollover, changes nothing.
     */
    method Append(data: seq<bv8>, time: int) returns (e: Error)
      requires Valid() && g.idx + g.Align(|data|) <= g.secSize - g.hdr
      modifies this
      ensures Valid() && rollover == old(rollover) && |flash| == |old(flash)|
      ensures e.WriteErr? <==> time < old(lastTime)
      ensures e.SavedFull? <==>
        && time >= old(lastTime)
        && (|| old(cur).store.Full?
            || (!rollover && old(cur).store.Using? && old(cur).sec + 1 == |flash|
                && old(cur).remain < g.idx + g.Align(|data|)))
      ensures e.WriteErr? ==> cur == old(cur)
      ensures e.NoErr? ==>
        cur.store.Using? && lastTime == time && |history| == |old(history)| + 1 && old(history) <= history
      ensures e.NoErr? ==> history[|history| - 1].time == time && history[|history| - 1].data == data
      ensures e.NoErr? ==>
        dropped == old(dropped) + if old(Overwrites(|data|)) then |old(flash)[old(oldest)].logs| else 0
      ensures !e.NoErr? ==>
        history == old(history) && Logs() == old(Logs()) && lastTime == old(lastTime) && dropped == old(dropped)
    {
      hide SectorOk, RingOk, LayoutOk, Sorted, RingLogs, DataUsed, Packs, Dropped, Placed, Room, Tsdb.PacksOk,
        Tsdb.Waiting, Tsdb.Overwrites;
      if time < lastTime {
        return WriteErr;
      }
      e := UpdateSecStatus(|data|, time);
      if !e.NoErr? {
        return;
      }
      WriteTsl(data, time);
    }

    /** `write_tsl` and the update of the RAM copy, in a sector with room. */
    method WriteTsl(data: seq<bv8>, time: int)
      requires Inv() && CurOk() && cur.store.Using? && cur.remain >= g.idx + g.Align(|data|) && time >= lastTime
      requires flash[cur.sec].logs == [] ==> flash[cur.sec].startTime == cur.startTime == time
      requires if flash[cur.sec].logs == [] then Waiting() else PacksOk()
      requires flash[cur.sec].logs == [] && history != [] ==>
        !Room(g, Packs(g, history)[|Packs(g, history)| - 1], |data|)
      modifies `flash, `cur, `lastTime, `history
      ensures Valid() && |flash| == |old(flash)| && cur.store.Using? && lastTime == time
      ensures |history| == |old(history)| + 1 && old(history) <= history
      ensures history[|history| - 1].time == time && history[|history| - 1].data == data
    {
      hide SectorOk, RingOk, LayoutOk, Sorted, RingLogs, DataUsed, Packs, Dropped, Placed, Room, Tsdb.PacksOk,
        Tsdb.Waiting, Tsdb.HistoryOk, Geometry.IdxOff, Geometry.Align;
      var size := g.Align(|data|);
      var l := Log(time, data, cur.emptyData - size);
      RingSector(g, flash, oldest, cur.sec, cur.sec);
      LogWritten(l);
      flash := flash[cur.sec := flash[cur.sec].(logs := flash[cur.sec].logs + [l])];
      cur := cur.(endIdx := cur.emptyIdx, endTime := time, emptyIdx := cur.emptyIdx + g.idx,
                  emptyData := cur.emptyData - size, remain := cur.remain - (g.idx + size));
      lastTime := time;
      history := history + [l];
      HistoryNow();
      Packed();
    }

    /** The flash with the log `l` behind the others of the current sector. */
    lemma LogWritten(l: Log)
      requires Inv() && CurOk() && cur.store.Using? && cur.remain >= g.idx + g.Align(|l.data|) && l.time >= lastTime
      requires l.addr == cur.emptyData - g.Align(|l.data|)
      requires flash[cur.sec].logs == [] ==> flash[cur.sec].startTime == cur.startTime == l.time
      requires if flash[cur.sec].logs == [] then Waiting() else PacksOk()
      requires flash[cur.sec].logs == [] && history != [] ==>
        !Room(g, Packs(g, history)[|Packs(g, history)| - 1], |l.data|)
      ensures
        var logs, h := flash[cur.sec].logs + [l], history + [l];
        var fl := flash[cur.sec := flash[cur.sec].(logs := logs)];
        && RingOk(g, fl, oldest, cur.sec) && Placed(fl, oldest, cur.sec, Packs(g, h))
        && dropped == Dropped(g, |flash|, h) && dropped <= |h| && RingLogs(fl, oldest, |fl|) == h[dropped..]
        && Sorted(h) && (forall i :: 0 <= i < |h| ==> h[i].time <= l.time)
        && DataUsed(g, logs) == DataUsed(g, flash[cur.sec].logs) + g.Align(|l.data|)
        && g.IdxOff(|logs|) == g.IdxOff(|flash[cur.sec].logs|) + g.idx
    {
      hide SectorOk, RingOk, LayoutOk, Sorted, RingLogs, DataUsed, Packs, Dropped, Placed, Room, Tsdb.PacksOk,
        Tsdb.Waiting, Tsdb.HistoryOk, Geometry.IdxOff, Geometry.Align;
      RingSector(g, flash, oldest, cur.sec, cur.sec);
      var sec := flash[cur.sec];
      AppendSector(g, sec, l);
      PackOneMore(l);
      var sec' := sec.(logs := sec.logs + [l]);
      RingCurrent(g, flash, oldest, cur.sec, sec');
      RingAppend(g, flash, oldest, cur.sec, sec', l);
      HistoryMore(flash[cur.sec := sec'], l);
    }

    /** The suffix kept grows with the history. */
    lemma HistoryMore(fl: TsFlash, l: Log)
      requires HistoryOk() && |fl| == |flash| && l.time >= lastTime
      requires RingLogs(fl, oldest, |fl|) == RingLogs(flash, oldest, |flash|) + [l]
      ensures dropped <= |history| + 1 && RingLogs(fl, oldest, |fl|) == (history + [l])[dropped..]
      ensures Sorted(history + [l])
      ensures forall i :: 0 <= i < |history| + 1 ==> (history + [l])[i].time <= l.time
    {
      hide RingLogs, Sorted;
      SuffixAppend(history, dropped, l);
      SortedAppend(history, l);
    }

    lemma HistoryNow()
      requires oldest < |flash| && dropped <= |history| && RingLogs(flash, oldest, |flash|) == history[dropped..]
      requires Sorted(history) && forall i :: 0 <= i < |history| ==> history[i].time <= lastTime
      ensures HistoryOk()
    {
    }

    lemma Packed()
      requires oldest < |flash| && cur.sec < |flash| && Placed(flash, oldest, cur.sec, Packs(g, history))
      requires dropped == Dropped(g, |flash|, history)
      ensures PacksOk()
    {
    }

    /** The log `l`, written to the current sector, extends the packs as the history grows by it. */
    lemma PackOneMore(l: Log)
      requires Inv() && CurOk() && cur.remain >= g.idx + g.Align(|l.data|)
      requires if flash[cur.sec].logs == [] then Waiting() else PacksOk()
      requires flash[cur.sec].logs == [] && history != [] ==>
        !Room(g, Packs(g, history)[|Packs(g, history)| - 1], |l.data|)
      ensures Placed(flash[cur.sec := flash[cur.sec].(logs := flash[cur.sec].logs + [l])], oldest, cur.sec,
        Packs(g, history + [l]))
      ensures dropped == Dropped(g, |flash|, history + [l])
    {
      hide RingOk, LayoutOk, Sorted, RingLogs, DataUsed, Placed, Ready, Geometry.IdxOff, Geometry.Align, Room;
      var ps, sec := Packs(g, history), flash[cur.sec].(logs := flash[cur.sec].logs + [l]);
      var qs := Packs(g, history + [l]);
      assert (history + [l])[..|history|] == history;
      assert qs == Extend(g, ps, l);
      if flash[cur.sec].logs == [] {
        assert qs == ps + [[l]];
        PackFirst(l);
      } else {
        PackLonger(l);
      }
    }

    lemma PackFirst(l: Log)
      requires Inv() && flash[cur.sec].logs == [] && Waiting()
      ensures var qs := Packs(g, history) + [[l]];
        && Placed(flash[cur.sec := flash[cur.sec].(logs := flash[cur.sec].logs + [l])], oldest, cur.sec, qs)
        && dropped == Count(qs, Gone(|flash|, |qs|))
    {
      hide RingOk, LayoutOk, Sorted, RingLogs, Placed, Ready, Packs;
      var ps, sec := Packs(g, history), flash[cur.sec].(logs := flash[cur.sec].logs + [l]);
      PlacedFirst(g, flash, oldest, cur.sec, ps, sec, l);
      CountSame(ps, ps + [[l]], Gone(|flash|, |ps| + 1));
    }

    lemma PackLonger(l: Log)
      requires Inv() && CurOk() && cur.remain >= g.idx + g.Align(|l.data|) && flash[cur.sec].logs != [] && PacksOk()
      ensures var qs := Extend(g, Packs(g, history), l);
        && Placed(flash[cur.sec := flash[cur.sec].(logs := flash[cur.sec].logs + [l])], oldest, cur.sec, qs)
        && dropped == Count(qs, Gone(|flash|, |qs|))
    {
      hide RingOk, LayoutOk, Sorted, RingLogs, DataUsed, Placed, Ready, Geometry.IdxOff;
      var ps, sec := Packs(g, history), flash[cur.sec].(logs := flash[cur.sec].logs + [l]);
      NotEmpty();
      LastPack(g, flash, oldest, cur.sec, ps);
      PlacedAppend(g, flash, oldest, cur.sec, ps, sec, l);
      CountSame(ps, Extend(g, ps, l), Gone(|flash|, |ps|));
    }

    // ---------- Iteration ----------

    /** `read_tsl` at an index offset; `k` names the entry there. */
    method ReadTsl(s: nat, off: int, ghost k: nat) returns (l: Log)
      requires g.Valid() && s < |flash| && k < |flash[s].logs| && off == g.IdxOff(k)
      ensures l == flash[s].logs[k]
    {
      IdxAt(g, k);
      l := flash[s].logs[(off - g.hdr) / g.idx];
    }

    /** The span of a sector that has logs: from RAM for the sector in use, from its header otherwise. */
    method Span(s: nat) returns (startTime: int, endTime: int, endIdx: int)
      requires Valid() && s < |flash| && !flash[s].store.Empty?
      ensures var logs := flash[s].logs;
        && logs != [] && startTime == logs[0].time && endTime == logs[|logs| - 1].time && endIdx == g.IdxOff(|logs| - 1)
    {
      assert SectorOk(g, flash[s]);
      if flash[s].store.Using? {
        assert s == cur.sec;
        return cur.startTime, cur.endTime, cur.endIdx;
      }
      return flash[s].startTime, flash[s].end.value.time, flash[s].end.value.idx;
    }

    /** The inner loop of `fdb_tsl_iter`. */
    method VisitSector(s: nat, endIdx: int) returns (out: seq<Log>)
      requires g.Valid() && s < |flash| && flash[s].logs != [] && endIdx == g.IdxOff(|flash[s].logs| - 1)
      ensures out == flash[s].logs
    {
      hide Geometry.IdxOff;
      ghost var logs, k := flash[s].logs, 0;
      BlankSector(g);
      var off, more := g.hdr, true;
      out := [];
      while more
        invariant 0 <= k <= |logs| && off == g.IdxOff(if more then k else k - 1) && out == logs[..k]
        invariant more ==> k < |logs|
        invariant !more ==> k == |logs|
        decreases |logs| - k, more
      {
        var l := ReadTsl(s, off, k);
        out := out + [l];
        assert logs[..k + 1] == logs[..k] + [logs[k]];
        IdxStep(g, k);
        IdxOrder(g, k + 1, |logs| - 1);
        k := k + 1;
        if off + g.idx <= endIdx {
          off := off + g.idx;
        } else {
          more := false;
        }
      }
      assert logs[..k] == logs;
    }

    /** `fdb_tsl_iter`: visits the stored logs in append order. */
    method Iter() returns (out: seq<Log>)
      requires Valid()
      ensures dropped <= |history| && out == Logs() && out == history[dropped..] && Sorted(out)
    {
      hide SectorOk, LayoutOk, Tsdb.PacksOk;
      var n, s, p := |flash|, oldest, 0;
      out := [];
      while p < n
        invariant p <= n == |flash| && (p < n ==> s == Pos(n, oldest, p)) && out == RingLogs(flash, oldest, p)
        decreases n - p
      {
        RingSector(g, flash, oldest, cur.sec, s);
        EmptyNoLogs(g, flash[s]);
        if !flash[s].store.Empty? {
          var startTime, endTime, endIdx := Span(s);
          var logs := VisitSector(s, endIdx);
          out := out + logs;
        }
        p := p + 1;
        s := if s + 1 < n then s + 1 else 0;
      }
    }

    /** The binary search of `fdb_tsl_iter_by_time`: the first log of the sector that is not before `from`. */
    method BinarySearch(s: nat, endIdx: int, from: int) returns (start: int, ghost k: nat)
      requires g.Valid() && s < |flash| && flash[s].logs != [] && endIdx == g.IdxOff(|flash[s].logs| - 1)
      requires Sorted(flash[s].logs)
      ensures k <= |flash[s].logs| && start == g.IdxOff(k)
      ensures forall i :: 0 <= i < k ==> flash[s].logs[i].time < from
      ensures forall i :: k <= i < |flash[s].logs| ==> flash[s].logs[i].time >= from
    {
      hide Geometry.IdxOff;
      ghost var logs, lo, hi := flash[s].logs, 0, |flash[s].logs| - 1;
      BlankSector(g);
      IdxOrder(g, lo, hi);
      start := g.hdr;
      var end := endIdx;
      while start <= end
        invariant 0 <= lo <= hi + 1 <= |logs| && start == g.IdxOff(lo) && end == g.IdxOff(hi)
        invariant start <= end <==> lo <= hi
        invariant forall i :: 0 <= i < lo ==> logs[i].time < from
        invariant forall i :: hi < i < |logs| ==> logs[i].time >= from
        decreases hi - lo
      {
        IdxMiddle(g, lo, hi);
        var off := start + ((end - start) / 2 + 1) / g.idx * g.idx;
        ghost var mid := lo + (hi - lo) / 2;
        var l := ReadTsl(s, off, mid);
        IdxStep(g, mid);
        IdxStep(g, mid - 1);
        if l.time < from {
          start, lo := off + g.idx, mid + 1;
        } else {
          end, hi := off - g.idx, mid - 1;
        }
        IdxOrder(g, lo, hi);
      }
      k := lo;
    }

    /** The copying loop of `fdb_tsl_iter_by_time`: stops for good at the first log behind `to`. */
    method CopyRange(s: nat, start: int, endIdx: int, from: int, to: int, ghost k: nat)
      returns (out: seq<Log>, done: bool)
      requires g.Valid() && s < |flash| && k < |flash[s].logs| && start == g.IdxOff(k)
      requires endIdx == g.IdxOff(|flash[s].logs| - 1)
      requires Sorted(flash[s].logs)
      requires forall i :: 0 <= i < |flash[s].logs| ==> (i < k <==> flash[s].logs[i].time < from)
      ensures out == Filter(flash[s].logs, from, to)
      ensures done <==> flash[s].logs[|flash[s].logs| - 1].time > to
    {
      hide Geometry.IdxOff;
      ghost var logs, j := flash[s].logs, k;
      var off, more := start, true;
      out, done := [], false;
      while more
        invariant k <= j <= |logs| && off == g.IdxOff(if more then j else j - 1) && out == logs[k..j] && !done
        invariant more ==> j < |logs|
        invariant !more ==> j == |logs| && k < j
        invariant forall i :: k <= i < j ==> from <= logs[i].time <= to
        decreases |logs| - j, more
      {
        var l := ReadTsl(s, off, j);
        if l.time >= from && l.time <= to {
          out := out + [l];
          assert logs[k..j + 1] == logs[k..j] + [logs[j]];
        } else {
          done := true;
          FilterPart(logs, k, j, from, to);
          return;
        }
        IdxStep(g, j);
        IdxOrder(g, j + 1, |logs| - 1);
        j := j + 1;
        if off + g.idx <= endIdx {
          off := off + g.idx;
        } else {
          more := false;
        }
      }
      FilterPart(logs, k, j, from, to);
    }

    /** One sector of the query: its logs in the range, and whether the range ended in it. */
    method QuerySector(s: nat, endIdx: int, from: int, to: int, ghost h: nat, ghost p: nat)
      returns (out: seq<Log>, done: bool)
      requires Valid() && h <= p < |flash| && s == Pos(|flash|, oldest, p) && Hit(flash, oldest, h, from)
      requires flash[s].logs != [] && endIdx == g.IdxOff(|flash[s].logs| - 1)
      ensures out == Filter(Part(flash, oldest, p), from, to)
      ensures done ==>
        Filter(RingLogs(flash, oldest, |flash|), from, to) == Filter(RingLogs(flash, oldest, p + 1), from, to)
    {
      hide RingOk, SectorOk, RingLogs, Filter, Geometry.IdxOff, Hit, Tsdb.PacksOk;
      SuffixSorted(history, dropped);
      PartSorted(flash, oldest, p);
      LastLateEnough(flash, oldest, h, p, from);
      ghost var k;
      var start;
      start, k := BinarySearch(s, endIdx, from);
      out, done := CopyRange(s, start, endIdx, from, to, k);
      if done {
        FilterPast(flash, oldest, p, |flash[s].logs| - 1, |flash|, from, to);
      }
    }

    /**
     `fdb_tsl_iter_by_time`: exactly the stored logs of the range, in order, when `from` is not
     after the oldest log or lies in the span of some sector, and nothing otherwise.
     */
    method IterByTime(from: int, to: int) returns (out: seq<Log>)
      requires Valid()
      ensures out == if Reached(flash, oldest, from) then Filter(Logs(), from, to) else []
      ensures Logs() != [] && from <= Logs()[0].time ==> out == Filter(Logs(), from, to)
      ensures (exists s: nat ::
        && s < |flash| && flash[s].logs != []
        && flash[s].logs[0].time <= from <= flash[s].logs[|flash[s].logs| - 1].time)
        ==> out == Filter(Logs(), from, to)
      ensures (forall s: nat ::
        && s < |flash| && flash[s].logs != []
        ==> from < flash[s].logs[0].time || flash[s].logs[|flash[s].logs| - 1].time < from)
        && (Logs() == [] || from > Logs()[0].time)
        ==> out == []
    {
      out := VisitRange(from, to);
      hide RingOk, SectorOk, RingLogs, Filter, Geometry.IdxOff, Tsdb.PacksOk, Reached;
      ReachedIff(g, flash, oldest, cur.sec, from);
    }

    /** The loops of `fdb_tsl_iter_by_time`. */
    method VisitRange(from: int, to: int) returns (out: seq<Log>)
      requires Valid()
      ensures out == if Reached(flash, oldest, from) then Filter(Logs(), from, to) else []
    {
      hide RingOk, SectorOk, RingLogs, Filter, Geometry.IdxOff, Tsdb.PacksOk;
      SuffixSorted(history, dropped);
      var n, s, p, found := |flash|, oldest, 0, false;
      ghost var h := 0;
      out := [];
      while p < n
        invariant p <= n == |flash| && (p < n ==> s == Pos(n, oldest, p))
        invariant !found ==> out == [] && forall q: nat :: q < p ==> !Hit(flash, oldest, q, from)
        invariant found ==> h < p && Hit(flash, oldest, h, from) && out == Filter(RingLogs(flash, oldest, p), from, to)
        decreases n - p
      {
        RingSector(g, flash, oldest, cur.sec, s);
        if flash[s].store.Empty? {
          EmptyEndsRing(g, flash, oldest, cur.sec, p, from);
          return;
        }
        var startTime, endTime, endIdx := Span(s);
        assert Hit(flash, oldest, p, from) <==> (startTime <= from <= endTime || (s == oldest && from <= startTime));
        if found || (from >= startTime && from <= endTime) || (s == oldest && from <= startTime) {
          if !found {
            h := p;
            FilterBeforeHit(flash, oldest, p, from, to);
          }
          found := true;
          var part, done := QuerySector(s, endIdx, from, to, h, p);
          FilterNext(flash, oldest, p, from, to);
          out := out + part;
          if done {
            return;
          }
        }
        p := p + 1;
        s := if s + 1 < n then s + 1 else 0;
      }
    }

    /** `fdb_tsl_query_count` for logs in status WRITE. */
    method QueryCount(from: int, to: int) returns (count: nat)
      requires Valid()
      ensures count == if Reached(flash, oldest, from) then |Filter(Logs(), from, to)| else 0
      ensures Logs() != [] && from <= Logs()[0].time ==> count == |Filter(Logs(), from, to)|
      ensures (exists s: nat ::
        && s < |flash| && flash[s].logs != []
        && flash[s].logs[0].time <= from <= flash[s].logs[|flash[s].logs| - 1].time)
        ==> count == |Filter(Logs(), from, to)|
      ensures (forall s: nat ::
        && s < |flash| && flash[s].logs != []
        ==> from < flash[s].logs[0].time || flash[s].logs[|flash[s].logs| - 1].time < from)
        && (Logs() == [] || from > Logs()[0].time)
        ==> count == 0
    {
      hide Tsdb.Valid, Reached, Filter, Tsdb.Logs;
      var visited := IterByTime(from, to);
      count := |visited|;
    }
  }

  // ---------- Whole runs ----------

  datatype Entry = Entry(data: seq<bv8>, time: int)

  /** The entries that are not before the one accepted last. */
  ghost function Accepted(entries: seq<Entry>): seq<Entry> {
    if entries == [] then []
    else
      var rest, e := Accepted(entries[..|entries| - 1]), entries[|entries| - 1];
      if e.time < LastAccepted(entries[..|entries| - 1]) then rest else rest + [e]
  }

  ghost function LastAccepted(entries: seq<Entry>): int {
    if entries == [] then 0
    else
      var last, e := LastAccepted(entries[..|entries| - 1]), entries[|entries| - 1];
      if e.time < last then last else e.time
  }

  ghost predicate NeverBack(entries: seq<Entry>) {
    && (forall i, j :: 0 <= i < j < |entries| ==> entries[i].time <= entries[j].time)
    && (entries != [] ==> entries[0].time >= 0)
  }

  /** Entries whose times never go back, equal times included, are all accepted. */
  lemma {:induction false} AllAccepted(entries: seq<Entry>)
    requires NeverBack(entries)
    ensures Accepted(entries) == entries
    ensures LastAccepted(entries) == if entries == [] then 0 else entries[|entries| - 1].time
  {
    hide NeverBack;
    if entries != [] {
      var rest, e := entries[..|entries| - 1], entries[|entries| - 1];
      LaterOnly(entries);
      AllAccepted(rest);
      assert entries == rest + [e];
    }
  }

  lemma LaterOnly(entries: seq<Entry>)
    requires NeverBack(entries) && entries != []
    ensures
      var rest, e := entries[..|entries| - 1], entries[|entries| - 1];
      NeverBack(rest) && e.time >= if rest == [] then 0 else rest[|rest| - 1].time
  {
  }

  ghost predicate Recorded(h: seq<Log>, entries: seq<Entry>) {
    |h| == |entries| && forall i :: 0 <= i < |h| ==> h[i].time == entries[i].time && h[i].data == entries[i].data
  }

  /**
   Any run of appends on a formatted database with rollover: the history is the accepted entries
   in order, and iteration afterwards yields it without the packs that no longer fit the ring:
   everything as long as there are at most `n` of them, and always the newest log. When logs
   are missing, every sector but one is filled up to the size of an entry.
   */
  method AppendRun(g: Geometry, n: nat, entries: seq<Entry>, ghost most: nat) returns (db: Tsdb, out: seq<Log>)
    requires g.Valid() && n > 0 && most <= g.secSize - g.hdr
    requires forall i :: 0 <= i < |entries| ==> g.idx + g.Align(|entries[i].data|) <= most
    ensures db.Valid() && Recorded(db.history, Accepted(entries)) && Sorted(out)
    ensures NeverBack(entries) ==> Recorded(db.history, entries)
    ensures Dropped(g, n, db.history) <= |db.history| && out == db.history[Dropped(g, n, db.history)..]
    ensures |Packs(g, db.history)| <= n ==> out == db.history
    ensures db.history != [] ==> out != [] && out[|out| - 1] == db.history[|db.history| - 1]
    ensures out != db.history ==> Bytes(g, out) >= (n - 1) * (g.secSize - g.hdr - most)
  {
    hide Tsdb.Valid, Tsdb.Logs, Geometry.Align, Geometry.Valid, Dropped, Packs, NeverBack, Bytes, Recorded, AtMost,
      Sorted;
    db := AppendAll(g, n, entries, most);
    out := db.Iter();
    RunDropped(db);
    DroppedBounds(g, n, db.history);
    if out != db.history {
      RunFull(db, most);
    }
    if NeverBack(entries) {
      AllAccepted(entries);
    }
  }

  /** The appends, one after the other. */
  method AppendAll(g: Geometry, n: nat, entries: seq<Entry>, ghost most: nat) returns (db: Tsdb)
    requires g.Valid() && n > 0 && most <= g.secSize - g.hdr
    requires forall i :: 0 <= i < |entries| ==> g.idx + g.Align(|entries[i].data|) <= most
    ensures fresh(db) && db.Valid() && db.g == g && |db.flash| == n
    ensures Recorded(db.history, Accepted(entries)) && AtMost(g, db.history, most)
  {
    hide Tsdb.Valid, Tsdb.Logs, Geometry.Align, Geometry.Valid, Tsdb.Overwrites, Sorted, Accepted, LastAccepted,
      Recorded, AtMost;
    db := new Tsdb(g, n);
    NoneAccepted(g, entries, most);
    for i := 0 to |entries|
      invariant fresh(db) && db.Valid() && db.g == g && |db.flash| == n && db.rollover && !db.cur.store.Full?
      invariant Recorded(db.history, Accepted(entries[..i])) && db.lastTime == LastAccepted(entries[..i])
      invariant AtMost(g, db.history, most)
    {
      CurInRing(db);
      ghost var h := db.history;
      var e := db.Append(entries[i].data, entries[i].time);
      OneMoreAccepted(g, entries, i, h, db.history, most);
    }
    assert entries[..|entries|] == entries;
  }

  lemma NoneAccepted(g: Geometry, entries: seq<Entry>, most: nat)
    ensures Recorded([], Accepted(entries[..0])) && LastAccepted(entries[..0]) == 0 && AtMost(g, [], most)
  {
  }

  /** One more entry: accepted unless its time goes back. */
  lemma OneMoreAccepted(g: Geometry, entries: seq<Entry>, i: nat, a: seq<Log>, b: seq<Log>, most: nat)
    requires i < |entries| && Recorded(a, Accepted(entries[..i])) && AtMost(g, a, most)
    requires g.idx + g.Align(|entries[i].data|) <= most
    ensures
      var e, last := entries[i], LastAccepted(entries[..i]);
      && LastAccepted(entries[..i + 1]) == (if e.time < last then last else e.time)
      && (e.time < last && b == a ==> Recorded(b, Accepted(entries[..i + 1])) && AtMost(g, b, most))
      && (e.time >= last && |b| == |a| + 1 && a <= b && b[|a|].time == e.time && b[|a|].data == e.data ==>
        Recorded(b, Accepted(entries[..i + 1])) && AtMost(g, b, most))
  {
    hide Geometry.Align;
    assert entries[..i + 1][..i] == entries[..i];
  }

  lemma RunFull(db: Tsdb, most: nat)
    requires db.Valid() && AtMost(db.g, db.history, most) && most <= db.g.secSize - db.g.hdr
    requires |Packs(db.g, db.history)| > |db.flash|
    ensures Bytes(db.g, db.Logs()) >= (|db.flash| - 1) * (db.g.secSize - db.g.hdr - most)
  {
    hide RingOk, LayoutOk, RingLogs, Geometry.Align, Geometry.Valid, Placed, Sorted, Packs, Dropped, AtMost, Bytes;
    RingFull(db.g, db.flash, db.oldest, db.cur.sec, db.history, most);
  }

  lemma CurInRing(db: Tsdb)
    requires db.Valid()
    ensures db.cur.sec < |db.flash|
  {
  }

  lemma RunDropped(db: Tsdb)
    requires db.Valid()
    ensures db.dropped == Dropped(db.g, |db.flash|, db.history)
  {
  }

  /**
   A range query that misses its logs, reached from a formatted database: two logs that do not
   fit one sector, and a start between their times. The range holds the second log, and the
   query visits nothing.
   */
  method GapReached(g: Geometry, n: nat, first: Entry, second: Entry, from: int, to: int)
    returns (db: Tsdb, out: seq<Log>)
    requires g.Valid() && n > 1 && 0 <= first.time < from < second.time <= to
    requires g.idx + g.Align(|first.data|) <= g.secSize - g.hdr && g.idx + g.Align(|second.data|) <= g.secSize - g.hdr
    requires 2 * g.idx + g.Align(|first.data|) + g.Align(|second.data|) > g.secSize - g.hdr
    ensures db.Valid() && Recorded(db.history, [first, second])
    ensures out == [] && Filter(db.Logs(), from, to) != []
  {
    hide Tsdb.Valid, Tsdb.Logs, Geometry.Align, Geometry.Valid, Dropped, Packs, Tsdb.Overwrites, Filter, Reached;
    db := new Tsdb(g, n);
    CurInRing(db);
    var e := db.Append(first.data, first.time);
    CurInRing(db);
    var e' := db.Append(second.data, second.time);
    out := db.IterByTime(from, to);
    TwoPacks(db, first, second, from, to);
  }

  lemma TwoPacks(db: Tsdb, first: Entry, second: Entry, from: int, to: int)
    requires db.Valid() && Recorded(db.history, [first, second]) && |db.flash| > 1
    requires first.time < from < second.time <= to
    requires 2 * db.g.idx + db.g.Align(|first.data|) + db.g.Align(|second.data|) > db.g.secSize - db.g.hdr
    ensures !Reached(db.flash, db.oldest, from) && Filter(db.Logs(), from, to) != []
  {
    hide RingOk, LayoutOk, RingLogs, Filter, Reached, Geometry.Align, Geometry.Valid, Placed, Sorted, Packs, Dropped,
      Part;
    var a, b := db.history[0], db.history[1];
    assert db.history == [a, b];
    TwoPacksOf(db.g, a, b);
    SuffixSorted(db.history, db.dropped);
    TwoParts(db.flash, db.oldest, db.cur.sec, a, b);
    GapIsMissed(db.flash, db.oldest, 0, from, to);
  }

  lemma TwoParts(fl: TsFlash, oldest: nat, cur: nat, a: Log, b: Log)
    requires oldest < |fl| && cur < |fl| && |fl| > 1 && Placed(fl, oldest, cur, [[a], [b]])
    ensures Part(fl, oldest, 0) == [a] && Part(fl, oldest, 1) == [b]
  {
  }

  lemma TwoPacksOf(g: Geometry, a: Log, b: Log)
    requires 2 * g.idx + g.Align(|a.data|) + g.Align(|b.data|) > g.secSize - g.hdr
    ensures Packs(g, [a, b]) == [[a], [b]]
  {
    assert [a, b][..1] == [a] && [a][..0] == [];
    assert Packs(g, [a]) == [[a]];
    assert DataUsed(g, [a]) == g.Align(|a.data|);
  }
}
