/** The time-series database on flash: a ring of sectors in which indexes grow up and log data grows down. */
module TsFlash {
  import opened Options
  import opened WriteUnits

  datatype StoreStatus = Empty | Using | Full

  datatype Log = Log(time: int, data: seq<bv8>, addr: int)

  /** The end information that a full sector keeps in its header. */
  datatype EndInfo = EndInfo(time: int, idx: int)

  datatype TsSector = TsSector(store: StoreStatus, startTime: int, end: Option<EndInfo>, logs: seq<Log>)

  type TsFlash = seq<TsSector>

  /**
   `hdr` and `idx` are the aligned sizes of the sector header and of an index entry; the entry
   size depends on the write granularity and on the width of a time stamp.
   */
  datatype Geometry = Geometry(secSize: nat, hdr: nat, idx: nat, words: bool) {
    function Align(n: nat): (r: nat)
      ensures n <= r < n + 4
    {
      AlignUp(words, n)
    }

    predicate Valid() {
      2 < idx <= hdr < secSize
    }

    /** Offset of index entry `k` in its sector. */
    function IdxOff(k: int): int {
      hdr + k * idx
    }
  }

  function DataUsed(g: Geometry, logs: seq<Log>): nat {
    if logs == [] then 0 else DataUsed(g, logs[..|logs| - 1]) + g.Align(|logs[|logs| - 1].data|)
  }

  // ---------- The ring ----------

  /** The sector `p` places behind `start` in a ring of `n`. */
  function Pos(n: nat, start: nat, p: nat): int {
    if start + p < n then start + p else start + p - n
  }

  /** The logs of `k` sectors in ring order from sector `start`. */
  function RingLogs(fl: TsFlash, start: nat, k: nat): seq<Log>
    requires start < |fl| && k <= |fl|
  {
    if k == 0 then [] else RingLogs(fl, start, k - 1) + fl[Pos(|fl|, start, k - 1)].logs
  }

  lemma {:induction false} RingLogsEmptyTail(fl: TsFlash, start: nat, j: nat, k: nat)
    requires start < |fl| && j <= k <= |fl|
    requires forall p: nat :: j <= p < k ==> fl[Pos(|fl|, start, p)].logs == []
    ensures RingLogs(fl, start, k) == RingLogs(fl, start, j)
    decreases k
  {
    if j < k {
      RingLogsEmptyTail(fl, start, j, k - 1);
    }
  }

  lemma {:induction false} RingLogsSame(a: TsFlash, b: TsFlash, start: nat, k: nat)
    requires |a| == |b| && start < |a| && k <= |a|
    requires forall p: nat :: p < k ==> a[Pos(|a|, start, p)].logs == b[Pos(|a|, start, p)].logs
    ensures RingLogs(a, start, k) == RingLogs(b, start, k)
  {
    if k > 0 {
      RingLogsSame(a, b, start, k - 1);
    }
  }

  /** Taking the first sector off the ring. */
  lemma {:induction false} RingLogsFirst(fl: TsFlash, start: nat, k: nat)
    requires start < |fl| && 0 < k <= |fl|
    ensures RingLogs(fl, start, k) == fl[start].logs + RingLogs(fl, Pos(|fl|, start, 1), k - 1)
    decreases k
  {
    hide RingLogs;
    var next := Pos(|fl|, start, 1);
    RingLogsLast(fl, start, k);
    if k == 1 {
      RingLogsNone(fl, start);
      RingLogsNone(fl, next);
    } else {
      RingLogsFirst(fl, start, k - 1);
      RingLogsLast(fl, next, k - 1);
      var a, b, c := fl[start].logs, RingLogs(fl, next, k - 2), fl[Pos(|fl|, start, k - 1)].logs;
      assert (a + b) + c == a + (b + c);
    }
  }

  lemma RingLogsLast(fl: TsFlash, start: nat, k: nat)
    requires start < |fl| && 0 < k <= |fl|
    ensures RingLogs(fl, start, k) == RingLogs(fl, start, k - 1) + fl[Pos(|fl|, start, k - 1)].logs
  {
  }

  lemma RingLogsNone(fl: TsFlash, start: nat)
    requires start < |fl|
    ensures RingLogs(fl, start, 0) == []
  {
  }

  // ---------- Order in time ----------

  ghost predicate Sorted(logs: seq<Log>) {
    forall i, j :: 0 <= i < j < |logs| ==> logs[i].time <= logs[j].time
  }

  function Filter(logs: seq<Log>, from: int, to: int): seq<Log> {
    if logs == [] then []
    else
      var rest, l := Filter(logs[..|logs| - 1], from, to), logs[|logs| - 1];
      if from <= l.time <= to then rest + [l] else rest
  }

  lemma {:induction false} FilterConcat(a: seq<Log>, b: seq<Log>, from: int, to: int)
    ensures Filter(a + b, from, to) == Filter(a, from, to) + Filter(b, from, to)
  {
    if b == [] {
      assert a + b == a;
    } else {
      assert (a + b)[..|a + b| - 1] == a + b[..|b| - 1];
      FilterConcat(a, b[..|b| - 1], from, to);
    }
  }

  lemma {:induction false} FilterNone(a: seq<Log>, from: int, to: int)
    requires forall i :: 0 <= i < |a| ==> a[i].time < from || a[i].time > to
    ensures Filter(a, from, to) == []
  {
    if a != [] {
      FilterNone(a[..|a| - 1], from, to);
    }
  }

  lemma {:induction false} FilterAll(a: seq<Log>, from: int, to: int)
    requires forall i :: 0 <= i < |a| ==> from <= a[i].time <= to
    ensures Filter(a, from, to) == a
  {
    if a != [] {
      FilterAll(a[..|a| - 1], from, to);
    }
  }

  lemma {:induction false} DataUsedStep(g: Geometry, logs: seq<Log>, k: nat)
    requires k < |logs|
    ensures DataUsed(g, logs[..k + 1]) == DataUsed(g, logs[..k]) + g.Align(|logs[k].data|)
  {
    assert logs[..k + 1][..k] == logs[..k];
  }

  lemma {:induction false} DataUsedMonotone(g: Geometry, logs: seq<Log>, j: nat, k: nat)
    requires j <= k <= |logs|
    ensures DataUsed(g, logs[..j]) <= DataUsed(g, logs[..k])
    decreases k
  {
    if j < k {
      DataUsedStep(g, logs, k - 1);
      DataUsedMonotone(g, logs, j, k - 1);
    }
  }

  // ---------- Invariants ----------

  /** Index entries from the top and data from the bottom, in log order, not overlapping. */
  ghost predicate LayoutOk(g: Geometry, logs: seq<Log>) {
    && g.IdxOff(|logs|) + DataUsed(g, logs) <= g.secSize
    && forall k :: 0 <= k < |logs| ==> logs[k].addr == g.secSize - DataUsed(g, logs[..k + 1])
  }

  ghost predicate SectorOk(g: Geometry, sec: TsSector) {
    && LayoutOk(g, sec.logs)
    && (sec.store.Empty? ==> sec.logs == [])
    && (sec.logs != [] ==> sec.startTime == sec.logs[0].time)
    && (sec.store.Full? ==> sec.logs != [])
    && (sec.store.Full? ==> sec.end == Some(EndInfo(sec.logs[|sec.logs| - 1].time, g.IdxOff(|sec.logs| - 1))))
    && (!sec.store.Full? ==> sec.end.None?)
  }

  /** Either the ring has not wrapped, or the sector behind the current one is the oldest. */
  ghost predicate RingOk(g: Geometry, fl: TsFlash, oldest: nat, cur: nat) {
    && oldest < |fl| && cur < |fl|
    && (forall s: nat :: s < |fl| ==> SectorOk(g, fl[s]))
    && (|| (oldest == 0 && (forall s: nat :: s < cur ==> fl[s].store.Full?)
         && (forall s: nat :: cur < s < |fl| ==> fl[s].store.Empty?))
        || (oldest == Pos(|fl|, cur, 1) && (forall s: nat :: s < |fl| && s != cur ==> fl[s].store.Full?)))
  }

  /** Data areas lie behind the index area and do not overlap each other. */
  lemma NoOverlap(g: Geometry, logs: seq<Log>, j: nat, k: nat)
    requires g.Valid() && LayoutOk(g, logs) && j < k < |logs|
    ensures g.IdxOff(|logs|) <= logs[k].addr && logs[k].addr + |logs[k].data| <= logs[j].addr
    ensures logs[j].addr + |logs[j].data| <= g.secSize
  {
    DataUsedStep(g, logs, k);
    DataUsedStep(g, logs, j);
    DataUsedMonotone(g, logs, j + 1, k);
    DataUsedMonotone(g, logs, k + 1, |logs|);
    assert logs[..|logs|] == logs;
  }

  lemma LayoutAppend(g: Geometry, logs: seq<Log>, l: Log)
    requires LayoutOk(g, logs) && g.Valid()
    requires g.IdxOff(|logs| + 1) + DataUsed(g, logs) + g.Align(|l.data|) <= g.secSize
    requires l.addr == g.secSize - DataUsed(g, logs) - g.Align(|l.data|)
    ensures LayoutOk(g, logs + [l]) && DataUsed(g, logs + [l]) == DataUsed(g, logs) + g.Align(|l.data|)
  {
    var logs' := logs + [l];
    assert logs'[..|logs|] == logs;
    forall k | 0 <= k < |logs'|
      ensures logs'[k].addr == g.secSize - DataUsed(g, logs'[..k + 1])
    {
      if k < |logs| {
        assert logs'[..k + 1] == logs[..k + 1];
      } else {
        assert logs'[..k + 1] == logs';
      }
    }
  }

  /** The place of the current sector in ring order. */
  function CurPlace(n: nat, oldest: nat, cur: nat): int {
    if oldest <= cur then cur - oldest else n - 1
  }

  lemma RingPlaces(g: Geometry, fl: TsFlash, oldest: nat, cur: nat)
    requires RingOk(g, fl, oldest, cur)
    ensures var n, c := |fl|, CurPlace(|fl|, oldest, cur);
      && 0 <= c < n && Pos(n, oldest, c) == cur
      && (forall p: nat :: p < n && p != c ==> 0 <= Pos(n, oldest, p) < n && Pos(n, oldest, p) != cur)
      && (forall p: nat :: p < c ==> fl[Pos(n, oldest, p)].store.Full?)
      && (forall p: nat :: c < p < n ==> fl[Pos(n, oldest, p)].store.Empty? && fl[Pos(n, oldest, p)].logs == [])
  {
    hide LayoutOk;
    var n, c := |fl|, CurPlace(|fl|, oldest, cur);
    forall p: nat | c < p < n
      ensures fl[Pos(n, oldest, p)].store.Empty? && fl[Pos(n, oldest, p)].logs == []
    {
      assert SectorOk(g, fl[Pos(n, oldest, p)]);
    }
  }

  /** A log written to the current sector comes last in ring order. */
  lemma RingAppend(g: Geometry, fl: TsFlash, oldest: nat, cur: nat, sec: TsSector, l: Log)
    requires RingOk(g, fl, oldest, cur) && sec.logs == fl[cur].logs + [l]
    ensures RingLogs(fl[cur := sec], oldest, |fl|) == RingLogs(fl, oldest, |fl|) + [l]
  {
    RingPlaces(g, fl, oldest, cur);
    hide SectorOk;
    var n, fl' := |fl|, fl[cur := sec];
    var c := CurPlace(n, oldest, cur);
    RingLogsEmptyTail(fl, oldest, c + 1, n);
    RingLogsEmptyTail(fl', oldest, c + 1, n);
    RingLogsSame(fl, fl', oldest, c);
  }

  /** Counted from the sector behind `start`, `start` itself comes last. */
  lemma NextPlaces(n: nat, start: nat, p: nat)
    requires start < n && p < n
    ensures Pos(n, Pos(n, start, 1), p) == start <==> p == n - 1
  {
  }

  /** Formatting the oldest sector drops exactly its logs from the ring. */
  lemma RingDrop(g: Geometry, fl: TsFlash, oldest: nat, sec: TsSector)
    requires oldest < |fl| && sec.logs == []
    ensures |fl[oldest].logs| <= |RingLogs(fl, oldest, |fl|)|
    ensures RingLogs(fl[oldest := sec], Pos(|fl|, oldest, 1), |fl|) == RingLogs(fl, oldest, |fl|)[|fl[oldest].logs|..]
  {
    hide RingLogs;
    var n, fl' := |fl|, fl[oldest := sec];
    RingLogsFirst(fl, oldest, n);
    var next := Pos(n, oldest, 1);
    NextPlaces(n, oldest, n - 1);
    LastIsEmpty(fl', next);
    RestOfRing(fl, oldest, sec);
    assert (fl[oldest].logs + RingLogs(fl, next, n - 1))[|fl[oldest].logs|..] == RingLogs(fl, next, n - 1);
  }

  lemma LastIsEmpty(fl: TsFlash, start: nat)
    requires start < |fl| && fl[Pos(|fl|, start, |fl| - 1)].logs == []
    ensures RingLogs(fl, start, |fl|) == RingLogs(fl, start, |fl| - 1)
  {
  }

  /** Behind the oldest sector nothing changes when that one does. */
  lemma RestOfRing(fl: TsFlash, oldest: nat, sec: TsSector)
    requires oldest < |fl|
    ensures RingLogs(fl[oldest := sec], Pos(|fl|, oldest, 1), |fl| - 1) == RingLogs(fl, Pos(|fl|, oldest, 1), |fl| - 1)
  {
    hide RingLogs;
    var n, fl' := |fl|, fl[oldest := sec];
    var next := Pos(n, oldest, 1);
    forall p: nat | p < n - 1
      ensures fl'[Pos(n, next, p)].logs == fl[Pos(n, next, p)].logs
    {
      NextPlaces(n, oldest, p);
    }
    RingLogsSame(fl, fl', next, n - 1);
  }

  /** Changing headers does not change the logs of the ring. */
  lemma RingHeaders(fl: TsFlash, start: nat, s: nat, sec: TsSector)
    requires start < |fl| && s < |fl| && sec.logs == fl[s].logs
    ensures RingLogs(fl[s := sec], start, |fl|) == RingLogs(fl, start, |fl|)
  {
    RingLogsSame(fl, fl[s := sec], start, |fl|);
  }

  lemma RingSector(g: Geometry, fl: TsFlash, oldest: nat, cur: nat, s: nat)
    requires RingOk(g, fl, oldest, cur)
    ensures oldest < |fl| && cur < |fl| && (s < |fl| ==> SectorOk(g, fl[s]))
  {
  }

  /** Replacing the current sector by one that is in order keeps the ring in order. */
  lemma RingCurrent(g: Geometry, fl: TsFlash, oldest: nat, cur: nat, sec: TsSector)
    requires RingOk(g, fl, oldest, cur) && SectorOk(g, sec)
    ensures RingOk(g, fl[cur := sec], oldest, cur)
  {
    hide SectorOk;
  }

  /** From a full current sector the next one is empty, or it is the oldest and gets formatted. */
  lemma RingAdvance(g: Geometry, fl: TsFlash, oldest: nat, cur: nat)
    requires g.Valid() && RingOk(g, fl, oldest, cur) && fl[cur].store.Full?
    ensures var next, blank := Pos(|fl|, cur, 1), TsSector(Empty, -1, None, []);
      if fl[next].store.Empty? then RingOk(g, fl, oldest, next) && fl[next].logs == []
      else next == oldest && RingOk(g, fl[next := blank], Pos(|fl|, next, 1), next)
  {
    var next, blank := Pos(|fl|, cur, 1), TsSector(Empty, -1, None, []);
    assert SectorOk(g, blank) && SectorOk(g, fl[next]);
    hide SectorOk;
  }

  lemma CloseOk(g: Geometry, sec: TsSector, lastTime: int)
    requires SectorOk(g, sec) && sec.logs != [] && sec.logs[|sec.logs| - 1].time == lastTime
    ensures SectorOk(g, sec.(store := Full, end := Some(EndInfo(lastTime, g.IdxOff(|sec.logs|) - g.idx))))
  {
    IdxStep(g, |sec.logs| - 1);
  }

  lemma BlankSector(g: Geometry)
    ensures DataUsed(g, []) == 0 && g.IdxOff(0) == g.hdr
  {
  }

  lemma SuffixTwice(h: seq<Log>, d: nat, k: nat)
    requires d <= |h| && k <= |h[d..]|
    ensures h[d..][k..] == h[d + k..]
  {
  }

  lemma SuffixSorted(h: seq<Log>, d: nat)
    requires Sorted(h) && d <= |h|
    ensures Sorted(h[d..])
  {
  }

  lemma SuffixAppend(h: seq<Log>, d: nat, l: Log)
    requires d <= |h|
    ensures (h + [l])[d..] == h[d..] + [l]
  {
  }

  lemma SortedAppend(h: seq<Log>, l: Log)
    requires Sorted(h) && forall i :: 0 <= i < |h| ==> h[i].time <= l.time
    ensures Sorted(h + [l])
  {
  }

  lemma EmptyNoLogs(g: Geometry, sec: TsSector)
    requires SectorOk(g, sec)
    ensures sec.store.Empty? ==> sec.logs == []
  {
  }

  lemma UsingOk(g: Geometry, sec: TsSector, time: int)
    requires SectorOk(g, sec) && sec.store.Empty?
    ensures SectorOk(g, sec.(store := Using, startTime := time))
  {
  }

  lemma IdxStep(g: Geometry, k: int)
    ensures g.IdxOff(k + 1) == g.IdxOff(k) + g.idx
  {
  }

  /** Writing a log that fits keeps the sector in order. */
  lemma AppendSector(g: Geometry, sec: TsSector, l: Log)
    requires g.Valid() && SectorOk(g, sec) && sec.store.Using?
    requires sec.logs == [] ==> sec.startTime == l.time
    requires g.secSize - DataUsed(g, sec.logs) - g.IdxOff(|sec.logs|) >= g.idx + g.Align(|l.data|)
    requires l.addr == g.secSize - DataUsed(g, sec.logs) - g.Align(|l.data|)
    ensures SectorOk(g, sec.(logs := sec.logs + [l]))
    ensures DataUsed(g, sec.logs + [l]) == DataUsed(g, sec.logs) + g.Align(|l.data|)
    ensures g.IdxOff(|sec.logs + [l]|) == g.IdxOff(|sec.logs|) + g.idx
  {
    IdxStep(g, |sec.logs|);
    hide Geometry.IdxOff, DataUsed, Geometry.Align;
    LayoutAppend(g, sec.logs, l);
  }

  // ---------- Index arithmetic ----------

  lemma Multiple(d: int, m: int)
    requires m > 0
    ensures d >= 0 ==> d * m >= 0
    ensures d >= 1 ==> d * m >= m
    ensures d <= -1 ==> d * m <= -m
  {
    assert d * m == (d - 1) * m + m;
    assert d * m == (d + 1) * m - m;
  }

  lemma DivUnique(q: int, r: int, m: int)
    requires 0 <= r < m
    ensures (q * m + r) / m == q
  {
    var x := q * m + r;
    var d := x / m - q;
    assert x == x / m * m + x % m;
    assert d * m == r - x % m;
    Multiple(d, m);
  }

  lemma Midpoint(d: int, m: int)
    requires d >= 0 && m > 2
    ensures (d * m / 2 + 1) / m == d / 2
  {
    var h := d / 2;
    var p, x := h * m, d * m;
    Twice(h, m);
    if d == 2 * h {
      assert x == 2 * p;
      DivUnique(h, 1, m);
    } else {
      assert x == 2 * p + m;
      DivUnique(h, m / 2 + 1, m);
    }
  }

  lemma Twice(h: int, m: int)
    ensures (2 * h) * m == 2 * (h * m) && (2 * h + 1) * m == 2 * (h * m) + m
  {
  }

  /** The entry at an offset. */
  lemma IdxAt(g: Geometry, k: nat)
    requires g.Valid()
    ensures (g.IdxOff(k) - g.hdr) / g.idx == k
  {
    DivUnique(k, 0, g.idx);
  }

  /** Offsets order entries. */
  lemma IdxOrder(g: Geometry, j: int, k: int)
    requires g.Valid()
    ensures g.IdxOff(j) <= g.IdxOff(k) <==> j <= k
  {
    assert g.IdxOff(k) - g.IdxOff(j) == (k - j) * g.idx;
    Multiple(k - j, g.idx);
  }

  /** The aligned midpoint of the binary search is the middle entry, for every size of an entry. */
  lemma IdxMiddle(g: Geometry, lo: int, hi: int)
    requires g.Valid() && lo <= hi
    ensures g.IdxOff(lo) + ((g.IdxOff(hi) - g.IdxOff(lo)) / 2 + 1) / g.idx * g.idx == g.IdxOff(lo + (hi - lo) / 2)
  {
    var d := hi - lo;
    assert g.IdxOff(hi) - g.IdxOff(lo) == d * g.idx;
    Midpoint(d, g.idx);
    assert g.IdxOff(lo + d / 2) == g.IdxOff(lo) + d / 2 * g.idx;
  }
}
