/** How a history of logs is cut into sectors, and which part of it a ring of sectors has dropped. */
module TsPacks {
  import opened TsFlash

  /** A log of `size` bytes fits behind the logs of a sector. */
  predicate Room(g: Geometry, logs: seq<Log>, size: nat) {
    g.idx + g.Align(size) <= g.secSize - DataUsed(g, logs) - g.IdxOff(|logs|)
  }

  /** One more log: behind the last ones if it fits there, otherwise in a sector of its own. */
  function Extend(g: Geometry, ps: seq<seq<Log>>, l: Log): (r: seq<seq<Log>>)
    ensures |ps| <= |r| <= |ps| + 1 && 0 < |r|
  {
    if ps != [] && Room(g, ps[|ps| - 1], |l.data|) then ps[..|ps| - 1] + [ps[|ps| - 1] + [l]] else ps + [[l]]
  }

  /** The history, cut where a log did not fit the sector in use. */
  function Packs(g: Geometry, h: seq<Log>): (r: seq<seq<Log>>)
    ensures (r == [] <==> h == []) && forall i :: 0 <= i < |r| ==> r[i] != []
  {
    if h == [] then [] else Extend(g, Packs(g, h[..|h| - 1]), h[|h| - 1])
  }

  /** Of `k` packs a ring of `n` sectors has overwritten so many. */
  function Gone(n: nat, k: nat): nat {
    if k > n then k - n else 0
  }

  /** The logs in the first `k` packs. */
  function Count(ps: seq<seq<Log>>, k: nat): nat
    requires k <= |ps|
  {
    if k == 0 then 0 else Count(ps, k - 1) + |ps[k - 1]|
  }

  /** How many of the first logs of a history a ring of `n` sectors no longer holds. */
  function Dropped(g: Geometry, n: nat, h: seq<Log>): nat {
    Count(Packs(g, h), Gone(n, |Packs(g, h)|))
  }

  lemma {:induction false} CountSame(a: seq<seq<Log>>, b: seq<seq<Log>>, k: nat)
    requires k <= |a| && k <= |b| && forall i :: 0 <= i < k ==> a[i] == b[i]
    ensures Count(a, k) == Count(b, k)
  {
    if k > 0 {
      CountSame(a, b, k - 1);
    }
  }

  lemma {:induction false} CountMonotone(ps: seq<seq<Log>>, j: nat, k: nat)
    requires j <= k <= |ps|
    ensures Count(ps, j) <= Count(ps, k)
    ensures j < k ==> Count(ps, j) + |ps[j]| <= Count(ps, k)
    decreases k
  {
    if j < k {
      CountMonotone(ps, j, k - 1);
    }
  }

  /** The packs hold the whole history. */
  lemma {:induction false} CountAll(g: Geometry, h: seq<Log>)
    ensures Count(Packs(g, h), |Packs(g, h)|) == |h|
  {
    hide Extend, Count;
    if h != [] {
      CountAll(g, h[..|h| - 1]);
      CountExtend(g, Packs(g, h[..|h| - 1]), h[|h| - 1]);
    } else {
      CountNone([]);
    }
  }

  lemma CountNone(ps: seq<seq<Log>>)
    ensures Count(ps, 0) == 0
  {
  }

  /** One more log is one more in the count. */
  lemma CountExtend(g: Geometry, ps: seq<seq<Log>>, l: Log)
    ensures var qs := Extend(g, ps, l); Count(qs, |qs|) == Count(ps, |ps|) + 1
  {
    hide Room;
    var qs := Extend(g, ps, l);
    CountSame(ps, qs, |qs| - 1);
    CountLast(qs);
    if |qs| == |ps| {
      CountLast(ps);
    }
  }

  lemma CountLast(ps: seq<seq<Log>>)
    requires ps != []
    ensures Count(ps, |ps|) == Count(ps, |ps| - 1) + |ps[|ps| - 1]|
  {
  }

  /** Before the ring wraps nothing is dropped; afterwards at least the newest log is kept. */
  lemma DroppedBounds(g: Geometry, n: nat, h: seq<Log>)
    requires n > 0
    ensures |Packs(g, h)| <= n ==> Dropped(g, n, h) == 0
    ensures h != [] ==> Dropped(g, n, h) < |h|
    ensures Dropped(g, n, h) <= |h|
  {
    var ps := Packs(g, h);
    CountAll(g, h);
    if h != [] {
      CountMonotone(ps, Gone(n, |ps|), |ps| - 1);
    }
  }

  /** The sectors of the ring hold the packs that are not gone, in order, up to the current sector. */
  ghost predicate Placed(fl: TsFlash, oldest: nat, cur: nat, ps: seq<seq<Log>>)
    requires oldest < |fl| && cur < |fl|
  {
    if ps == [] then Ready(fl, oldest, cur, ps)
    else
      var gone := Gone(|fl|, |ps|);
      && CurPlace(|fl|, oldest, cur) == |ps| - gone - 1
      && forall p: nat :: p < |ps| - gone ==> fl[Pos(|fl|, oldest, p)].logs == ps[gone + p]
  }

  /** The current sector is empty and waits for the first log of the next pack. */
  ghost predicate Ready(fl: TsFlash, oldest: nat, cur: nat, ps: seq<seq<Log>>)
    requires oldest < |fl| && cur < |fl|
  {
    var gone := Gone(|fl|, |ps| + 1);
    && CurPlace(|fl|, oldest, cur) == |ps| - gone && fl[cur].logs == []
    && forall p: nat :: p < |ps| - gone ==> fl[Pos(|fl|, oldest, p)].logs == ps[gone + p]
  }

  lemma PlacedHeaders(fl: TsFlash, oldest: nat, cur: nat, ps: seq<seq<Log>>, s: nat, sec: TsSector)
    requires oldest < |fl| && cur < |fl| && s < |fl| && sec.logs == fl[s].logs
    ensures Placed(fl, oldest, cur, ps) ==> Placed(fl[s := sec], oldest, cur, ps)
    ensures Ready(fl, oldest, cur, ps) ==> Ready(fl[s := sec], oldest, cur, ps)
  {
  }

  /** The current sector holds the last pack. */
  lemma LastPack(g: Geometry, fl: TsFlash, oldest: nat, cur: nat, ps: seq<seq<Log>>)
    requires RingOk(g, fl, oldest, cur) && Placed(fl, oldest, cur, ps) && ps != []
    ensures fl[cur].logs == ps[|ps| - 1]
  {
    RingPlaces(g, fl, oldest, cur);
  }

  /** The log goes to the current sector, which has logs. */
  lemma PlacedAppend(g: Geometry, fl: TsFlash, oldest: nat, cur: nat, ps: seq<seq<Log>>, sec: TsSector, l: Log)
    requires RingOk(g, fl, oldest, cur) && Placed(fl, oldest, cur, ps) && ps != [] && sec.logs == fl[cur].logs + [l]
    requires Room(g, fl[cur].logs, |l.data|)
    ensures Placed(fl[cur := sec], oldest, cur, Extend(g, ps, l))
  {
    hide SectorOk, Room;
    RingPlaces(g, fl, oldest, cur);
    LastPack(g, fl, oldest, cur, ps);
    var n, qs, gone := |fl|, Extend(g, ps, l), Gone(|fl|, |ps|);
    forall p: nat | p < |qs| - gone
      ensures fl[cur := sec][Pos(n, oldest, p)].logs == qs[gone + p]
    {
    }
  }

  /** The log is the first of its sector. */
  lemma PlacedFirst(g: Geometry, fl: TsFlash, oldest: nat, cur: nat, ps: seq<seq<Log>>, sec: TsSector, l: Log)
    requires RingOk(g, fl, oldest, cur) && Ready(fl, oldest, cur, ps) && sec.logs == [l]
    ensures Placed(fl[cur := sec], oldest, cur, ps + [[l]])
  {
    hide SectorOk;
    RingPlaces(g, fl, oldest, cur);
    var n, qs, gone := |fl|, ps + [[l]], Gone(|fl|, |ps| + 1);
    forall p: nat | p < |qs| - gone
      ensures fl[cur := sec][Pos(n, oldest, p)].logs == qs[gone + p]
    {
    }
  }

  /** Going on to an empty sector. */
  lemma ReadyNext(g: Geometry, fl: TsFlash, oldest: nat, cur: nat, ps: seq<seq<Log>>)
    requires RingOk(g, fl, oldest, cur) && fl[cur].store.Full? && Placed(fl, oldest, cur, ps) && ps != []
    requires fl[Pos(|fl|, cur, 1)].store.Empty? && fl[Pos(|fl|, cur, 1)].logs == []
    ensures |ps| < |fl| && Ready(fl, oldest, Pos(|fl|, cur, 1), ps)
  {
    hide SectorOk;
    RingPlaces(g, fl, oldest, cur);
    var n, c := |fl|, CurPlace(|fl|, oldest, cur);
    assert Pos(n, oldest, 0) == oldest && (0 < c ==> fl[Pos(n, oldest, 0)].store.Full?);
  }

  /** Going on to the oldest sector, which is formatted: exactly its pack is gone. */
  lemma ReadyDrop(g: Geometry, fl: TsFlash, oldest: nat, cur: nat, ps: seq<seq<Log>>, sec: TsSector)
    requires RingOk(g, fl, oldest, cur) && Placed(fl, oldest, cur, ps) && ps != [] && Pos(|fl|, cur, 1) == oldest
    requires sec.logs == []
    requires !fl[oldest].store.Empty?
    ensures |ps| >= |fl| && Ready(fl[oldest := sec], Pos(|fl|, oldest, 1), oldest, ps)
    ensures Count(ps, Gone(|fl|, |ps| + 1)) == Count(ps, Gone(|fl|, |ps|)) + |fl[oldest].logs|
  {
    hide SectorOk;
    RingPlaces(g, fl, oldest, cur);
    var n, gone := |fl|, Gone(|fl|, |ps|);
    assert CurPlace(n, oldest, cur) == n - 1;
    assert fl[Pos(n, oldest, 0)].logs == ps[gone];
    var fl', first := fl[oldest := sec], Pos(n, oldest, 1);
    forall p: nat | p < n - 1
      ensures fl'[Pos(n, first, p)].logs == ps[gone + 1 + p]
    {
      NextPlaces(n, oldest, p);
      assert Pos(n, first, p) == Pos(n, oldest, p + 1);
    }
  }

  // ---------- How full the sectors are ----------

  /** The bytes that logs take up in a sector, their index entries included. */
  function Bytes(g: Geometry, logs: seq<Log>): nat {
    if logs == [] then 0 else Bytes(g, logs[..|logs| - 1]) + g.idx + g.Align(|logs[|logs| - 1].data|)
  }

  /** No log takes up more than `most` bytes. */
  ghost predicate AtMost(g: Geometry, logs: seq<Log>, most: nat) {
    forall i :: 0 <= i < |logs| ==> g.idx + g.Align(|logs[i].data|) <= most
  }

  lemma {:induction false} BytesConcat(g: Geometry, a: seq<Log>, b: seq<Log>)
    ensures Bytes(g, a + b) == Bytes(g, a) + Bytes(g, b)
  {
    if b == [] {
      assert a + b == a;
    } else {
      assert (a + b)[..|a + b| - 1] == a + b[..|b| - 1];
      BytesConcat(g, a, b[..|b| - 1]);
    }
  }

  /** What a sector has left for more logs. */
  lemma {:induction false} BytesLeft(g: Geometry, logs: seq<Log>)
    ensures DataUsed(g, logs) + g.IdxOff(|logs|) == g.hdr + Bytes(g, logs)
  {
    hide Geometry.Align;
    if logs != [] {
      BytesLeft(g, logs[..|logs| - 1]);
      IdxStep(g, |logs| - 1);
    }
  }

  /** A pack is left only for a log that does not fit behind it. */
  lemma {:induction false} PackTight(g: Geometry, h: seq<Log>, most: nat, i: nat)
    requires AtMost(g, h, most) && i + 1 < |Packs(g, h)|
    ensures Bytes(g, Packs(g, h)[i]) + most > g.secSize - g.hdr
  {
    hide Geometry.Align, Geometry.IdxOff, DataUsed, Bytes;
    var ps, l := Packs(g, h[..|h| - 1]), h[|h| - 1];
    if i + 1 < |ps| {
      PackTight(g, h[..|h| - 1], most, i);
    } else {
      BytesLeft(g, ps[i]);
    }
  }

  /** The sectors of a wrapped ring, without the one in use. */
  lemma {:induction false} RingBytes(g: Geometry, fl: TsFlash, oldest: nat, cur: nat, h: seq<Log>, most: nat, k: nat)
    requires oldest < |fl| && cur < |fl| && Placed(fl, oldest, cur, Packs(g, h)) && |Packs(g, h)| > |fl| > k
    requires AtMost(g, h, most) && most <= g.secSize - g.hdr
    ensures Bytes(g, RingLogs(fl, oldest, k)) >= k * (g.secSize - g.hdr - most)
  {
    hide Packs, AtMost, Bytes, Geometry.Align;
    if k > 0 {
      RingBytes(g, fl, oldest, cur, h, most, k - 1);
      var part := fl[Pos(|fl|, oldest, k - 1)].logs;
      PackTight(g, h, most, |Packs(g, h)| - |fl| + k - 1);
      BytesConcat(g, RingLogs(fl, oldest, k - 1), part);
      RingLogsLast(fl, oldest, k);
      assert k * (g.secSize - g.hdr - most)
        == (k - 1) * (g.secSize - g.hdr - most) + (g.secSize - g.hdr - most);
    } else {
      RingLogsNone(fl, oldest);
    }
  }

  /** A ring that has dropped logs is full, but for one sector and the room that a log did not fit. */
  lemma RingFull(g: Geometry, fl: TsFlash, oldest: nat, cur: nat, h: seq<Log>, most: nat)
    requires oldest < |fl| && cur < |fl| && Placed(fl, oldest, cur, Packs(g, h)) && |Packs(g, h)| > |fl|
    requires AtMost(g, h, most) && most <= g.secSize - g.hdr
    ensures Bytes(g, RingLogs(fl, oldest, |fl|)) >= (|fl| - 1) * (g.secSize - g.hdr - most)
  {
    hide Packs, AtMost, Bytes, Geometry.Align, Placed;
    RingBytes(g, fl, oldest, cur, h, most, |fl| - 1);
    RingLogsLast(fl, oldest, |fl|);
    BytesConcat(g, RingLogs(fl, oldest, |fl| - 1), fl[Pos(|fl|, oldest, |fl| - 1)].logs);
  }
}
