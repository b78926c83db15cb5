/** Facts about range queries over the ring of sectors. */
module TsQuery {
  import opened TsFlash

  /** The logs of the sector `p` places behind the oldest. */
  function Part(fl: TsFlash, start: nat, p: nat): seq<Log>
    requires start < |fl| && p < |fl|
  {
    fl[Pos(|fl|, start, p)].logs
  }

  lemma {:induction false} RingPrefix(fl: TsFlash, start: nat, p: nat, k: nat)
    requires start < |fl| && p <= k <= |fl|
    ensures RingLogs(fl, start, p) <= RingLogs(fl, start, k)
    decreases k
  {
    if p < k {
      RingPrefix(fl, start, p, k - 1);
    }
  }

  /** Where the logs of one sector stand in the whole. */
  lemma PartAt(fl: TsFlash, start: nat, p: nat, i: nat)
    requires start < |fl| && p < |fl| && i < |Part(fl, start, p)|
    ensures |RingLogs(fl, start, p)| + i < |RingLogs(fl, start, |fl|)|
    ensures RingLogs(fl, start, |fl|)[|RingLogs(fl, start, p)| + i] == Part(fl, start, p)[i]
  {
    RingPrefix(fl, start, p + 1, |fl|);
    assert RingLogs(fl, start, p + 1) == RingLogs(fl, start, p) + Part(fl, start, p);
  }

  /** Logs of earlier sectors are not later in time. */
  lemma PartsInOrder(fl: TsFlash, start: nat, q: nat, i: nat, p: nat, j: nat)
    requires start < |fl| && q < |fl| && p < |fl| && i < |Part(fl, start, q)| && j < |Part(fl, start, p)|
    requires Sorted(RingLogs(fl, start, |fl|)) && (q < p || (q == p && i <= j))
    ensures Part(fl, start, q)[i].time <= Part(fl, start, p)[j].time
  {
    PartAt(fl, start, q, i);
    PartAt(fl, start, p, j);
    if q < p {
      RingPrefix(fl, start, q + 1, p);
      assert RingLogs(fl, start, q + 1) == RingLogs(fl, start, q) + Part(fl, start, q);
    }
  }

  /** `fdb_tsl_iter_by_time` starts at this sector: `from` lies in its span, or before all in the oldest sector. */
  ghost predicate Hit(fl: TsFlash, start: nat, p: nat, from: int)
    requires start < |fl| && p < |fl|
  {
    var logs := Part(fl, start, p);
    logs != [] && ((logs[0].time <= from <= logs[|logs| - 1].time) || (p == 0 && from <= logs[0].time))
  }

  /** The condition under which a query finds its start. */
  ghost predicate Reached(fl: TsFlash, start: nat, from: int)
    requires start < |fl|
  {
    exists p: nat :: p < |fl| && Hit(fl, start, p, from)
  }

  /** Everything before the first hit is too early. */
  lemma {:induction false} EarlierThanHit(fl: TsFlash, start: nat, q: nat, p: nat, from: int)
    requires start < |fl| && q <= p < |fl| && Sorted(RingLogs(fl, start, |fl|)) && Hit(fl, start, p, from)
    requires forall r: nat :: r < p ==> !Hit(fl, start, r, from)
    ensures forall i :: 0 <= i < |RingLogs(fl, start, q)| ==> RingLogs(fl, start, q)[i].time < from
    decreases q
  {
    if q > 0 {
      EarlierThanHit(fl, start, q - 1, p, from);
      var logs := Part(fl, start, q - 1);
      assert !Hit(fl, start, q - 1, from);
      forall i | 0 <= i < |logs|
        ensures logs[i].time < from
      {
        PartsInOrder(fl, start, q - 1, 0, p, 0);
        PartsInOrder(fl, start, q - 1, i, q - 1, |logs| - 1);
      }
      assert RingLogs(fl, start, q) == RingLogs(fl, start, q - 1) + logs;
    }
  }

  /** Everything behind a hit is late enough. */
  lemma LaterThanHit(fl: TsFlash, start: nat, p: nat, q: nat, from: int)
    requires start < |fl| && p < q < |fl| && Sorted(RingLogs(fl, start, |fl|)) && Hit(fl, start, p, from)
    ensures forall i :: 0 <= i < |Part(fl, start, q)| ==> Part(fl, start, q)[i].time >= from
  {
    var logs := Part(fl, start, p);
    forall i | 0 <= i < |Part(fl, start, q)|
      ensures Part(fl, start, q)[i].time >= from
    {
      PartsInOrder(fl, start, p, |logs| - 1, q, i);
      PartsInOrder(fl, start, p, 0, p, |logs| - 1);
    }
  }

  /** The stretch `[k..j]` a query copies from a sector is what the filter keeps of it. */
  lemma FilterPart(logs: seq<Log>, k: nat, j: nat, from: int, to: int)
    requires k <= j <= |logs|
    requires forall i :: 0 <= i < k ==> logs[i].time < from
    requires forall i :: k <= i < j ==> from <= logs[i].time <= to
    requires forall i :: j <= i < |logs| ==> logs[i].time > to
    ensures Filter(logs, from, to) == logs[k..j]
  {
    assert logs == logs[..k] + (logs[k..j] + logs[j..]);
    FilterConcat(logs[..k], logs[k..j] + logs[j..], from, to);
    FilterConcat(logs[k..j], logs[j..], from, to);
    FilterNone(logs[..k], from, to);
    FilterAll(logs[k..j], from, to);
    FilterNone(logs[j..], from, to);
  }

  /** One more sector filtered. */
  lemma FilterNext(fl: TsFlash, start: nat, p: nat, from: int, to: int)
    requires start < |fl| && p < |fl|
    ensures Filter(RingLogs(fl, start, p + 1), from, to)
      == Filter(RingLogs(fl, start, p), from, to) + Filter(Part(fl, start, p), from, to)
  {
    FilterConcat(RingLogs(fl, start, p), Part(fl, start, p), from, to);
  }

  /** Once a log is past the end of the range, so is everything behind its sector. */
  lemma {:induction false} FilterPast(fl: TsFlash, start: nat, p: nat, i: nat, k: nat, from: int, to: int)
    requires start < |fl| && p < k <= |fl| && i < |Part(fl, start, p)| && Part(fl, start, p)[i].time > to
    requires Sorted(RingLogs(fl, start, |fl|))
    ensures Filter(RingLogs(fl, start, k), from, to) == Filter(RingLogs(fl, start, p + 1), from, to)
    decreases k
  {
    hide Sorted, Part, Filter, RingLogs;
    if k > p + 1 {
      FilterPast(fl, start, p, i, k - 1, from, to);
      var logs := Part(fl, start, k - 1);
      forall j | 0 <= j < |logs|
        ensures logs[j].time > to
      {
        PartsInOrder(fl, start, p, i, k - 1, j);
      }
      FilterNone(logs, from, to);
      FilterNext(fl, start, k - 1, from, to);
    }
  }

  lemma PartSorted(fl: TsFlash, start: nat, p: nat)
    requires start < |fl| && p < |fl| && Sorted(RingLogs(fl, start, |fl|))
    ensures Sorted(Part(fl, start, p))
  {
    forall i, j | 0 <= i < j < |Part(fl, start, p)|
      ensures Part(fl, start, p)[i].time <= Part(fl, start, p)[j].time
    {
      PartsInOrder(fl, start, p, i, p, j);
    }
  }

  /** A sector taken into the query, being the first hit or behind it, holds a log not before `from`. */
  lemma LastLateEnough(fl: TsFlash, start: nat, h: nat, p: nat, from: int)
    requires start < |fl| && h <= p < |fl| && Sorted(RingLogs(fl, start, |fl|)) && Hit(fl, start, h, from)
    requires Part(fl, start, p) != []
    ensures Part(fl, start, p)[|Part(fl, start, p)| - 1].time >= from
  {
    if h < p {
      LaterThanHit(fl, start, h, p, from);
    } else {
      PartsInOrder(fl, start, p, 0, p, |Part(fl, start, p)| - 1);
    }
  }

  /** Filtering up to the first hit gives nothing. */
  lemma FilterBeforeHit(fl: TsFlash, start: nat, p: nat, from: int, to: int)
    requires start < |fl| && p < |fl| && Sorted(RingLogs(fl, start, |fl|)) && Hit(fl, start, p, from)
    requires forall r: nat :: r < p ==> !Hit(fl, start, r, from)
    ensures Filter(RingLogs(fl, start, p), from, to) == []
  {
    EarlierThanHit(fl, start, p, p, from);
    FilterNone(RingLogs(fl, start, p), from, to);
  }

  /** An empty sector ends the ring. */
  lemma EmptyEndsRing(g: Geometry, fl: TsFlash, oldest: nat, cur: nat, p: nat, from: int)
    requires RingOk(g, fl, oldest, cur) && p < |fl| && fl[Pos(|fl|, oldest, p)].store.Empty?
    ensures RingLogs(fl, oldest, |fl|) == RingLogs(fl, oldest, p)
    ensures forall q: nat :: p <= q < |fl| ==> !Hit(fl, oldest, q, from)
  {
    RingPlaces(g, fl, oldest, cur);
    var c := CurPlace(|fl|, oldest, cur);
    RingSector(g, fl, oldest, cur, cur);
    forall q: nat | p <= q < |fl|
      ensures Part(fl, oldest, q) == []
    {
      if q == c {
        assert p == c;
        EmptyNoLogs(g, fl[cur]);
      }
    }
    RingLogsEmptyTail(fl, oldest, p, |fl|);
  }

  /** A ring that holds logs has some in its oldest sector, and they come first. */
  lemma OldestFirst(g: Geometry, fl: TsFlash, oldest: nat, cur: nat)
    requires RingOk(g, fl, oldest, cur) && RingLogs(fl, oldest, |fl|) != []
    ensures Part(fl, oldest, 0) != [] && RingLogs(fl, oldest, |fl|)[0] == Part(fl, oldest, 0)[0]
  {
    RingPlaces(g, fl, oldest, cur);
    var c := CurPlace(|fl|, oldest, cur);
    RingSector(g, fl, oldest, cur, Pos(|fl|, oldest, 0));
    if c == 0 {
      RingLogsEmptyTail(fl, oldest, 1, |fl|);
      assert RingLogs(fl, oldest, 1) == RingLogs(fl, oldest, 0) + Part(fl, oldest, 0);
    }
    PartAt(fl, oldest, 0, 0);
  }

  /** Every sector has its place in the ring. */
  lemma PlaceOf(n: nat, start: nat, s: nat) returns (p: nat)
    requires start < n && s < n
    ensures p < n && Pos(n, start, p) == s
  {
    p := if start <= s then s - start else s + n - start;
  }

  /** A sector whose span holds `from` is a start. */
  lemma SpanReached(fl: TsFlash, oldest: nat, s: nat, from: int)
    requires oldest < |fl| && s < |fl| && fl[s].logs != []
    requires fl[s].logs[0].time <= from <= fl[s].logs[|fl[s].logs| - 1].time
    ensures Reached(fl, oldest, from)
  {
    var p := PlaceOf(|fl|, oldest, s);
    assert Hit(fl, oldest, p, from);
  }

  /**
   A query finds its start if and only if it begins not after the oldest log, or some sector
   holds a log that is not after `from` and a log that is not before it.
   */
  lemma ReachedIff(g: Geometry, fl: TsFlash, oldest: nat, cur: nat, from: int)
    requires RingOk(g, fl, oldest, cur)
    ensures var logs := RingLogs(fl, oldest, |fl|);
      Reached(fl, oldest, from) <==>
        || (logs != [] && from <= logs[0].time)
        || exists s: nat ::
          && s < |fl| && fl[s].logs != []
          && fl[s].logs[0].time <= from <= fl[s].logs[|fl[s].logs| - 1].time
  {
    var logs := RingLogs(fl, oldest, |fl|);
    if logs != [] && from <= logs[0].time {
      OldestFirst(g, fl, oldest, cur);
      assert Hit(fl, oldest, 0, from);
    }
    hide RingLogs, SectorOk;
    if Reached(fl, oldest, from) {
      var p: nat :| p < |fl| && Hit(fl, oldest, p, from);
      var part := fl[Pos(|fl|, oldest, p)].logs;
      if p == 0 {
        PartAt(fl, oldest, 0, 0);
        OldestFirst(g, fl, oldest, cur);
      }
    }
    forall s: nat | s < |fl| && fl[s].logs != [] && fl[s].logs[0].time <= from <= fl[s].logs[|fl[s].logs| - 1].time
      ensures Reached(fl, oldest, from)
    {
      SpanReached(fl, oldest, s, from);
    }
  }

  /**
   Whenever `from` falls between the spans of two neighbouring sectors, the query finds no
   start, though logs follow.
   */
  lemma GapIsMissed(fl: TsFlash, start: nat, p: nat, from: int, to: int)
    requires start < |fl| && p + 1 < |fl| && Sorted(RingLogs(fl, start, |fl|))
    requires Part(fl, start, p) != [] && Part(fl, start, p + 1) != []
    requires Part(fl, start, p)[|Part(fl, start, p)| - 1].time < from < Part(fl, start, p + 1)[0].time <= to
    ensures !Reached(fl, start, from) && Filter(RingLogs(fl, start, |fl|), from, to) != []
  {
    forall q: nat | q < |fl| && Part(fl, start, q) != []
      ensures !Hit(fl, start, q, from)
    {
      var logs := Part(fl, start, q);
      if q <= p {
        PartsInOrder(fl, start, q, |logs| - 1, p, |Part(fl, start, p)| - 1);
        PartsInOrder(fl, start, q, 0, p, |Part(fl, start, p)| - 1);
      } else {
        PartsInOrder(fl, start, p + 1, 0, q, 0);
      }
    }
    PartAt(fl, start, p + 1, 0);
    FilterHas(RingLogs(fl, start, |fl|), |RingLogs(fl, start, p + 1)|, from, to);
  }

  lemma {:induction false} FilterHas(logs: seq<Log>, i: nat, from: int, to: int)
    requires i < |logs| && from <= logs[i].time <= to
    ensures logs[i] in Filter(logs, from, to)
  {
    if i < |logs| - 1 {
      FilterHas(logs[..|logs| - 1], i, from, to);
    }
  }
}
