/** The ring buffer of asynchronous log output (elog_async.c). */
module LogRing {
  /** `elog_async_get_buf_used`. */
  function UsedOf(capacity: nat, w: nat, r: nat, full: bool, empty: bool): int {
    if w > r then w - r
    else if !full && !empty then capacity - (r - w)
    else if full then capacity
    else 0
  }

  /** A newline sign ends right before position `m`. */
  predicate LineEndsAt(src: seq<bv8>, nl: seq<bv8>, m: int) {
    |nl| <= m <= |src| && src[m - |nl|..m] == nl
  }

  /** Where the first newline sign behind position `n` ends, or the end of `src`. */
  function LineLen(src: seq<bv8>, nl: seq<bv8>, n: nat): (r: nat)
    requires n <= |src|
    ensures n <= r <= |src| && (n < |src| ==> n < r) && (r < |src| ==> LineEndsAt(src, nl, r))
    ensures forall m :: n < m < r ==> !LineEndsAt(src, nl, m)
    decreases |src| - n
  {
    if n == |src| then n else if LineEndsAt(src, nl, n + 1) then n + 1 else LineLen(src, nl, n + 1)
  }

  /** The first line of `src`, with its newline sign. */
  function FirstLine(src: seq<bv8>, nl: seq<bv8>): (r: seq<bv8>)
    ensures r <= src && (src != [] ==> r != [])
  {
    src[..LineLen(src, nl, 0)]
  }

  /** A line is known by its end: the first newline sign ends there, or nothing follows. */
  lemma FirstLineIs(src: seq<bv8>, nl: seq<bv8>, n: nat)
    requires n <= |src| && (src != [] ==> n > 0) && (n < |src| ==> LineEndsAt(src, nl, n))
    requires forall m :: 0 < m < n ==> !LineEndsAt(src, nl, m)
    ensures LineLen(src, nl, 0) == n
  {
  }

  /** `elog_cpyln`: copy up to and including the first newline sign, or everything. */
  method CopyLine(src: seq<bv8>, nl: seq<bv8>) returns (line: seq<bv8>)
    ensures line == FirstLine(src, nl)
  {
    line := [];
    var n := 0;
    while n < |src|
      invariant 0 <= n <= |src| && line == src[..n]
      invariant forall m :: 0 < m <= n ==> !LineEndsAt(src, nl, m)
    {
      line := line + [src[n]];
      n := n + 1;
      assert src[..n] == src[..n - 1] + [src[n - 1]];
      assert n >= |nl| ==> line[n - |nl|..] == src[n - |nl|..n];
      if n >= |nl| && line[n - |nl|..] == nl {
        FirstLineIs(src, nl, n);
        return;
      }
    }
    FirstLineIs(src, nl, n);
  }

  /** An index advanced at most once around. */
  function Wrap(capacity: nat, i: nat): int {
    if i < capacity then i else i - capacity
  }

  /** The `n` bytes of `b` from index `r` on, wrapping around. */
  function Queue(b: seq<bv8>, r: nat, n: nat): (q: seq<bv8>)
    requires r < |b| && n <= |b|
    ensures |q| == n && forall i :: 0 <= i < n ==> q[i] == if r + i < |b| then b[r + i] else b[r + i - |b|]
  {
    if r + n <= |b| then b[r..r + n] else b[r..] + b[..r + n - |b|]
  }

  /** `b` with `log` written from index `w` on, wrapping around. */
  function Overlay(b: seq<bv8>, w: nat, log: seq<bv8>): (o: seq<bv8>)
    requires w < |b| && |log| <= |b|
    ensures |o| == |b|
    ensures forall j :: 0 <= j < |b| ==>
      o[j] == if w <= j < w + |log| then log[j - w] else if j + |b| < w + |log| then log[j + |b| - w] else b[j]
  {
    seq(|b|, j requires 0 <= j < |b| =>
      if w <= j < w + |log| then log[j - w] else if j + |b| < w + |log| then log[j + |b| - w] else b[j])
  }

  /** Bytes written behind the queue extend it. */
  lemma QueuePut(b: seq<bv8>, r: nat, used: nat, log: seq<bv8>)
    requires r < |b| && used + |log| <= |b| && used < |b|
    ensures Queue(Overlay(b, Wrap(|b|, r + used), log), r, used + |log|) == Queue(b, r, used) + log
  {
    var q, q' := Queue(b, r, used), Queue(Overlay(b, Wrap(|b|, r + used), log), r, used + |log|);
    forall i | 0 <= i < used + |log|
      ensures q'[i] == (q + log)[i]
    {
    }
  }

  /** Reading from the front leaves the rest. */
  lemma QueueGet(b: seq<bv8>, r: nat, used: nat, n: nat)
    requires r < |b| && n <= used <= |b|
    ensures Queue(b, r, n) == Queue(b, r, used)[..n]
    ensures n < |b| ==> Queue(b, Wrap(|b|, r + n), used - n) == Queue(b, r, used)[n..]
  {
    hide Queue;
    var q := Queue(b, r, used);
    assert Queue(b, r, n) == q[..n];
    if n < |b| {
      var t := Queue(b, Wrap(|b|, r + n), used - n);
      forall i | 0 <= i < used - n
        ensures t[i] == q[n..][i]
      {
        assert q[n..][i] == q[n + i];
      }
    }
  }

  lemma Deliver(d: seq<bv8>, q: seq<bv8>, n: nat)
    requires n <= |q|
    ensures (d + q[..n]) + q[n..] == d + q
  {
  }

  lemma LineEndsPrefix(a: seq<bv8>, b: seq<bv8>, nl: seq<bv8>, m: int)
    requires a <= b && m <= |a|
    ensures LineEndsAt(a, nl, m) <==> LineEndsAt(b, nl, m)
  {
    if |nl| <= m {
      assert a[m - |nl|..m] == b[m - |nl|..m];
    }
  }

  lemma LineEndsShift(head: seq<bv8>, tail: seq<bv8>, nl: seq<bv8>, m: int)
    requires |head| + |nl| <= m <= |head| + |tail|
    ensures LineEndsAt(head + tail, nl, m) <==> LineEndsAt(tail, nl, m - |head|)
  {
    assert (head + tail)[m - |nl|..m] == tail[m - |head| - |nl|..m - |head|];
  }

  /**
   What one or two calls of `elog_cpyln` take: `k` bytes lie before the end of the buffer, the
   others at its start.
   */
  function LineTaken(all: seq<bv8>, k: nat, nl: seq<bv8>): (r: seq<bv8>)
    ensures r <= all && (all != [] && k > 0 ==> r != [])
  {
    if |all| < k then FirstLine(all, nl)
    else
      var head := FirstLine(all[..k], nl);
      if |head| == k then head + FirstLine(all[k..], nl) else head
  }

  method LineOf(all: seq<bv8>, k: nat, nl: seq<bv8>) returns (line: seq<bv8>)
    ensures line == LineTaken(all, k, nl)
  {
    if |all| < k {
      line := CopyLine(all, nl);
    } else {
      line := CopyLine(all[..k], nl);
      if |line| == k {
        var tail := CopyLine(all[k..], nl);
        line := line + tail;
      }
    }
  }

  /** The first newline sign is followed by more and ends at the end of the buffer, or lies across it. */
  predicate LineAtSeam(all: seq<bv8>, k: nat, nl: seq<bv8>) {
    var n := LineLen(all, nl, 0);
    n < |all| && (n == k || k < n < k + |nl|)
  }

  lemma HeadEnds(all: seq<bv8>, k: nat, nl: seq<bv8>)
    requires 0 < k <= |all|
    ensures var n := LineLen(all, nl, 0); LineLen(all[..k], nl, 0) == if n < k then n else k
  {
    hide LineEndsAt;
    var n := LineLen(all, nl, 0);
    forall m | 0 < m <= k
      ensures LineEndsAt(all[..k], nl, m) <==> LineEndsAt(all, nl, m)
    {
      LineEndsPrefix(all[..k], all, nl, m);
    }
    FirstLineIs(all[..k], nl, if n < k then n else k);
  }

  lemma TailEnds(all: seq<bv8>, k: nat, nl: seq<bv8>, m: int)
    requires k <= |all| && m <= |all|
    ensures LineEndsAt(all[k..], nl, m - k) <==> LineEndsAt(all, nl, m) && k + |nl| <= m
  {
    assert all == all[..k] + all[k..];
    if k + |nl| <= m {
      LineEndsShift(all[..k], all[k..], nl, m);
    }
  }

  /** How many bytes a line-wise read takes. */
  function TakenLen(all: seq<bv8>, k: nat, nl: seq<bv8>): nat {
    var n := LineLen(all, nl, 0);
    if |all| < k || n < k then n else k + LineLen(all[k..], nl, 0)
  }

  lemma TakenIs(all: seq<bv8>, k: nat, nl: seq<bv8>)
    requires k > 0
    ensures TakenLen(all, k, nl) <= |all| && LineTaken(all, k, nl) == all[..TakenLen(all, k, nl)]
  {
    hide LineLen, LineEndsAt;
    if k <= |all| {
      HeadEnds(all, k, nl);
      assert all[..k][..LineLen(all[..k], nl, 0)] == all[..LineLen(all[..k], nl, 0)];
      assert all[..k] + all[k..][..LineLen(all[k..], nl, 0)] == all[..k + LineLen(all[k..], nl, 0)];
    }
  }

  /** Behind the end of the buffer the line goes on to its newline sign, unless that touches the end. */
  lemma TailLen(all: seq<bv8>, k: nat, nl: seq<bv8>)
    requires 0 < k <= |all| && k <= LineLen(all, nl, 0)
    ensures k + LineLen(all[k..], nl, 0) == LineLen(all, nl, 0) <==> !LineAtSeam(all, k, nl)
  {
    hide LineEndsAt, LineLen;
    var n, t := LineLen(all, nl, 0), LineLen(all[k..], nl, 0);
    TailEnds(all, k, nl, k + t);
    TailEnds(all, k, nl, n);
    if !LineAtSeam(all, k, nl) && n > k {
      forall m | 0 < m < n - k
        ensures !LineEndsAt(all[k..], nl, m)
      {
        TailEnds(all, k, nl, k + m);
      }
      FirstLineIs(all[k..], nl, n - k);
    }
  }

  /**
   A line-wise read takes exactly the first line, unless its newline sign touches the end of the
   buffer and more follows.
   */
  lemma FirstLineIff(all: seq<bv8>, k: nat, nl: seq<bv8>)
    requires k > 0
    ensures LineTaken(all, k, nl) == FirstLine(all, nl) <==> !LineAtSeam(all, k, nl)
  {
    hide LineLen, LineTaken, LineEndsAt, TakenLen;
    TakenIs(all, k, nl);
    var n, t := LineLen(all, nl, 0), TakenLen(all, k, nl);
    assert |all[..t]| == t && |all[..n]| == n;
    TakenSplit(all, k, nl);
    if k <= |all| && k <= n {
      TailLen(all, k, nl);
    }
  }

  lemma TakenSplit(all: seq<bv8>, k: nat, nl: seq<bv8>)
    requires k > 0
    ensures var n := LineLen(all, nl, 0);
      TakenLen(all, k, nl) == if |all| < k || n < k then n else k + LineLen(all[k..], nl, 0)
  {
    hide LineLen;
  }

  /** The smallest such case: the first line fills the buffer up to its end, and two lines come out as one. */
  lemma MergedLines()
    ensures LineTaken([65, 10, 66, 10], 2, [10]) == [65, 10, 66, 10] && FirstLine([65, 10, 66, 10], [10]) == [65, 10]
  {
    var all: seq<bv8>, nl: seq<bv8> := [65, 10, 66, 10], [10];
    assert all[0..1][0] == 65 && nl[0] == 10;
    assert !LineEndsAt(all, nl, 1) && LineEndsAt(all, nl, 2);
    FirstLineIs(all, nl, 2);
    HeadEnds(all, 2, nl);
    var tail := all[2..];
    assert tail == [66, 10];
    assert tail[0..1][0] == 66;
    assert !LineEndsAt(tail, nl, 1) && LineEndsAt(tail, nl, 2);
    FirstLineIs(tail, nl, 2);
  }

  class Ring {
    const capacity: nat
    const buf: array<bv8>
    var writeIndex: nat
    var readIndex: nat
    var isFull: bool
    var isEmpty: bool
    /** All bytes ever accepted and all bytes ever handed out. */
    ghost var accepted: seq<bv8>
    ghost var delivered: seq<bv8>

    ghost predicate Shape()
      reads this
    {
      && 0 < capacity == buf.Length && writeIndex < capacity && readIndex < capacity
      && !(isFull && isEmpty) && (writeIndex == readIndex <==> isFull || isEmpty)
    }

    function Used(): (n: int)
      requires Shape()
      reads this
      ensures 0 <= n <= capacity && (isFull <==> n == capacity) && (isEmpty <==> n == 0)
      ensures writeIndex == Wrap(capacity, Wrap(capacity, readIndex + n))
    {
      UsedOf(capacity, writeIndex, readIndex, isFull, isEmpty)
    }

    /** The queue the ring stands for. */
    ghost function Contents(): (q: seq<bv8>)
      requires Shape()
      reads this, buf
      ensures |q| == Used()
    {
      Queue(buf[..], readIndex, Used())
    }

    ghost predicate Valid()
      reads this, buf
    {
      Shape() && accepted == delivered + Contents()
    }

    constructor (capacity: nat)
      requires capacity > 0
      ensures Valid() && Contents() == [] && accepted == [] && delivered == [] && this.capacity == capacity
      ensures readIndex == 0 && fresh(buf)
    {
      this.capacity := capacity;
      buf := new bv8[capacity](_ => 0);
      writeIndex, readIndex, isFull, isEmpty := 0, 0, false, true;
      accepted, delivered := [], [];
    }

    /** `memcpy` into the buffer. */
    method CopyIn(off: nat, src: seq<bv8>)
      requires off + |src| <= buf.Length
      modifies buf
      ensures forall i :: 0 <= i < buf.Length ==> buf[i] == if off <= i < off + |src| then src[i - off] else old(buf[i])
    {
      for i := 0 to |src|
        invariant forall j :: 0 <= j < buf.Length ==> buf[j] == if off <= j < off + i then src[j - off] else old(buf[j])
      {
        buf[off + i] := src[i];
      }
    }

    /** The two copies of `async_put_log`: up to the end of the buffer, then from its start. */
    method Store(log: seq<bv8>)
      requires Shape() && |log| <= capacity
      modifies buf, `writeIndex
      ensures writeIndex == Wrap(capacity, old(writeIndex) + |log|)
      ensures buf[..] == Overlay(old(buf[..]), old(writeIndex), log)
    {
      var n := |log|;
      if writeIndex + n < capacity {
        CopyIn(writeIndex, log);
        writeIndex := writeIndex + n;
      } else {
        var k := capacity - writeIndex;
        CopyIn(writeIndex, log[..k]);
        CopyIn(0, log[k..]);
        writeIndex := writeIndex + n - capacity;
      }
    }

    /** The copying part of `async_put_log`, for bytes that fit. */
    method Insert(log: seq<bv8>)
      requires Shape() && Used() < capacity && |log| <= capacity - Used() && (log != [] || !isEmpty)
      modifies buf, `writeIndex, `isFull, `isEmpty
      ensures Shape() && Contents() == old(Contents()) + log
    {
      hide Queue, Overlay;
      ghost var used, before := Used(), buf[..];
      QueuePut(before, readIndex, used, log);
      var fills := |log| == capacity - Used();
      Store(log);
      if fills {
        isFull := true;
      }
      isEmpty := false;
      assert Used() == used + |log|;
    }

    /**
     `async_put_log`: accept as many leading bytes as there is room for. A put of nothing into an
     empty ring still clears the empty flag, after which the whole buffer counts as used.
     */
    method Put(log: seq<bv8>) returns (n: nat)
      requires Valid()
      modifies this, buf
      ensures n == |Front(log, capacity - |old(Contents())|)| && readIndex == old(readIndex)
      ensures Valid() <==> log != [] || old(Contents()) != []
      ensures Valid() ==> Contents() == old(Contents()) + log[..n]
      ensures !Valid() ==> UsedOf(capacity, writeIndex, readIndex, isFull, isEmpty) == capacity
      ensures accepted == old(accepted) + log[..n] && delivered == old(delivered)
    {
      hide Queue;
      ghost var queue := Contents();
      var space := capacity - Used();
      if space == 0 {
        return 0;
      }
      n := if space <= |log| then space else |log|;
      if n > 0 || !isEmpty {
        Insert(log[..n]);
      } else {
        isEmpty := false;
      }
      accepted := accepted + log[..n];
      assert delivered + (queue + log[..n]) == delivered + queue + log[..n];
    }

    /** The two copies of `elog_async_get_log`. */
    method Fetch(n: nat) returns (log: seq<bv8>)
      requires Shape() && n <= Used()
      ensures log == Contents()[..n]
    {
      QueueGet(buf[..], readIndex, Used(), n);
      if readIndex + n < capacity {
        log := buf[readIndex..readIndex + n];
      } else {
        log := buf[readIndex..] + buf[..n - (capacity - readIndex)];
      }
      assert log == Queue(buf[..], readIndex, n);
    }

    /** Moving the read index on by `n` of the `used` bytes, as both ways of reading do. */
    method Advance(n: nat)
      requires Shape() && 0 < n <= Used()
      modifies `readIndex, `isFull, `isEmpty
      ensures Shape() && Contents() == old(Contents())[n..] && readIndex == Wrap(capacity, old(readIndex) + n)
    {
      ghost var used := Used();
      QueueGet(buf[..], readIndex, used, n);
      var all := Used() == n;
      readIndex := if readIndex + n < capacity then readIndex + n else readIndex + n - capacity;
      if all {
        isEmpty := true;
      }
      isFull := false;
      assert n < capacity ==> readIndex == Wrap(capacity, old(readIndex) + n);
      assert Used() == used - n;
    }

    /** `elog_async_get_log`: hand out the oldest bytes. */
    method Get(size: nat) returns (log: seq<bv8>)
      requires Valid()
      modifies this
      ensures Valid() && log == Front(old(Contents()), size)
      ensures Contents() == old(Contents())[|log|..] && readIndex == Wrap(capacity, old(readIndex) + |log|)
      ensures delivered == old(delivered) + log && accepted == old(accepted)
    {
      hide Queue;
      var used := Used();
      if used == 0 || size == 0 {
        return [];
      }
      var n := if used <= size then used else size;
      Deliver(delivered, Contents(), n);
      log := Fetch(n);
      Advance(n);
      delivered := delivered + log;
    }

    /** `elog_async_get_line_log`: at most `size` of the oldest bytes, cut where LineTaken says. */
    method GetLine(size: nat, nl: seq<bv8>) returns (log: seq<bv8>)
      requires Valid()
      modifies this
      ensures Valid() && log == LineTaken(Front(old(Contents()), size), capacity - old(readIndex), nl)
      ensures Contents() == old(Contents())[|log|..] && readIndex == Wrap(capacity, old(readIndex) + |log|)
      ensures delivered == old(delivered) + log && accepted == old(accepted)
    {
      hide Queue, LineEndsAt, UsedOf, LineTaken;
      var used := Used();
      ghost var queue := Contents();
      if used == 0 || size == 0 {
        assert Front(queue, size) == [] && LineTaken([], capacity - readIndex, nl) == [];
        return [];
      }
      var n := if used <= size then used else size;
      var all := Fetch(n);
      assert all == Front(queue, size);
      log := LineOf(all, capacity - readIndex, nl);
      assert log == queue[..|log|];
      Deliver(delivered, queue, |log|);
      Advance(|log|);
      delivered := delivered + log;
    }
  }

  // ---------- Whole runs ----------

  datatype Op = PutOp(log: seq<bv8>) | GetOp(size: nat) | LineOp(size: nat, nl: seq<bv8>)

  /** The answer of an operation: how many bytes a put took, or the bytes read. */
  datatype Out = Took(n: nat) | Gave(log: seq<bv8>)

  /** A bounded queue and the place of its front in the buffer, which line-wise reads depend on. */
  datatype Fifo = Fifo(queue: seq<bv8>, front: nat)

  function Front(q: seq<bv8>, n: nat): (r: seq<bv8>)
    ensures r <= q && |r| == if n < |q| then n else |q|
  {
    if n < |q| then q[..n] else q
  }

  function Answer(capacity: nat, f: Fifo, op: Op): (r: Out)
    requires |f.queue| <= capacity && f.front < capacity
    ensures r.Took? <==> op.PutOp?
    ensures r.Took? ==> r.n <= |op.log| && |f.queue| + r.n <= capacity
    ensures r.Gave? ==> r.log <= f.queue
  {
    match op
    case PutOp(log) => Took(|Front(log, capacity - |f.queue|)|)
    case GetOp(size) => Gave(Front(f.queue, size))
    case LineOp(size, nl) => Gave(LineTaken(Front(f.queue, size), capacity - f.front, nl))
  }

  function After(capacity: nat, f: Fifo, op: Op): (r: Fifo)
    requires |f.queue| <= capacity && f.front < capacity
    ensures |r.queue| <= capacity && r.front < capacity
  {
    match Answer(capacity, f, op)
    case Took(n) => Fifo(f.queue + op.log[..n], f.front)
    case Gave(log) => Fifo(f.queue[|log|..], Wrap(capacity, f.front + |log|))
  }

  /** The queue after a sequence of operations on an empty ring. */
  function AfterAll(capacity: nat, ops: seq<Op>): (r: Fifo)
    requires capacity > 0
    ensures |r.queue| <= capacity && r.front < capacity
  {
    if ops == [] then Fifo([], 0) else After(capacity, AfterAll(capacity, ops[..|ops| - 1]), ops[|ops| - 1])
  }

  /** All bytes the puts were granted, and all bytes the reads gave, in order. */
  function Bytes(ops: seq<Op>, outs: seq<Out>): (r: (seq<bv8>, seq<bv8>))
    requires |outs| == |ops|
  {
    if ops == [] then ([], [])
    else
      var n := |ops| - 1;
      var (a, d) := Bytes(ops[..n], outs[..n]);
      match outs[n]
      case Took(k) => (if ops[n].PutOp? && k <= |ops[n].log| then a + ops[n].log[..k] else a, d)
      case Gave(log) => (a, d + log)
  }

  /**
   Every interleaving of puts and gets in which no empty put meets an empty queue: each answer is
   that of the bounded queue at that point, the accepted bytes are the granted leading parts of
   the puts in order, and they are what was read followed by what is left.
   */
  method Run(capacity: nat, ops: seq<Op>) returns (outs: seq<Out>, ring: Ring)
    requires capacity > 0
    requires forall i :: 0 <= i < |ops| && ops[i].PutOp? ==>
      ops[i].log != [] || AfterAll(capacity, ops[..i]).queue != []
    ensures |outs| == |ops|
    ensures forall i :: 0 <= i < |ops| ==> outs[i] == Answer(capacity, AfterAll(capacity, ops[..i]), ops[i])
    ensures ring.Valid() && ring.Contents() == AfterAll(capacity, ops).queue
    ensures Bytes(ops, outs) == (ring.accepted, ring.delivered)
    ensures ring.accepted == ring.delivered + AfterAll(capacity, ops).queue
  {
    hide LineTaken, Queue, UsedOf, Answer, After, AfterAll, Bytes;
    ring := new Ring(capacity);
    outs := [];
    NoOps(capacity, ops);
    for i := 0 to |ops|
      invariant fresh(ring) && fresh(ring.buf) && ring.Valid() && ring.capacity == capacity
      invariant Fifo(ring.Contents(), ring.readIndex) == AfterAll(capacity, ops[..i])
      invariant |outs| == i && Bytes(ops[..i], outs) == (ring.accepted, ring.delivered)
      invariant forall j :: 0 <= j < i ==> outs[j] == Answer(capacity, AfterAll(capacity, ops[..j]), ops[j])
    {
      var out := Step(ring, ops[i]);
      OneMore(capacity, ops, outs, out);
      outs := outs + [out];
    }
    assert ops[..|ops|] == ops;
  }

  lemma NoOps(capacity: nat, ops: seq<Op>)
    requires capacity > 0
    ensures AfterAll(capacity, ops[..0]) == Fifo([], 0) && Bytes(ops[..0], []) == ([], [])
  {
  }

  lemma OneMore(capacity: nat, ops: seq<Op>, outs: seq<Out>, out: Out)
    requires capacity > 0 && |outs| < |ops| && (out.Took? ==> ops[|outs|].PutOp? && out.n <= |ops[|outs|].log|)
    ensures var i := |outs|; AfterAll(capacity, ops[..i + 1]) == After(capacity, AfterAll(capacity, ops[..i]), ops[i])
    ensures var i := |outs|;
      var (a, d) := Bytes(ops[..i], outs);
      Bytes(ops[..i + 1], outs + [out]) == if out.Took? then (a + ops[i].log[..out.n], d) else (a, d + out.log)
  {
    hide After, Answer;
    var i := |outs|;
    assert ops[..i + 1][..i] == ops[..i] && (outs + [out])[..i] == outs;
  }

  /** One operation on the ring. */
  method Step(ring: Ring, op: Op) returns (out: Out)
    requires ring.Valid() && (op.PutOp? ==> op.log != [] || ring.Contents() != [])
    modifies ring, ring.buf
    ensures ring.Valid()
    ensures out == Answer(ring.capacity, old(Fifo(ring.Contents(), ring.readIndex)), op)
    ensures Fifo(ring.Contents(), ring.readIndex)
      == After(ring.capacity, old(Fifo(ring.Contents(), ring.readIndex)), op)
    ensures match out
      case Took(n) => ring.accepted == old(ring.accepted) + op.log[..n] && ring.delivered == old(ring.delivered)
      case Gave(log) => ring.accepted == old(ring.accepted) && ring.delivered == old(ring.delivered) + log
  {
    hide LineTaken, Queue, UsedOf;
    match op
    case PutOp(log) =>
      var n := ring.Put(log);
      out := Took(n);
    case GetOp(size) =>
      var log := ring.Get(size);
      out := Gave(log);
    case LineOp(size, nl) =>
      var log := ring.GetLine(size, nl);
      out := Gave(log);
  }
}
