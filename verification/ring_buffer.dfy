/** The input ring buffer of the RS-232 bridge: a fixed array of bytes with
    a head (next byte to read) and a tail (next slot to write), both moved
    one step at a time modulo the capacity. There is no count field and no
    full or empty check: writing past the head, or reading past the tail,
    silently wraps. The capacity is the length of the array, so every result
    here holds for any capacity C > 0. */
module RingBuffer {
  import opened ModArith

  newtype byte = b: int | 0 <= b < 0x100

  datatype Ring = Ring(buf: seq<byte>, head: nat, tail: nat) {

    /** Capacity is positive and both indices point inside the array. */
    predicate Valid() {
      0 < |buf| && head < |buf| && tail < |buf|
    }

    /** Number of unread bytes, derived from the indices as
        (tail - head + C) mod C. */
    function Occupancy(): (n: int)
      requires Valid()
      ensures 0 <= n < |buf|
      ensures n == 0 <==> head == tail
    {
      OffsetZero(head, tail, |buf|);
      Offset(head, tail, |buf|)
    }
  }

  /** Result of draining bytes: the bytes in the order read, and the ring
      afterwards. */
  datatype Drained = Drained(bytes: seq<byte>, rest: Ring)

  /** The relation between a ring `r`, the bytes `s` appended to it and the
      ring `r'` afterwards. Byte `k` of `s` was written `k` steps past the old
      tail; the last C bytes are still there (earlier ones were overwritten
      by later ones once the writes wrapped); slots the writes never reached
      keep their contents; the tail moved |s| steps and nothing else moved. */
  ghost predicate Appended(r: Ring, s: seq<byte>, r': Ring)
    requires r.Valid()
  {
    var c := |r.buf|;
    && |r'.buf| == c
    && r'.head == r.head
    && r'.tail == Slot(r.tail, |s|, c)
    && (forall k :: 0 <= k < |s| && |s| - c <= k ==> r'.buf[Slot(r.tail, k, c)] == s[k])
    && (forall p :: 0 <= p < c && |s| <= Offset(r.tail, p, c) ==> r'.buf[p] == r.buf[p])
  }

  /** One iteration of the copy-in loop: store at the tail, advance the tail. */
  function Push(r: Ring, b: byte): (r': Ring)
    requires r.Valid()
    ensures r'.Valid()
  {
    Ring(r.buf[r.tail := b], r.head, Slot(r.tail, 1, |r.buf|))
  }

  /** Appending a sequence of bytes, one `Push` per byte, oldest first.
      What it does to the ring is stated by `EnqueueAppends`. */
  function Enqueue(r: Ring, s: seq<byte>): (r': Ring)
    requires r.Valid()
    ensures r'.Valid() && |r'.buf| == |r.buf|
    decreases |s|
  {
    if |s| == 0 then r
    else Push(Enqueue(r, s[..|s| - 1]), s[|s| - 1])
  }

  /** `Enqueue` satisfies the append relation: byte k of s at slot
      (tail + k) mod C for the last C bytes, unreached slots unchanged, tail
      advanced by |s| modulo C, head unchanged. */
  lemma {:induction false} EnqueueAppends(r: Ring, s: seq<byte>)
    requires r.Valid()
    ensures Appended(r, s, Enqueue(r, s))
    decreases |s|
  {
    if |s| == 0 {
      SlotInRange(r.tail, |r.buf|);
    } else {
      var prev := Enqueue(r, s[..|s| - 1]);
      EnqueueAppends(r, s[..|s| - 1]);
      PushExtends(r, s, prev);
    }
  }

  /** One more `Push` extends the append relation by one byte. */
  lemma PushExtends(r: Ring, s: seq<byte>, prev: Ring)
    requires r.Valid() && prev.Valid() && |s| > 0
    requires Appended(r, s[..|s| - 1], prev)
    ensures Appended(r, s, Push(prev, s[|s| - 1]))
  {
    var n := |s| - 1;
    var c := |r.buf|;
    var r' := Push(prev, s[n]);
    assert prev.tail == Slot(r.tail, n, c);
    SlotSucc(r.tail, n, c);
    assert r'.tail == Slot(r.tail, |s|, c);
    forall k | 0 <= k < |s| && |s| - c <= k
      ensures r'.buf[Slot(r.tail, k, c)] == s[k]
    {
      if k < n {
        SlotsDistinct(r.tail, k, n, c);
        assert prev.buf[Slot(r.tail, k, c)] == s[..n][k];
      }
    }
    forall p | 0 <= p < c && |s| <= Offset(r.tail, p, c)
      ensures r'.buf[p] == r.buf[p]
    {
      OffsetOfSlot(r.tail, n, c);
      ModAtMost(n, c);
      assert p != prev.tail;
      assert prev.buf[p] == r.buf[p];
    }
  }

  /** The relation pins the resulting ring down completely: two rings that
      both satisfy `Appended(r, s, _)` are equal, so the contract of
      `Enqueue` says everything about it. */
  lemma {:induction false} AppendedUnique(r: Ring, s: seq<byte>, a: Ring, b: Ring)
    requires r.Valid()
    requires Appended(r, s, a) && Appended(r, s, b)
    ensures a == b
  {
    var c := |r.buf|;
    forall p | 0 <= p < c
      ensures a.buf[p] == b.buf[p]
    {
      var d := Offset(r.tail, p, c);
      if d < |s| {
        var k, j := LastVisit(d, |s|, c);
        SlotCycles(r.tail, d, j, c);
        SlotOfOffset(r.tail, p, c);
        assert Slot(r.tail, k, c) == p;
      }
    }
  }

  /** Reading `n` bytes from the head, oldest first, with no occupancy check. */
  function Dequeue(r: Ring, n: nat): (d: Drained)
    requires r.Valid()
    ensures d.rest.Valid()
    ensures |d.bytes| == n
    ensures forall k :: 0 <= k < n ==> d.bytes[k] == r.buf[Slot(r.head, k, |r.buf|)]
    ensures d.rest == r.(head := Slot(r.head, n, |r.buf|))
  {
    if n == 0 then
      SlotInRange(r.head, |r.buf|);
      Drained([], r)
    else
      var prev := Dequeue(r, n - 1);
      var h := prev.rest.head;
      SlotSucc(r.head, n - 1, |r.buf|);
      Drained(prev.bytes + [r.buf[h]], prev.rest.(head := Slot(h, 1, |r.buf|)))
  }

  /** The copy-in loop of the source: for each byte, store it at the tail and
      advance the tail modulo the capacity. */
  method CopyIn(r: Ring, bytes: seq<byte>) returns (r': Ring)
    requires r.Valid()
    ensures r'.Valid()
    ensures Appended(r, bytes, r')
    ensures r' == Enqueue(r, bytes)
  {
    var cur := r;
    SlotInRange(r.tail, |r.buf|);
    var i := 0;
    while i < |bytes|
      invariant 0 <= i <= |bytes|
      invariant cur.Valid()
      invariant Appended(r, bytes[..i], cur)
    {
      assert bytes[..i + 1][..i] == bytes[..i];
      PushExtends(r, bytes[..i + 1], cur);
      cur := Ring(cur.buf[cur.tail := bytes[i]], cur.head, (cur.tail + 1) % |cur.buf|);
      i := i + 1;
    }
    assert bytes[..i] == bytes;
    r' := cur;
    EnqueueAppends(r, bytes);
    AppendedUnique(r, bytes, r', Enqueue(r, bytes));
  }

  /** The copy-out loop of the source: for each of the `n` requested bytes,
      store the byte at the head into the caller's buffer and advance the
      head modulo the capacity. Slots of `dest` from `n` on are untouched. */
  method CopyOut(r: Ring, dest: seq<byte>, n: nat) returns (dest': seq<byte>, r': Ring)
    requires r.Valid()
    requires n <= |dest|
    ensures |dest'| == |dest|
    ensures forall k :: 0 <= k < n ==> dest'[k] == r.buf[Slot(r.head, k, |r.buf|)]
    ensures dest'[n..] == dest[n..]
    ensures r' == r.(head := Slot(r.head, n, |r.buf|))
    ensures dest' == Dequeue(r, n).bytes + dest[n..] && r' == Dequeue(r, n).rest
  {
    var c := |r.buf|;
    var head := r.head;
    SlotInRange(r.head, c);
    dest' := dest;
    var i := 0;
    while i < n
      invariant 0 <= i <= n
      invariant |dest'| == |dest|
      invariant head == Slot(r.head, i, c)
      invariant forall k :: 0 <= k < i ==> dest'[k] == r.buf[Slot(r.head, k, c)]
      invariant dest'[i..] == dest[i..]
    {
      dest' := dest'[i := r.buf[head]];
      SlotSucc(r.head, i, c);
      head := Slot(head, 1, c);
      i := i + 1;
    }
    r' := r.(head := head);
    var d := Dequeue(r, n);
    assert dest'[..n] == d.bytes;
    assert dest' == dest'[..n] + dest'[n..];
  }

  /** Appending in two calls is appending the concatenation once, so the
      reader thread's byte-at-a-time appends equal one bulk append. */
  lemma {:induction false} EnqueueConcat(r: Ring, s: seq<byte>, t: seq<byte>)
    requires r.Valid()
    ensures Enqueue(Enqueue(r, s), t) == Enqueue(r, s + t)
    decreases |t|
  {
    if |t| == 0 {
      assert s + t == s;
    } else {
      var n := |t| - 1;
      var st := s + t;
      var mid := Enqueue(r, s);
      assert st[..|st| - 1] == s + t[..n];
      assert st[|st| - 1] == t[n];
      EnqueueConcat(r, s, t[..n]);
      var prev := Enqueue(mid, t[..n]);
      assert prev == Enqueue(r, st[..|st| - 1]);
      assert Enqueue(mid, t) == Push(prev, t[n]);
      assert Enqueue(r, st) == Push(Enqueue(r, st[..|st| - 1]), st[|st| - 1]);
    }
  }

  /** FIFO: on an empty ring (head = tail), appending up to C bytes and then
      reading that many returns exactly those bytes, in order, and leaves the
      ring empty again. */
  lemma {:induction false} FifoRoundTrip(r: Ring, s: seq<byte>)
    requires r.Valid() && r.head == r.tail
    requires |s| <= |r.buf|
    ensures Dequeue(Enqueue(r, s), |s|).bytes == s
    ensures Dequeue(Enqueue(r, s), |s|).rest.Occupancy() == 0
  {
    EnqueueAppends(r, s);
    var e := Enqueue(r, s);
    var d := Dequeue(e, |s|);
    forall k | 0 <= k < |s|
      ensures d.bytes[k] == s[k]
    {
      assert d.bytes[k] == e.buf[Slot(r.tail, k, |r.buf|)];
    }
  }

  /** Occupancy after appending to an empty ring is |s| mod C: the count
      wraps, because nothing stops the tail from running into the head. */
  lemma {:induction false} OccupancyAfterAppend(r: Ring, s: seq<byte>)
    requires r.Valid() && r.head == r.tail
    ensures Enqueue(r, s).Occupancy() == |s| % |r.buf|
  {
    EnqueueAppends(r, s);
    OffsetOfSlot(r.tail, |s|, |r.buf|);
  }

  /** Appending exactly C bytes to an empty ring fills every slot with them,
      yet head = tail again, so the ring reads as empty. */
  lemma {:induction false} FullCycleLooksEmpty(r: Ring, s: seq<byte>)
    requires r.Valid() && r.head == r.tail
    requires |s| == |r.buf|
    ensures Enqueue(r, s).head == Enqueue(r, s).tail
    ensures forall k :: 0 <= k < |s| ==> Enqueue(r, s).buf[Slot(r.tail, k, |r.buf|)] == s[k]
  {
    EnqueueAppends(r, s);
    OccupancyAfterAppend(r, s);
    DivModUnique(|s|, |r.buf|, 1, 0);
  }

  /** Overrun: appending between C and 2C - 1 bytes to an empty ring leaves
      |s| - C readable bytes, and reading them yields the LAST |s| - C bytes
      appended; the first C bytes are lost without any signal. */
  lemma {:induction false} OverrunKeepsNewest(r: Ring, s: seq<byte>)
    requires r.Valid() && r.head == r.tail
    requires |r.buf| <= |s| < 2 * |r.buf|
    ensures Enqueue(r, s).Occupancy() == |s| - |r.buf|
    ensures Dequeue(Enqueue(r, s), |s| - |r.buf|).bytes == s[|r.buf|..]
  {
    EnqueueAppends(r, s);
    var c := |r.buf|;
    var e := Enqueue(r, s);
    OccupancyAfterAppend(r, s);
    DivModUnique(|s|, c, 1, |s| - c);
    var d := Dequeue(e, |s| - c);
    forall k | 0 <= k < |s| - c
      ensures d.bytes[k] == s[c + k]
    {
      SlotCycles(r.tail, k, 1, c);
      assert Slot(r.tail, c + k, c) == Slot(r.tail, k, c);
      assert d.bytes[k] == e.buf[Slot(r.tail, k, c)];
    }
  }

  /** Underflow: reading n bytes (0 < n < C) from an empty ring returns the
      stale contents of the n slots from the head and moves the head past the
      tail, after which the ring reports C - n unread bytes. */
  lemma {:induction false} UnderflowReportsPhantomBytes(r: Ring, n: nat)
    requires r.Valid() && r.head == r.tail
    requires 0 < n < |r.buf|
    ensures Dequeue(r, n).rest.Occupancy() == |r.buf| - n
  {
    var c := |r.buf|;
    var h := r.head;
    var x := h + n;
    var q, m := x / c, x % c;
    assert x == c * q + m;
    assert h - m == c * (q - 1) + (c - n);
    DivModUnique(h - m, c, q - 1, c - n);
  }

  /** The unread bytes of a ring, oldest first: what a read of exactly the
      occupancy would return. */
  ghost function Contents(r: Ring): seq<byte>
    requires r.Valid()
  {
    Dequeue(r, r.Occupancy()).bytes
  }

  /** Reading at most the unread bytes takes a prefix of the contents and
      leaves the rest, in order. */
  lemma {:induction false} DequeueContents(r: Ring, n: nat)
    requires r.Valid() && n <= r.Occupancy()
    ensures Dequeue(r, n).bytes == Contents(r)[..n]
    ensures Dequeue(r, n).rest.Occupancy() == r.Occupancy() - n
    ensures Contents(Dequeue(r, n).rest) == Contents(r)[n..]
  {
    var c := |r.buf|;
    var o := r.Occupancy();
    var all := Contents(r);
    var d := Dequeue(r, n);
    assert d.bytes == all[..n];
    OffsetShift(r.head, r.tail, n, c);
    var later := Dequeue(d.rest, o - n).bytes;
    forall k | 0 <= k < o - n
      ensures later[k] == all[n + k]
    {
      SlotAdd(r.head, n, k, c);
    }
  }

  /** A byte that was unread before an append that stays below capacity is
      not overwritten: it sits `C - (o - k)` steps past the old tail, beyond
      the |s| slots the append reaches. */
  lemma UnreadByteSurvives(r: Ring, s: seq<byte>, k: int)
    requires r.Valid() && r.Occupancy() + |s| < |r.buf|
    requires 0 <= k < r.Occupancy()
    ensures Enqueue(r, s).buf[Slot(r.head, k, |r.buf|)] == r.buf[Slot(r.head, k, |r.buf|)]
  {
    EnqueueAppends(r, s);
    var c := |r.buf|;
    var o := r.Occupancy();
    var p := Slot(r.head, k, c);
    var j := k - o + c;
    assert |s| <= j < c;
    SlotOfOffset(r.head, r.tail, c);
    assert r.tail == Slot(r.head, o, c);
    SlotAdd(r.head, o, j, c);
    SlotCycles(r.head, k, 1, c);
    assert Slot(r.tail, j, c) == p;
    OffsetOfSlot(r.tail, j, c);
    DivModUnique(j, c, 0, j);
    assert Offset(r.tail, p, c) == j;
  }

  /** Appending while the total stays below capacity adds the bytes behind
      the unread ones: occupancy grows by |s| and the contents gain `s` at
      the end. At or above capacity this fails (see `FullCycleLooksEmpty`
      and `OverrunKeepsNewest`). */
  lemma {:induction false} EnqueueContents(r: Ring, s: seq<byte>)
    requires r.Valid() && r.Occupancy() + |s| < |r.buf|
    ensures Enqueue(r, s).Occupancy() == r.Occupancy() + |s|
    ensures Contents(Enqueue(r, s)) == Contents(r) + s
  {
    EnqueueAppends(r, s);
    var c := |r.buf|;
    var o := r.Occupancy();
    var e := Enqueue(r, s);
    SlotOfOffset(r.head, r.tail, c);
    SlotAdd(r.head, o, |s|, c);
    OffsetOfSlot(r.head, o + |s|, c);
    DivModUnique(o + |s|, c, 0, o + |s|);
    assert e.Occupancy() == o + |s|;
    var before := Contents(r);
    var after := Contents(e);
    forall k | 0 <= k < o + |s|
      ensures after[k] == (before + s)[k]
    {
      if k < o {
        UnreadByteSurvives(r, s, k);
      } else {
        SlotAdd(r.head, o, k - o, c);
      }
    }
  }

  /** One call on the buffer: bytes arriving from the host, or a read of
      `n` bytes by the emulator. */
  datatype Op = Arrive(bytes: seq<byte>) | Take(n: nat)

  /** Runs a sequence of calls; the result holds every byte read, in the
      order read, and the ring afterwards. */
  function Run(r: Ring, ops: seq<Op>): (d: Drained)
    requires r.Valid()
    ensures d.rest.Valid()
    decreases |ops|
  {
    if |ops| == 0 then Drained([], r)
    else match ops[0]
      case Arrive(bytes) => Run(Enqueue(r, bytes), ops[1..])
      case Take(n) =>
        var d := Dequeue(r, n);
        var more := Run(d.rest, ops[1..]);
        Drained(d.bytes + more.bytes, more.rest)
  }

  /** No call in the run overruns (occupancy stays below capacity) or
      underflows (no read asks for more than is unread). */
  ghost predicate WithinCapacity(r: Ring, ops: seq<Op>)
    requires r.Valid()
    decreases |ops|
  {
    |ops| == 0 ||
    match ops[0]
      case Arrive(bytes) =>
        r.Occupancy() + |bytes| < |r.buf| && WithinCapacity(Enqueue(r, bytes), ops[1..])
      case Take(n) =>
        n <= r.Occupancy() && WithinCapacity(Dequeue(r, n).rest, ops[1..])
  }

  /** All bytes that arrive during a run, in arrival order. */
  function Arrived(ops: seq<Op>): seq<byte>
    decreases |ops|
  {
    if |ops| == 0 then []
    else match ops[0]
      case Arrive(bytes) => bytes + Arrived(ops[1..])
      case Take(_) => Arrived(ops[1..])
  }

  /** Sequence bookkeeping for an arrival: if the run's output is the new
      contents followed by later arrivals, and the new contents are the old
      ones followed by `b`, it is the old contents followed by all arrivals. */
  lemma ConcatShift(out: seq<byte>, after: seq<byte>, before: seq<byte>, b: seq<byte>, later: seq<byte>)
    requires out == after + later && after == before + b
    ensures out == before + (b + later)
  {
  }

  /** Sequence bookkeeping for a read: the bytes read are a prefix of the
      contents, the rest of the run starts from the remaining suffix. */
  lemma SplitJoin(all: seq<byte>, n: nat, taken: seq<byte>, left: seq<byte>, out: seq<byte>, unread: seq<byte>, later: seq<byte>)
    requires n <= |all| && taken == all[..n] && left == all[n..]
    requires out + unread == left + later
    ensures taken + out + unread == all + later
  {
    calc {
      taken + out + unread;
      taken + (out + unread);
      all[..n] + (all[n..] + later);
      all[..n] + all[n..] + later;
      { assert all[..n] + all[n..] == all; }
      all + later;
    }
  }

  /** The order statement of `QueueOrder` for one arrival in front of a run
      it already holds for. */
  lemma ArriveKeepsOrder(r: Ring, bytes: seq<byte>, rest: seq<Op>)
    requires r.Valid() && r.Occupancy() + |bytes| < |r.buf|
    requires Run(Enqueue(r, bytes), rest).bytes + Contents(Run(Enqueue(r, bytes), rest).rest)
      == Contents(Enqueue(r, bytes)) + Arrived(rest)
    ensures Run(r, [Arrive(bytes)] + rest).bytes + Contents(Run(r, [Arrive(bytes)] + rest).rest)
      == Contents(r) + Arrived([Arrive(bytes)] + rest)
  {
    var ops := [Arrive(bytes)] + rest;
    assert ops[0] == Arrive(bytes) && ops[1..] == rest;
    var e := Enqueue(r, bytes);
    var tail := Run(e, rest);
    assert Run(r, ops) == tail;
    assert Arrived(ops) == bytes + Arrived(rest);
    EnqueueContents(r, bytes);
    ConcatShift(tail.bytes + Contents(tail.rest), Contents(e), Contents(r), bytes, Arrived(rest));
  }

  /** The order statement of `QueueOrder` for one read in front of a run it
      already holds for. */
  lemma TakeKeepsOrder(r: Ring, n: nat, rest: seq<Op>)
    requires r.Valid() && n <= r.Occupancy()
    requires Run(Dequeue(r, n).rest, rest).bytes + Contents(Run(Dequeue(r, n).rest, rest).rest)
      == Contents(Dequeue(r, n).rest) + Arrived(rest)
    ensures Run(r, [Take(n)] + rest).bytes + Contents(Run(r, [Take(n)] + rest).rest)
      == Contents(r) + Arrived([Take(n)] + rest)
  {
    var ops := [Take(n)] + rest;
    assert ops[0] == Take(n) && ops[1..] == rest;
    var d := Dequeue(r, n);
    var more := Run(d.rest, rest);
    assert Run(r, ops) == Drained(d.bytes + more.bytes, more.rest);
    assert Arrived(ops) == Arrived(rest);
    DequeueContents(r, n);
    SplitJoin(Contents(r), n, d.bytes, Contents(d.rest), more.bytes, Contents(more.rest), Arrived(rest));
  }

  /** FIFO for any interleaving of arrivals and reads within capacity: the
      bytes read, followed by what is still unread at the end, are exactly
      the bytes unread at the start followed by every byte that arrived. */
  lemma {:induction false} QueueOrder(r: Ring, ops: seq<Op>)
    requires r.Valid() && WithinCapacity(r, ops)
    ensures Run(r, ops).bytes + Contents(Run(r, ops).rest) == Contents(r) + Arrived(ops)
    decreases |ops|
  {
    if |ops| > 0 {
      var rest := ops[1..];
      assert ops == [ops[0]] + rest;
      match ops[0]
      case Arrive(bytes) =>
        QueueOrder(Enqueue(r, bytes), rest);
        ArriveKeepsOrder(r, bytes, rest);
      case Take(n) =>
        QueueOrder(Dequeue(r, n).rest, rest);
        TakeKeepsOrder(r, n, rest);
    }
  }
}
