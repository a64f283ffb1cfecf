/** The RS-232 bridge of src/rs232.c: the connection flag, the host file
    handle, the input ring buffer and the bytes delivered to the host file.

    The host side is abstracted: whether `fopen` succeeds is a parameter
    (`fopenOk`), whether RS-232 is enabled in the configuration is a
    parameter (`enabled`), and every byte written to the host file is
    appended to `hostOut`. The reader thread is reduced to one step,
    `ReaderStep`, that either sees end-of-file or one incoming byte. */
module Rs232 {
  import opened ModArith
  import opened RingBuffer

  /** USART control register bits used by the default configuration. Their
      definitions live in a header that is not part of this model, so the
      values are assumed from the bit layout described above
      `RS232_SetConfig`: bit 1 clear selects odd parity, bit 2 enables
      parity, and bits 3-4 select start/stop bits, read here as 01 = one
      stop bit with bit 3 set. `SetConfig` ignores them, so nothing in the
      model depends on the values. */
  const UCR_ODDPARITY: bv16 := 0x00
  const UCR_PARITY: bv16 := 0x04
  const UCR_1STOPBIT: bv16 := 0x08

  /** The defaults applied by every successful open: 9600 baud, no
      handshake, one stop bit with odd parity. */
  const DefaultBaud: int := 9600
  const DefaultCtrl: bv16 := 0
  const DefaultUcr: bv16 := UCR_1STOPBIT | UCR_PARITY | UCR_ODDPARITY

  /** The bridge's process-wide state: `connected` is `bConnectedRS232`,
      `handleOpen` says whether `hCom` is a live file, `input` is the input
      buffer with its head and tail, `hostOut` is everything written to the
      host file so far. */
  datatype Bridge = Bridge(connected: bool, handleOpen: bool, input: Ring, hostOut: seq<byte>) {
    /** The buffer indices are in range and a handle is open exactly while
        the bridge is connected. */
    predicate Valid() {
      input.Valid() && connected == handleOpen
    }
  }

  /** A BOOL result of the source together with the state afterwards. */
  datatype Outcome = Outcome(ok: bool, state: Bridge)

  /** Result of `ReadBytes`: the BOOL it returns, the caller's buffer
      afterwards, and the bridge state afterwards. */
  datatype ReadOutcome = ReadOutcome(ok: bool, dest: seq<byte>, state: Bridge)

  /** What one `fgetc` on the host file yields. */
  datatype Poll = Eof | Incoming(b: byte)

  /** The state at program start, for a buffer of capacity `c`: the flag is
      FALSE, the handle NULL, head and tail 0, the static byte array
      zero-filled, and nothing has been written to the host. */
  function Initial(c: nat): (s: Bridge)
    requires c > 0
    ensures s.Valid() && !s.connected && !s.handleOpen
    ensures |s.input.buf| == c && s.input.head == 0 && s.input.tail == 0
    ensures forall i :: 0 <= i < c ==> s.input.buf[i] == 0
    ensures s.input.Occupancy() == 0
    ensures s.hostOut == []
  {
    Bridge(false, false, Ring(seq(c, _ => 0), 0, 0), [])
  }

  /** Line configuration. The hardware setup in the source is commented
      out, so whatever the arguments, the state is left exactly as it was. */
  function SetConfig(s: Bridge, baud: int, ctrl: bv16, ucr: bv16): (s': Bridge)
    ensures s' == s
  {
    s
  }

  /** Open the host file. The flag is cleared first; on success the defaults
      are configured and the flag is set. The result is the new flag. */
  function OpenComPort(s: Bridge, fopenOk: bool): (o: Outcome)
    ensures o.ok == fopenOk
    ensures o.state.connected == fopenOk && o.state.handleOpen == fopenOk
    ensures o.state.input == s.input && o.state.hostOut == s.hostOut
    ensures s.input.Valid() ==> o.state.Valid()
  {
    var s0 := s.(connected := false, handleOpen := fopenOk);
    if fopenOk then
      var s1 := SetConfig(s0, DefaultBaud, DefaultCtrl, DefaultUcr);
      Outcome(true, s1.(connected := true))
    else
      Outcome(false, s0)
  }

  /** Close the host file if connected; otherwise do nothing. */
  function CloseComPort(s: Bridge): (s': Bridge)
    ensures !s'.connected
    ensures !s.connected ==> s' == s
    ensures s.Valid() ==> s'.Valid() && !s'.handleOpen
    ensures s'.input == s.input && s'.hostOut == s.hostOut
  {
    if s.connected then s.(handleOpen := false, connected := false) else s
  }

  /** Shutdown, as far as the state goes: close the host file. */
  function UnInit(s: Bridge): (s': Bridge)
    ensures !s'.connected
    ensures s.Valid() ==> s'.Valid() && !s'.connected && !s'.handleOpen
    ensures s'.input == s.input && s'.hostOut == s.hostOut
  {
    CloseComPort(s)
  }

  /** Send bytes to the host. When disconnected and enabled, the port is
      opened first. When connected afterwards, the bytes are written and the
      call succeeds; otherwise it fails and nothing is written. */
  function TransferBytesTo(s: Bridge, enabled: bool, fopenOk: bool, bytes: seq<byte>): (o: Outcome)
    ensures o.ok == o.state.connected
    ensures o.ok <==> s.connected || (enabled && fopenOk)
    ensures o.ok ==> o.state.hostOut == s.hostOut + bytes
    ensures !o.ok ==> o.state.hostOut == s.hostOut
    ensures !s.connected && !enabled ==> o == Outcome(false, s)
    ensures s.connected ==> o.state == s.(hostOut := s.hostOut + bytes)
    ensures o.state.input == s.input
    ensures s.Valid() ==> o.state.Valid()
  {
    var s1 := if !s.connected && enabled then OpenComPort(s, fopenOk).state else s;
    if s1.connected then
      Outcome(true, s1.(hostOut := s1.hostOut + bytes))
    else
      Outcome(false, s1)
  }

  /** Bytes arriving from the host, appended to the input buffer at its tail. */
  function AddBytesToInputBuffer(s: Bridge, bytes: seq<byte>): (s': Bridge)
    requires s.input.Valid()
    ensures s'.Valid() <==> s.Valid()
    ensures Appended(s.input, bytes, s'.input)
    ensures s' == s.(input := s'.input)
  {
    EnqueueAppends(s.input, bytes);
    s.(input := Enqueue(s.input, bytes))
  }

  /** Read `n` bytes from the input buffer into the caller's buffer `dest`.
      When disconnected it fails and changes nothing; when connected it
      copies the `n` bytes from the head onward, with no check against the
      number of unread bytes, and succeeds. A negative `n` copies nothing. */
  function ReadBytes(s: Bridge, dest: seq<byte>, n: int): (o: ReadOutcome)
    requires s.input.Valid()
    requires s.connected ==> n <= |dest|
    ensures !s.connected ==> o == ReadOutcome(false, dest, s)
    ensures s.connected ==> o.ok
    ensures |o.dest| == |dest|
    ensures forall k :: 0 <= k < n && s.connected ==> o.dest[k] == s.input.buf[Slot(s.input.head, k, |s.input.buf|)]
    ensures forall k :: 0 <= k < |dest| && n <= k ==> o.dest[k] == dest[k]
    ensures s.connected ==> o.state == s.(input := s.input.(head := Slot(s.input.head, if n < 0 then 0 else n, |s.input.buf|)))
    ensures s.Valid() ==> o.state.Valid()
  {
    if s.connected then
      var count := if n < 0 then 0 else n;
      var d := Dequeue(s.input, count);
      ReadOutcome(true, d.bytes + dest[count..], s.(input := d.rest))
    else
      ReadOutcome(false, dest, s)
  }

  /** Whether input is waiting: connected and at least one unread byte. */
  function GetStatus(s: Bridge): (waiting: bool)
    requires s.input.Valid()
    ensures waiting <==> s.connected && s.input.Occupancy() > 0
  {
    s.connected && s.input.head != s.input.tail
  }

  /** One pass of the reader thread: with a handle open, a byte read from
      the host is appended to the input buffer; end-of-file, or no handle,
      leaves the state alone. */
  function ReaderStep(s: Bridge, poll: Poll): (s': Bridge)
    requires s.input.Valid()
    ensures s'.Valid() <==> s.Valid()
    ensures s.handleOpen && poll.Incoming? ==> Appended(s.input, [poll.b], s'.input)
    ensures !s.handleOpen || poll.Eof? ==> s' == s
    ensures s' == s.(input := s'.input)
  {
    if s.handleOpen && poll.Incoming? then AddBytesToInputBuffer(s, [poll.b]) else s
  }

  /** Closing twice is closing once. */
  lemma CloseIdempotent(s: Bridge)
    ensures CloseComPort(CloseComPort(s)) == CloseComPort(s)
  {
  }

  /** Closing undoes opening: from a consistent disconnected state, an open
      (successful or not) followed by a close restores the state exactly. */
  lemma OpenThenCloseRestores(s: Bridge, fopenOk: bool)
    requires s.Valid() && !s.connected
    ensures CloseComPort(OpenComPort(s, fopenOk).state) == s
  {
  }

  /** Status after bytes arrive on a connected, empty bridge: input is
      reported exactly when the number of bytes is not a multiple of C, so a
      full cycle of C bytes is invisible. */
  lemma {:induction false} StatusAfterAdd(s: Bridge, bytes: seq<byte>)
    requires s.Valid() && s.connected && s.input.head == s.input.tail
    ensures GetStatus(AddBytesToInputBuffer(s, bytes)) <==> |bytes| % |s.input.buf| != 0
  {
    OccupancyAfterAppend(s.input, bytes);
  }

  /** While disabled, no sequence of transfers ever connects or writes: a
      disconnected bridge stays exactly as it is. */
  lemma {:induction false} DisabledStaysDisconnected(s: Bridge, fopenOk: seq<bool>, batches: seq<seq<byte>>)
    requires !s.connected
    requires |fopenOk| == |batches|
    ensures TransferAll(s, false, fopenOk, batches) == s
    decreases |batches|
  {
    if |batches| > 0 {
      DisabledStaysDisconnected(s, fopenOk[1..], batches[1..]);
    }
  }

  /** Not a function of the source: a sequence of `TransferBytesTo` calls
      with a fixed enable flag and one `fopen` outcome per call, giving the
      state after the last call. */
  function TransferAll(s: Bridge, enabled: bool, fopenOk: seq<bool>, batches: seq<seq<byte>>): (s': Bridge)
    requires |fopenOk| == |batches|
    ensures s'.input == s.input
    decreases |batches|
  {
    if |batches| == 0 then s
    else TransferAll(TransferBytesTo(s, enabled, fopenOk[0], batches[0]).state, enabled, fopenOk[1..], batches[1..])
  }

  /** FIFO through the bridge: connected with an empty buffer, bytes added
      by the host side and then read with a count equal to their number come
      out unchanged, after which no input is reported. */
  lemma {:induction false} BridgeFifo(s: Bridge, bytes: seq<byte>, dest: seq<byte>)
    requires s.Valid() && s.connected && s.input.head == s.input.tail
    requires |bytes| <= |s.input.buf| && |dest| == |bytes|
    ensures ReadBytes(AddBytesToInputBuffer(s, bytes), dest, |bytes|).ok
    ensures ReadBytes(AddBytesToInputBuffer(s, bytes), dest, |bytes|).dest == bytes
    ensures !GetStatus(ReadBytes(AddBytesToInputBuffer(s, bytes), dest, |bytes|).state)
  {
    FifoRoundTrip(s.input, bytes);
    var a := AddBytesToInputBuffer(s, bytes);
    var o := ReadBytes(a, dest, |bytes|);
    var d := Dequeue(a.input, |bytes|);
    assert o.dest == d.bytes + dest[|bytes|..];
    assert o.state.input == d.rest;
  }

  /** Three bytes 0x10, 0x20, 0x30 arrive one by one on a connected bridge
      with an empty buffer of capacity at least 3: input is reported after
      the first; reading 2 yields 0x10 0x20, then reading 1 yields 0x30,
      after which no input is reported. */
  lemma {:induction false} ReaderScenario(s: Bridge, two: seq<byte>, one: seq<byte>)
    requires s.Valid() && s.connected && s.input.head == s.input.tail
    requires |s.input.buf| >= 3 && |two| == 2 && |one| == 1
    ensures GetStatus(ReaderStep(s, Incoming(0x10)))
    ensures
      var s3 := ReaderStep(ReaderStep(ReaderStep(s, Incoming(0x10)), Incoming(0x20)), Incoming(0x30));
      var r2 := ReadBytes(s3, two, 2);
      var r1 := ReadBytes(r2.state, one, 1);
      r2.dest == [0x10, 0x20] && r1.dest == [0x30] && !GetStatus(r1.state)
  {
    var c := |s.input.buf|;
    var s1 := ReaderStep(s, Incoming(0x10));
    OccupancyAfterAppend(s.input, [0x10]);
    DivModUnique(1, c, 0, 1);
    var s2 := ReaderStep(s1, Incoming(0x20));
    var s3 := ReaderStep(s2, Incoming(0x30));
    var all: seq<byte> := [0x10, 0x20, 0x30];
    assert s3.input == Enqueue(s.input, all) by {
      EnqueueConcat(s.input, [0x10], [0x20]);
      assert [0x10] + [0x20] == all[..2];
      EnqueueConcat(s.input, all[..2], [0x30]);
      assert all[..2] + [0x30] == all;
    }
    FifoRoundTrip(s.input, all);
    var r2 := ReadBytes(s3, two, 2);
    var r1 := ReadBytes(r2.state, one, 1);
    SlotSucc(s.input.head, 1, c);
    SlotSucc(s.input.head, 2, c);
    assert r2.dest == [0x10, 0x20];
    assert r1.dest == [0x30];
  }

  /** Bytes added while the buffer stays below capacity join the unread
      bytes at the end, whatever was unread before. */
  lemma {:induction false} AddExtendsContents(s: Bridge, bytes: seq<byte>)
    requires s.input.Valid() && s.input.Occupancy() + |bytes| < |s.input.buf|
    ensures Contents(AddBytesToInputBuffer(s, bytes).input) == Contents(s.input) + bytes
  {
    EnqueueContents(s.input, bytes);
  }

  /** A connected read of at most the unread bytes returns the oldest `n`
      of them in order and leaves the remaining ones unread, in order. */
  lemma {:induction false} ReadTakesOldest(s: Bridge, dest: seq<byte>, n: nat)
    requires s.input.Valid() && s.connected
    requires n <= s.input.Occupancy() && n <= |dest|
    ensures ReadBytes(s, dest, n).dest[..n] == Contents(s.input)[..n]
    ensures Contents(ReadBytes(s, dest, n).state.input) == Contents(s.input)[n..]
  {
    DequeueContents(s.input, n);
    var d := Dequeue(s.input, n);
    assert (d.bytes + dest[n..])[..n] == d.bytes;
  }
}
