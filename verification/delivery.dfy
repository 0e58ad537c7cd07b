/**
 * End-to-end behaviour of the receive state machine: which frames reach a
 * handler, how a receiver resynchronises after garbage, and how a stalled
 * partial frame is abandoned. Everything here is about the Framing functions,
 * which the PacketManager methods are proved equal to.
 */
module Delivery {
  import opened Checksum
  import opened Wire
  import opened Framing

  /** A frame that passes every receive check up to the handler lookup. */
  predicate GoodFrame(f: seq<bv8>)
  {
    |f| == FRAME_SIZE && f[0] == MAGIC && ChecksumOk(f) && (f[TYPE_INDEX] as int) < TYPE_COUNT
  }

  /** The handler call a good frame causes: none when its type has no handler. */
  function Delivered(f: seq<bv8>, handlers: seq<Handler>): seq<Dispatch>
    requires GoodFrame(f) && |handlers| == TYPE_COUNT
  {
    var h := handlers[f[TYPE_INDEX]];
    if h.Fn? then [Dispatch(h.id, f)] else []
  }

  /** Frames back to back, as they sit in the transport. */
  function Flatten(frames: seq<seq<bv8>>): seq<bv8>
  {
    if frames == [] then [] else frames[0] + Flatten(frames[1..])
  }

  /** The handler calls a sequence of good frames causes, in order. */
  function Deliveries(frames: seq<seq<bv8>>, handlers: seq<Handler>): seq<Dispatch>
    requires |handlers| == TYPE_COUNT && forall i :: 0 <= i < |frames| ==> GoodFrame(frames[i])
  {
    if frames == [] then [] else Delivered(frames[0], handlers) + Deliveries(frames[1..], handlers)
  }

  /** Reading the missing bytes of a good frame into a buffer that holds its first k. */
  lemma AccumulateCompletes(b: RxState, f: seq<bv8>, rest: seq<bv8>)
    requires |b.rx| == FRAME_SIZE && b.bytesRead < FRAME_SIZE && |f| == FRAME_SIZE
    requires b.rx[..b.bytesRead] == f[..b.bytesRead]
    ensures var input := f[b.bytesRead..] + rest;
      && Chunk(b, input) == FRAME_SIZE - b.bytesRead
      && Accumulate(b, input).rx == f && Accumulate(b, input).bytesRead == FRAME_SIZE
      && input[FRAME_SIZE - b.bytesRead..] == rest
  {
    var k := b.bytesRead;
    var input := f[k..] + rest;
    assert Chunk(b, input) == FRAME_SIZE - k;
    var a := Accumulate(b, input);
    assert a.rx[..k] == f[..k];
    assert a.rx[k..FRAME_SIZE] == input[..FRAME_SIZE - k] == f[k..];
    assert a.rx == a.rx[..k] + a.rx[k..FRAME_SIZE];
    assert f == f[..k] + f[k..];
  }

  /** The checks on a completed good frame: the handler of its type runs, and the receiver resets. */
  lemma JudgeGood(a: RxState, handlers: seq<Handler>)
    requires |a.rx| == FRAME_SIZE && a.bytesRead == FRAME_SIZE && a.reading && a.receivedAt < CLOCK_MODULUS
    requires |handlers| == TYPE_COUNT && GoodFrame(a.rx)
    ensures Idle(Judge(a, handlers).0) && Events(Judge(a, handlers).1) == Delivered(a.rx, handlers)
  {
  }

  /**
   * A receiver holding the first k bytes of a good frame (k = 0 when idle)
   * completes it with one TryReadPacket call: it reads exactly the missing
   * bytes, calls the handler of the frame's type if one is set, and is idle.
   */
  lemma Completes(s: RxState, f: seq<bv8>, rest: seq<bv8>, now: nat, handlers: seq<Handler>)
    requires Inv(s) && now < CLOCK_MODULUS && |handlers| == TYPE_COUNT && GoodFrame(f)
    requires s.rx[..s.bytesRead] == f[..s.bytesRead]
    ensures var st := TryReadStep(s, f[s.bytesRead..] + rest, now, handlers);
      Idle(st.state) && st.rest == rest && Events(st.event) == Delivered(f, handlers)
  {
    var b := Begin(s, now);
    assert b.bytesRead == s.bytesRead && b.rx == s.rx && b.reading;
    AccumulateCompletes(b, f, rest);
    var a := Accumulate(b, f[s.bytesRead..] + rest);
    JudgeGood(a, handlers);
  }

  /** Update's loop run on exactly the missing bytes of a good frame. */
  lemma DrainCompletes(s: RxState, f: seq<bv8>, now: nat, handlers: seq<Handler>)
    requires Inv(s) && now < CLOCK_MODULUS && |handlers| == TYPE_COUNT && GoodFrame(f)
    requires s.rx[..s.bytesRead] == f[..s.bytesRead]
    ensures var r := Drain(s, f[s.bytesRead..], now, handlers);
      Idle(r.state) && r.events == Delivered(f, handlers)
  {
    var input := f[s.bytesRead..];
    assert input + [] == input;
    Completes(s, f, [], now, handlers);
    var st := TryReadStep(s, input, now, handlers);
    assert Drain(st.state, [], now, handlers) == Run(st.state, []);
    assert Events(st.event) + [] == Events(st.event);
  }

  /**
   * The round trip: the frame Send builds for a type below 3, read by an idle
   * receiver in one Update, reaches exactly the handler of that type (none if
   * unset), carrying the payload it was built from; the receiver ends idle.
   */
  lemma RoundTrip(s: RxState, ptype: bv8, flags: bv8, payload: seq<bv8>, now: nat, handlers: seq<Handler>)
    requires Inv(s) && Idle(s) && now < CLOCK_MODULUS && |handlers| == TYPE_COUNT
    requires |payload| == PAYLOAD_SIZE && (ptype as int) < TYPE_COUNT
    ensures var f := Frame(ptype, flags, payload);
      var r := UpdateStep(s, f, now, handlers);
      && Idle(r.state)
      && r.events == (if handlers[ptype].Fn? then [Dispatch(handlers[ptype].id, f)] else [])
      && forall i :: 0 <= i < |r.events| ==> Decode(r.events[i].frame).payload == payload
  {
    var f := Frame(ptype, flags, payload);
    assert f[0..] == f;
    DrainCompletes(s, f, now, handlers);
  }

  /**
   * A backlog of good frames drained by one Update: every frame reaches its
   * handler, in order, and the receiver ends idle.
   */
  lemma {:induction false} DrainFrames(s: RxState, frames: seq<seq<bv8>>, now: nat, handlers: seq<Handler>)
    requires Inv(s) && Idle(s) && now < CLOCK_MODULUS && |handlers| == TYPE_COUNT
    requires forall i :: 0 <= i < |frames| ==> GoodFrame(frames[i])
    ensures var r := Drain(s, Flatten(frames), now, handlers);
      Idle(r.state) && r.events == Deliveries(frames, handlers)
    decreases |frames|
  {
    if frames != [] {
      var f, more := frames[0], frames[1..];
      assert f[0..] + Flatten(more) == Flatten(frames);
      Completes(s, f, Flatten(more), now, handlers);
      var st := TryReadStep(s, Flatten(frames), now, handlers);
      DrainFrames(st.state, more, now, handlers);
    }
  }

  /** An idle receiver's first read takes the first 13 bytes when that many are there. */
  lemma FirstRead(s: RxState, input: seq<bv8>, now: nat)
    requires Inv(s) && Idle(s) && |input| >= FRAME_SIZE
    ensures var b := Begin(s, now);
      && b.reading && b.receivedAt == now && Chunk(b, input) == FRAME_SIZE
      && Accumulate(b, input).rx == input[..FRAME_SIZE] && Accumulate(b, input).bytesRead == FRAME_SIZE
  {
    var b := Begin(s, now);
    assert b.bytesRead == 0;
    assert Chunk(b, input) == FRAME_SIZE;
    var a := Accumulate(b, input);
    assert a.rx == a.rx[..0] + a.rx[0..FRAME_SIZE];
  }

  /** The first read of 13 garbage bytes with no magic byte: nothing is kept. */
  lemma JudgeGarbage(a: RxState, handlers: seq<Handler>)
    requires |a.rx| == FRAME_SIZE && a.bytesRead == FRAME_SIZE && a.reading && a.receivedAt < CLOCK_MODULUS
    requires |handlers| == TYPE_COUNT
    requires forall j :: 0 <= j < FRAME_SIZE ==> a.rx[j] != MAGIC
    ensures Judge(a, handlers) == (Reset(a), None)
  {
    assert FirstMagic(a.rx, 1, FRAME_SIZE).None?;
  }

  /** The first read of garbage then a magic byte at n: the shift keeps the bytes from n on. */
  lemma JudgeGarbageThenMagic(a: RxState, n: nat, handlers: seq<Handler>)
    requires |a.rx| == FRAME_SIZE && a.bytesRead == FRAME_SIZE && a.reading && a.receivedAt < CLOCK_MODULUS
    requires |handlers| == TYPE_COUNT && 0 < n < FRAME_SIZE && a.rx[n] == MAGIC
    requires forall j :: 0 <= j < n ==> a.rx[j] != MAGIC
    ensures Judge(a, handlers).1.None?
    ensures Judge(a, handlers).0.bytesRead == FRAME_SIZE - n
    ensures Judge(a, handlers).0.rx[..FRAME_SIZE - n] == a.rx[n..]
  {
    FirstMagicAt(a.rx, 1, FRAME_SIZE, n);
  }

  /** 13 bytes of garbage without a magic byte are dropped whole. */
  lemma GarbageBlock(s: RxState, g: seq<bv8>, f: seq<bv8>, now: nat, handlers: seq<Handler>)
    requires Inv(s) && Idle(s) && now < CLOCK_MODULUS && |handlers| == TYPE_COUNT
    requires |g| >= FRAME_SIZE && forall i :: 0 <= i < |g| ==> g[i] != MAGIC
    ensures var st := TryReadStep(s, g + f, now, handlers);
      Idle(st.state) && st.rest == g[FRAME_SIZE..] + f && st.event.None?
  {
    var input := g + f;
    FirstRead(s, input, now);
    var a := Accumulate(Begin(s, now), input);
    SplitInGarbage(g, f);
    JudgeGarbage(a, handlers);
  }

  /** A long run of garbage fills the first 13 bytes; what follows is the rest of it, then the frame. */
  lemma SplitInGarbage(g: seq<bv8>, f: seq<bv8>)
    requires |g| >= FRAME_SIZE && forall i :: 0 <= i < |g| ==> g[i] != MAGIC
    ensures forall j :: 0 <= j < FRAME_SIZE ==> (g + f)[..FRAME_SIZE][j] != MAGIC
    ensures (g + f)[FRAME_SIZE..] == g[FRAME_SIZE..] + f
  {
    assert (g + f)[..FRAME_SIZE] == g[..FRAME_SIZE];
  }

  /** Where a short run of garbage followed by a frame falls across the first 13 bytes. */
  lemma SplitAfterGarbage(g: seq<bv8>, f: seq<bv8>)
    requires |f| == FRAME_SIZE && 0 < |g| < FRAME_SIZE
    ensures (g + f)[..FRAME_SIZE] == g + f[..FRAME_SIZE - |g|]
    ensures (g + f)[..FRAME_SIZE][|g|..] == f[..FRAME_SIZE - |g|]
    ensures (g + f)[FRAME_SIZE..] == f[FRAME_SIZE - |g|..]
  {
  }

  /** A TryReadPacket call that runs no handler adds nothing to Update's log. */
  lemma DrainSilentStep(s: RxState, input: seq<bv8>, now: nat, handlers: seq<Handler>)
    requires Inv(s) && now < CLOCK_MODULUS && |handlers| == TYPE_COUNT && input != []
    requires TryReadStep(s, input, now, handlers).event.None?
    ensures var st := TryReadStep(s, input, now, handlers);
      Drain(s, input, now, handlers) == Drain(st.state, st.rest, now, handlers)
  {
    var st := TryReadStep(s, input, now, handlers);
    assert Events(st.event) == [];
    assert [] + Drain(st.state, st.rest, now, handlers).events == Drain(st.state, st.rest, now, handlers).events;
  }

  /**
   * Fewer than 13 bytes of garbage without a magic byte: the shift to the
   * frame's magic byte keeps the frame's first bytes and reads on from there.
   */
  lemma GarbageTail(s: RxState, g: seq<bv8>, f: seq<bv8>, now: nat, handlers: seq<Handler>)
    requires Inv(s) && Idle(s) && now < CLOCK_MODULUS && |handlers| == TYPE_COUNT
    requires |f| == FRAME_SIZE && f[0] == MAGIC
    requires 0 < |g| < FRAME_SIZE && forall i :: 0 <= i < |g| ==> g[i] != MAGIC
    ensures var st := TryReadStep(s, g + f, now, handlers);
      && st.state.bytesRead == FRAME_SIZE - |g|
      && st.state.rx[..FRAME_SIZE - |g|] == f[..FRAME_SIZE - |g|]
      && st.rest == f[FRAME_SIZE - |g|..] && st.event.None?
  {
    var input := g + f;
    var n := |g|;
    FirstRead(s, input, now);
    var a := Accumulate(Begin(s, now), input);
    SplitAfterGarbage(g, f);
    JudgeGarbageThenMagic(a, n, handlers);
  }

  /** Update's loop drops a 13-byte block of garbage and goes on with the rest. */
  lemma DrainGarbageBlock(s: RxState, g: seq<bv8>, f: seq<bv8>, now: nat, handlers: seq<Handler>)
    requires Inv(s) && Idle(s) && now < CLOCK_MODULUS && |handlers| == TYPE_COUNT
    requires |g| >= FRAME_SIZE && forall i :: 0 <= i < |g| ==> g[i] != MAGIC
    ensures var st := TryReadStep(s, g + f, now, handlers);
      && Idle(st.state)
      && Drain(s, g + f, now, handlers) == Drain(st.state, g[FRAME_SIZE..] + f, now, handlers)
      && forall i :: 0 <= i < |g[FRAME_SIZE..]| ==> g[FRAME_SIZE..][i] != MAGIC
  {
    GarbageBlock(s, g, f, now, handlers);
    DrainSilentStep(s, g + f, now, handlers);
  }

  /** Update's loop drops a short run of garbage and delivers the frame behind it. */
  lemma DrainGarbageTail(s: RxState, g: seq<bv8>, f: seq<bv8>, now: nat, handlers: seq<Handler>)
    requires Inv(s) && Idle(s) && now < CLOCK_MODULUS && |handlers| == TYPE_COUNT && GoodFrame(f)
    requires 0 < |g| < FRAME_SIZE && forall i :: 0 <= i < |g| ==> g[i] != MAGIC
    ensures var r := Drain(s, g + f, now, handlers);
      Idle(r.state) && r.events == Delivered(f, handlers)
  {
    var st := TryReadStep(s, g + f, now, handlers);
    GarbageTail(s, g, f, now, handlers);
    DrainSilentStep(s, g + f, now, handlers);
    DrainCompletes(st.state, f, now, handlers);
  }

  /**
   * Resynchronisation: garbage without a magic byte in front of a good frame
   * is thrown away, 13 bytes at a time and then by the shift to the frame's
   * magic byte, and the frame is still delivered.
   */
  lemma {:induction false} SkipsGarbage(s: RxState, g: seq<bv8>, f: seq<bv8>, now: nat, handlers: seq<Handler>)
    requires Inv(s) && Idle(s) && now < CLOCK_MODULUS && |handlers| == TYPE_COUNT && GoodFrame(f)
    requires forall i :: 0 <= i < |g| ==> g[i] != MAGIC
    ensures var r := Drain(s, g + f, now, handlers);
      Idle(r.state) && r.events == Delivered(f, handlers)
    decreases |g|
  {
    if g == [] {
      assert g + f == f[0..];
      DrainCompletes(s, f, now, handlers);
    } else if |g| >= FRAME_SIZE {
      var st := TryReadStep(s, g + f, now, handlers);
      DrainGarbageBlock(s, g, f, now, handlers);
      SkipsGarbage(st.state, g[FRAME_SIZE..], f, now, handlers);
    } else {
      DrainGarbageTail(s, g, f, now, handlers);
    }
  }

  /**
   * The stored checksum of a frame a handler receives never has a 0xFF byte,
   * so a frame whose last byte was overwritten with 0xFF is never delivered.
   */
  lemma {:induction false} DeliveredChecksumNever0xFF(s: RxState, input: seq<bv8>, now: nat, handlers: seq<Handler>)
    requires Inv(s) && now < CLOCK_MODULUS && |handlers| == TYPE_COUNT
    ensures var events := Drain(s, input, now, handlers).events;
      forall i :: 0 <= i < |events| ==>
        events[i].frame[CHECKSUM_OFFSET] != 0xFF && events[i].frame[CHECKSUM_OFFSET + 1] != 0xFF
  {
    var events := Drain(s, input, now, handlers).events;
    forall i | 0 <= i < |events|
      ensures events[i].frame[CHECKSUM_OFFSET] != 0xFF && events[i].frame[CHECKSUM_OFFSET + 1] != 0xFF
    {
      var fr := events[i].frame;
      assert Deliverable(fr, handlers);
      var c := Fletcher16(fr[..CHECKSUM_OFFSET]);
      assert StoredChecksum(fr) == c;
    }
  }

  /**
   * A complete frame with a good checksum but a type of 3 or more is dropped,
   * and the receiver ends idle: the bytes the shift to the next magic byte kept
   * (there are some when such a byte exists) are discarded by the reset after it.
   */
  lemma OutOfRangeTypeDiscards(a: RxState, handlers: seq<Handler>)
    requires |a.rx| == FRAME_SIZE && a.bytesRead == FRAME_SIZE && a.reading && a.receivedAt < CLOCK_MODULUS
    requires |handlers| == TYPE_COUNT
    requires a.rx[0] == MAGIC && ChecksumOk(a.rx) && (a.rx[TYPE_INDEX] as int) >= TYPE_COUNT
    ensures Judge(a, handlers) == (Reset(Resync(a)), None)
    ensures Idle(Judge(a, handlers).0)
    ensures (exists i :: 1 <= i < FRAME_SIZE && a.rx[i] == MAGIC) ==> Resync(a).bytesRead > 0
  {
    if exists i :: 1 <= i < FRAME_SIZE && a.rx[i] == MAGIC {
      assert FirstMagic(a.rx, 1, FRAME_SIZE).Some?;
    }
  }

  /**
   * Update with nothing available: no handler runs, and the state changes
   * exactly when a partial frame has waited more than READ_TIMEOUT, in which
   * case the receiver goes idle.
   */
  lemma QuietUpdate(s: RxState, now: nat, handlers: seq<Handler>)
    requires Inv(s) && now < CLOCK_MODULUS && |handlers| == TYPE_COUNT
    ensures UpdateStep(s, [], now, handlers).events == []
    ensures UpdateStep(s, [], now, handlers).state == s
      <==> !(s.reading && Elapsed(now, s.receivedAt) > READ_TIMEOUT)
    ensures s.reading && Elapsed(now, s.receivedAt) > READ_TIMEOUT ==> Idle(UpdateStep(s, [], now, handlers).state)
  {
    if s.reading && Elapsed(now, s.receivedAt) > READ_TIMEOUT {
      assert UpdateStep(s, [], now, handlers).state.reading != s.reading;
    }
  }

  /**
   * Recovery after a stall: once the timeout has reset a partial frame, the
   * next good frame is delivered whole, not spliced onto the stale bytes.
   */
  lemma TimeoutRecovery(s: RxState, now: nat, later: nat, f: seq<bv8>, handlers: seq<Handler>)
    requires Inv(s) && s.reading && now < CLOCK_MODULUS && later < CLOCK_MODULUS && |handlers| == TYPE_COUNT
    requires Elapsed(now, s.receivedAt) > READ_TIMEOUT && GoodFrame(f)
    ensures var quiet := UpdateStep(s, [], now, handlers);
      var next := UpdateStep(quiet.state, f, later, handlers);
      quiet.events == [] && Idle(next.state) && next.events == Delivered(f, handlers)
  {
    var quiet := UpdateStep(s, [], now, handlers);
    QuietUpdate(s, now, handlers);
    assert f == f[0..];
    DrainCompletes(quiet.state, f, later, handlers);
  }
}
