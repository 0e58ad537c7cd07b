/**
 * Two PacketManagers sharing one TestTransportLayer, one sending and one
 * receiving, driven the way the test program drives them.
 */
module Scenarios {
  import opened Wire
  import opened Framing
  import opened Transport
  import opened Manager
  import opened Delivery
  import opened Recovery

  /** The payload field of a full 8-byte payload is that payload. */
  lemma FullPayload(payload: seq<bv8>)
    requires |payload| == PAYLOAD_SIZE
    ensures PayloadField(Some(payload), PAYLOAD_SIZE) == payload
  {
    var r := PayloadField(Some(payload), PAYLOAD_SIZE);
    assert forall i :: 0 <= i < PAYLOAD_SIZE ==> r[i] == payload[i];
  }

  lemma RepeatOneMore<T>(x: T, n: nat)
    ensures seq(n, _ => x) + [x] == seq(n + 1, _ => x)
  {
  }

  /**
   * One send and one receiver Update over a shared, empty transport: the
   * receiver's handler log grows by the handler call the frame causes.
   */
  method Exchange(tx: PacketManager, rx: PacketManager, ptype: bv8, payload: array?<bv8>, now: nat)
    requires tx.Valid() && rx.Valid() && tx.transport == rx.transport && tx.transport.buffer == []
    requires tx != rx && tx.txPacket != rx.rxPacket && tx.rxPacket != rx.rxPacket
    requires payload != null ==> payload.Length >= PAYLOAD_SIZE && payload != tx.txPacket
    requires Idle(rx.Rx()) && (ptype as int) < TYPE_COUNT && now < CLOCK_MODULUS
    modifies tx.txPacket, tx.transport, rx`reading, rx`bytesRead, rx`receivedAt, rx`dispatched, rx.rxPacket
    ensures tx.Valid() && rx.Valid() && tx.transport.buffer == [] && Idle(rx.Rx())
    ensures tx.txPacket[FLAGS_INDEX] == old(tx.txPacket[FLAGS_INDEX])
    ensures var f := Frame(ptype, old(tx.txPacket[FLAGS_INDEX]),
                           PayloadField(if payload == null then None else Some(old(payload[..])), PAYLOAD_SIZE));
      var h := rx.handlers[ptype];
      rx.dispatched == old(rx.dispatched) + (if h.Fn? then [Dispatch(h.id, f)] else [])
  {
    ghost var flags := tx.txPacket[FLAGS_INDEX];
    ghost var field := PayloadField(if payload == null then None else Some(payload[..]), PAYLOAD_SIZE);
    tx.Send(ptype as int, payload, PAYLOAD_SIZE);
    assert TypeByte(ptype as int) == ptype;
    assert tx.txPacket[FLAGS_INDEX] == flags;
    Receive(rx, ptype, flags, field, now);
  }

  /** One receiver Update over a transport holding exactly one frame Send built. */
  method Receive(rx: PacketManager, ptype: bv8, ghost flags: bv8, ghost field: seq<bv8>, now: nat)
    requires rx.Valid() && Idle(rx.Rx()) && (ptype as int) < TYPE_COUNT && now < CLOCK_MODULUS
    requires |field| == PAYLOAD_SIZE && rx.transport.buffer == Frame(ptype, flags, field)
    modifies rx`reading, rx`bytesRead, rx`receivedAt, rx`dispatched, rx.rxPacket, rx.transport
    ensures rx.Valid() && rx.transport.buffer == [] && Idle(rx.Rx())
    ensures var h := rx.handlers[ptype];
      rx.dispatched == old(rx.dispatched) + (if h.Fn? then [Dispatch(h.id, Frame(ptype, flags, field))] else [])
  {
    RoundTrip(rx.Rx(), ptype, flags, field, now, rx.handlers);
    rx.Update(now);
  }

  /**
   * A sender and a receiver on one fresh transport, the receiver with a
   * handler `id` for `ptype` and no other.
   */
  method Connect(ptype: nat, id: nat) returns (transport: TestTransportLayer, tx: PacketManager, rx: PacketManager)
    requires ptype < TYPE_COUNT
    ensures fresh(transport) && fresh(tx) && fresh(rx) && fresh(tx.txPacket) && fresh(rx.rxPacket)
    ensures tx.Valid() && rx.Valid() && tx != rx
    ensures tx.transport == transport && rx.transport == transport && transport.buffer == []
    ensures tx.txPacket != rx.rxPacket && tx.rxPacket != rx.rxPacket
    ensures tx.txPacket[FLAGS_INDEX] == 0 && Idle(rx.Rx()) && rx.dispatched == []
    ensures rx.handlers == seq(TYPE_COUNT, _ => Unset)[ptype := Fn(id)]
  {
    transport := new TestTransportLayer();
    tx := new PacketManager(transport);
    rx := new PacketManager(transport);
    rx.Callback(ptype, Fn(id));
    assert tx.txPacket[FLAGS_INDEX] == 0;
  }

  /**
   * The first test's loop: n times, send a DataPacket with an 8-byte payload
   * and run one receiver Update. Every packet reaches the DataPacket handler
   * intact, in one Update each, and nothing is left for the cleanup loop.
   */
  method SendEachThenUpdate(payload: array<bv8>, id: nat, now: nat, n: nat) returns (calls: seq<Dispatch>)
    requires payload.Length == PAYLOAD_SIZE && now < CLOCK_MODULUS
    ensures |calls| == n
    ensures forall i :: 0 <= i < n ==> calls[i] == Dispatch(id, Frame(1, 0, payload[..]))
    ensures forall i :: 0 <= i < n ==> |calls[i].frame| == FRAME_SIZE && Decode(calls[i].frame).payload == payload[..]
  {
    var transport, tx, rx := Connect(1, id);
    ghost var handlers := rx.handlers;
    ghost var f := Frame(1, 0, payload[..]);
    FullPayload(payload[..]);
    var i := 0;
    while i < n
      invariant 0 <= i <= n
      invariant tx.Valid() && rx.Valid() && tx != rx
      invariant tx.transport == transport && rx.transport == transport
      invariant tx.txPacket != rx.rxPacket && tx.rxPacket != rx.rxPacket && tx.txPacket != payload
      invariant tx.txPacket[FLAGS_INDEX] == 0 && transport.buffer == []
      invariant Idle(rx.Rx()) && rx.handlers == handlers
      invariant rx.dispatched == seq(i, _ => Dispatch(id, f))
    {
      Exchange(tx, rx, 1, payload, now);
      RepeatOneMore(Dispatch(id, f), i);
      i := i + 1;
    }
    var more := transport.Available();
    assert !more;
    calls := rx.dispatched;
  }

  /**
   * Flags travel with the packet: after SetFlag(flag) and SetCritical on the
   * sender, an AckPacket without payload reaches the receiver's handler with
   * exactly that user flag and the critical bit set, and a zero payload.
   */
  method FlagsTravel(id: nat, now: nat, flag: nat) returns (received: Packet)
    requires flag < 4 && now < CLOCK_MODULUS
    ensures received.WellFormed() && received.ptype == 2
    ensures HasFlag(received, flag) && HasCritical(received)
    ensures forall j :: 0 <= j < 4 && j != flag ==> !HasFlag(received, j)
    ensures forall i :: 0 <= i < PAYLOAD_SIZE ==> received.payload[i] == 0
  {
    var transport, tx, rx := Connect(2, id);
    tx.SetFlag(flag, true);
    tx.SetCritical(true);
    Exchange(tx, rx, 2, null, now);
    received := Decode(rx.dispatched[0].frame);
  }

  /** The test's Send of its payload as a DataPacket, from a sender with no flags set. */
  method SendTestFrame(tx: PacketManager, payload: array<bv8>)
    requires tx.Valid() && tx.txPacket[FLAGS_INDEX] == 0
    requires payload[..] == TEST_PAYLOAD && payload != tx.txPacket
    modifies tx.txPacket, tx.transport
    ensures tx.Valid() && tx.txPacket[FLAGS_INDEX] == 0
    ensures tx.transport.buffer == old(tx.transport.buffer) + TEST_FRAME
  {
    FullPayload(payload[..]);
    TestFrameIsSent();
    tx.Send(1, payload, PAYLOAD_SIZE);
    assert TypeByte(1) == 1;
  }

  /** A receiver left holding the last four bytes of a corrupted test frame. */
  ghost predicate HoldsStale(s: RxState)
  {
    |s.rx| == FRAME_SIZE && s.reading && s.bytesRead == 4 && s.rx[..4] == Stale(TEST_FRAME)
  }

  /** An idle receiver's Update over a corrupted test frame: no handler runs, the stale tail stays. */
  method UpdateOnCorrupted(rx: PacketManager, now: nat)
    requires rx.Valid() && Idle(rx.Rx()) && now < CLOCK_MODULUS
    requires rx.transport.buffer == Corrupted(TEST_FRAME)
    modifies rx`reading, rx`bytesRead, rx`receivedAt, rx`dispatched, rx.rxPacket, rx.transport
    ensures rx.Valid() && rx.transport.buffer == [] && HoldsStale(rx.Rx())
    ensures rx.dispatched == old(rx.dispatched)
  {
    TestFrameIsSent();
    CorruptedThenGood(rx.Rx(), TEST_FRAME, now, now, rx.handlers);
    rx.Update(now);
  }

  /** An Update over the test frame after some junk: the DataPacket handler `id` runs on it. */
  method UpdateOnTestFrame(rx: PacketManager, id: nat, ghost junk: seq<bv8>, now: nat)
    requires rx.Valid() && now < CLOCK_MODULUS && rx.handlers[1] == Fn(id)
    requires rx.transport.buffer == junk + TEST_FRAME
    requires || (junk == [] && Idle(rx.Rx()))
             || (junk == [] && HoldsStale(rx.Rx()))
             || (junk == TEST_FRAME[..6] && Idle(rx.Rx()))
    modifies rx`reading, rx`bytesRead, rx`receivedAt, rx`dispatched, rx.rxPacket, rx.transport
    ensures rx.Valid() && rx.transport.buffer == [] && Idle(rx.Rx())
    ensures rx.dispatched == old(rx.dispatched) + [Dispatch(id, TEST_FRAME)]
  {
    TestFrameIsSent();
    if junk == TEST_FRAME[..6] {
      HalfThenFrame(rx.Rx(), TEST_FRAME, now, rx.handlers);
    } else if Idle(rx.Rx()) {
      RoundTrip(rx.Rx(), 1, 0, TEST_PAYLOAD, now, rx.handlers);
    } else {
      StaleThenFrame(rx.Rx(), TEST_FRAME, now, rx.handlers);
    }
    assert junk + TEST_FRAME == if junk == [] then TEST_FRAME else TEST_FRAME[..6] + TEST_FRAME;
    rx.Update(now);
  }

  /**
   * The third test's loop body: send the test frame, overwrite its last byte
   * with 0xFF when `corrupt`, run one receiver Update. A corrupted frame
   * leaves the stale tail and runs no handler; the intact frame after it is
   * delivered.
   */
  method CorruptingRound(tx: PacketManager, rx: PacketManager, payload: array<bv8>, id: nat, corrupt: bool, now: nat)
    requires tx.Valid() && rx.Valid() && tx != rx && tx.transport == rx.transport && tx.transport.buffer == []
    requires tx.txPacket != rx.rxPacket && tx.rxPacket != rx.rxPacket
    requires payload[..] == TEST_PAYLOAD && payload != tx.txPacket
    requires tx.txPacket[FLAGS_INDEX] == 0 && rx.handlers[1] == Fn(id) && now < CLOCK_MODULUS
    requires if corrupt then Idle(rx.Rx()) else HoldsStale(rx.Rx())
    modifies tx.txPacket, tx.transport, rx`reading, rx`bytesRead, rx`receivedAt, rx`dispatched, rx.rxPacket
    ensures tx.Valid() && rx.Valid() && tx.transport.buffer == [] && tx.txPacket[FLAGS_INDEX] == 0
    ensures if corrupt then HoldsStale(rx.Rx()) && rx.dispatched == old(rx.dispatched)
            else Idle(rx.Rx()) && rx.dispatched == old(rx.dispatched) + [Dispatch(id, TEST_FRAME)]
  {
    SendTestFrame(tx, payload);
    var transport := tx.transport;
    if corrupt {
      transport.buffer := transport.buffer[|transport.buffer| - 1 := 0xFF];
      UpdateOnCorrupted(rx, now);
    } else {
      UpdateOnTestFrame(rx, id, [], now);
    }
  }

  /**
   * The third test: n DataPackets, every other one (the 1st, 3rd, ...) with
   * its last byte overwritten by 0xFF, one receiver Update after each send,
   * at the given clock readings. Every intact packet reaches the handler,
   * and nothing else does.
   */
  method CorruptEveryOther(payload: array<bv8>, id: nat, times: seq<nat>) returns (calls: seq<Dispatch>)
    requires payload[..] == TEST_PAYLOAD
    requires forall i :: 0 <= i < |times| ==> times[i] < CLOCK_MODULUS
    ensures |calls| == |times| / 2
    ensures forall i :: 0 <= i < |calls| ==> calls[i] == Dispatch(id, TEST_FRAME)
  {
    var transport, tx, rx := Connect(1, id);
    var i := 0;
    while i < |times|
      invariant 0 <= i <= |times|
      invariant tx.Valid() && rx.Valid() && tx != rx
      invariant tx.transport == transport && rx.transport == transport
      invariant tx.txPacket != rx.rxPacket && tx.rxPacket != rx.rxPacket && tx.txPacket != payload
      invariant tx.txPacket[FLAGS_INDEX] == 0 && transport.buffer == [] && rx.handlers[1] == Fn(id)
      invariant if i % 2 == 0 then Idle(rx.Rx()) else HoldsStale(rx.Rx())
      invariant rx.dispatched == seq(i / 2, _ => Dispatch(id, TEST_FRAME))
    {
      CorruptingRound(tx, rx, payload, id, i % 2 == 0, times[i]);
      if i % 2 == 1 {
        RepeatOneMore(Dispatch(id, TEST_FRAME), i / 2);
      }
      i := i + 1;
    }
    var more := transport.Available();
    assert !more;
    calls := rx.dispatched;
  }

  /**
   * The fourth test: the first half of a DataPacket (6 of its 13 bytes), then
   * n whole ones, one receiver Update after each. The half frame is dropped
   * and every whole packet reaches the handler. (The test sends millions; with
   * none, the half frame would be left for its cleanup loop.)
   */
  method HalfFrameFirst(payload: array<bv8>, id: nat, times: seq<nat>) returns (calls: seq<Dispatch>)
    requires payload[..] == TEST_PAYLOAD && |times| > 0
    requires forall i :: 0 <= i < |times| ==> times[i] < CLOCK_MODULUS
    ensures |calls| == |times|
    ensures forall i :: 0 <= i < |calls| ==> calls[i] == Dispatch(id, TEST_FRAME)
  {
    var transport, tx, rx := Connect(1, id);
    SendTestFrame(tx, payload);
    transport.buffer := transport.buffer[..|transport.buffer| / 2];
    var i := 0;
    while i < |times|
      invariant 0 <= i <= |times|
      invariant tx.Valid() && rx.Valid() && tx != rx
      invariant tx.transport == transport && rx.transport == transport
      invariant tx.txPacket != rx.rxPacket && tx.rxPacket != rx.rxPacket && tx.txPacket != payload
      invariant tx.txPacket[FLAGS_INDEX] == 0 && rx.handlers[1] == Fn(id) && Idle(rx.Rx())
      invariant transport.buffer == if i == 0 then TEST_FRAME[..6] else []
      invariant rx.dispatched == seq(i, _ => Dispatch(id, TEST_FRAME))
    {
      SendTestFrame(tx, payload);
      UpdateOnTestFrame(rx, id, if i == 0 then TEST_FRAME[..6] else [], times[i]);
      RepeatOneMore(Dispatch(id, TEST_FRAME), i);
      i := i + 1;
    }
    var more := transport.Available();
    assert !more;
    calls := rx.dispatched;
  }
}
