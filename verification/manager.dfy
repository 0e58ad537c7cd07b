/**
 * pckt::PacketManager: the handler table, the send buffer txPacket with its
 * flags, and the receive state (reading, bytesRead, receivedAt, rxPacket).
 * Every receive-side method is proved equal to its function in Framing; the
 * handler invocations are recorded, in order, in `dispatched`.
 */
module Manager {
  import opened Checksum
  import opened Wire
  import opened Bytes
  import opened Framing
  import opened Transport

  class PacketManager {
    var reading: bool
    var bytesRead: nat
    var receivedAt: nat
    var handlers: seq<Handler>
    const transport: TestTransportLayer
    const txPacket: array<bv8>
    const rxPacket: array<bv8>
    /** The handler calls made so far, oldest first. */
    var dispatched: seq<Dispatch>

    ghost predicate Valid()
      reads this, txPacket, rxPacket
    {
      && txPacket.Length == FRAME_SIZE
      && rxPacket.Length == FRAME_SIZE
      && txPacket != rxPacket
      && |handlers| == TYPE_COUNT
      && Inv(Rx())
    }

    /** The receive state as the Framing functions see it. */
    ghost function Rx(): RxState
      reads this, rxPacket
    {
      RxState(reading, bytesRead, receivedAt, rxPacket[..])
    }

    /** No handlers, both buffers zeroed, txPacket's magic set, receiver idle. */
    constructor (transport: TestTransportLayer)
      ensures Valid() && fresh(txPacket) && fresh(rxPacket)
      ensures this.transport == transport
      ensures handlers == seq(TYPE_COUNT, _ => Unset) && dispatched == []
      ensures txPacket[..] == [MAGIC] + seq(FRAME_SIZE - 1, _ => 0)
      ensures Idle(Rx()) && receivedAt == 0 && rxPacket[..] == seq(FRAME_SIZE, _ => 0)
    {
      this.transport := transport;
      handlers := seq(TYPE_COUNT, _ => Unset);
      txPacket := new bv8[FRAME_SIZE](_ => 0);
      rxPacket := new bv8[FRAME_SIZE](_ => 0);
      dispatched := [];
      new;
      txPacket[0] := MAGIC;
      ResetState();
    }

    /** Update: time out a stalled partial frame, or drain the transport. */
    method Update(now: nat)
      requires Valid() && now < CLOCK_MODULUS
      modifies this`reading, this`bytesRead, this`receivedAt, this`dispatched, rxPacket, transport
      ensures Valid()
      ensures var u := UpdateStep(old(Rx()), old(transport.buffer), now, handlers);
        Rx() == u.state && dispatched == old(dispatched) + u.events
      ensures transport.buffer == []
    {
      var more := transport.Available();
      if !more {
        if reading && Elapsed(now, receivedAt) > READ_TIMEOUT {
          ResetState();
        }
        return;
      }
      DrainTransport(now);
    }

    /** Update's loop: TryReadPacket until the transport has nothing left. */
    method DrainTransport(now: nat)
      requires Valid() && now < CLOCK_MODULUS
      modifies this`reading, this`bytesRead, this`receivedAt, this`dispatched, rxPacket, transport
      ensures Valid()
      ensures var d := Drain(old(Rx()), old(transport.buffer), now, handlers);
        Rx() == d.state && dispatched == old(dispatched) + d.events
      ensures transport.buffer == []
    {
      ghost var whole := DrainInto(Rx(), transport.buffer, now, handlers, dispatched);
      DrainIntoIsDrain(Rx(), transport.buffer, now, handlers, dispatched);
      var more := transport.Available();
      while more
        invariant Valid()
        invariant more <==> transport.buffer != []
        invariant whole == DrainInto(Rx(), transport.buffer, now, handlers, dispatched)
        decreases |transport.buffer|
      {
        TryReadPacket(now);
        more := transport.Available();
      }
    }

    /** Callback: replaces the handler of an in-range type; other types are ignored. */
    method Callback(ptype: int, handler: Handler)
      requires Valid()
      modifies this`handlers
      ensures Valid()
      ensures 0 <= ptype < TYPE_COUNT ==> handlers == old(handlers)[ptype := handler]
      ensures !(0 <= ptype < TYPE_COUNT) ==> handlers == old(handlers)
    {
      if ptype < 0 || ptype >= TYPE_COUNT {
        return;
      }
      handlers := handlers[ptype := handler];
    }

    /**
     * Send: rebuilds txPacket from the type, the kept flags and the payload,
     * with its checksum, and writes all 13 bytes to the transport.
     */
    method Send(ptype: int, payload: array?<bv8>, len: nat)
      requires Valid()
      requires payload != null ==> payload.Length >= Min(len, PAYLOAD_SIZE) && payload != txPacket
      modifies txPacket, transport
      ensures Valid()
      ensures txPacket[..] == Frame(TypeByte(ptype), old(txPacket[FLAGS_INDEX]),
                                    PayloadField(if payload == null then None else Some(old(payload[..])), len))
      ensures transport.buffer == old(transport.buffer) + txPacket[..]
    {
      ghost var flags := txPacket[FLAGS_INDEX];
      ghost var field := PayloadField(if payload == null then None else Some(payload[..]), len);
      FillHeader(ptype, payload, len);
      var checksum := ComputeChecksum(txPacket);
      txPacket[CHECKSUM_OFFSET] := ByteOf(checksum % 256);
      txPacket[CHECKSUM_OFFSET + 1] := ByteOf(checksum / 256);
      assert txPacket[..] == txPacket[..CHECKSUM_OFFSET] + [ByteOf(checksum % 256), ByteOf(checksum / 256)];
      FrameLayout(TypeByte(ptype), flags, field);
      var written := transport.Write(txPacket, FRAME_SIZE);
    }

    /** The first half of Send: magic, type, the kept flags and the zero-padded payload. */
    method FillHeader(ptype: int, payload: array?<bv8>, len: nat)
      requires txPacket.Length == FRAME_SIZE
      requires payload != null ==> payload.Length >= Min(len, PAYLOAD_SIZE) && payload != txPacket
      modifies txPacket
      ensures txPacket[..CHECKSUM_OFFSET] == [MAGIC, TypeByte(ptype), old(txPacket[FLAGS_INDEX])]
        + PayloadField(if payload == null then None else Some(payload[..]), len)
      ensures txPacket[CHECKSUM_OFFSET..] == old(txPacket[CHECKSUM_OFFSET..])
    {
      ghost var flags := txPacket[FLAGS_INDEX];
      ghost var field := PayloadField(if payload == null then None else Some(payload[..]), len);
      txPacket[0] := MAGIC;
      txPacket[TYPE_INDEX] := TypeByte(ptype);
      forall i | PAYLOAD_OFFSET <= i < CHECKSUM_OFFSET {
        txPacket[i] := 0;
      }
      var n := len;
      if n > PAYLOAD_SIZE {
        n := PAYLOAD_SIZE;
      }
      if payload != null {
        forall i | 0 <= i < n {
          txPacket[PAYLOAD_OFFSET + i] := payload[i];
        }
      }
      ghost var header := [MAGIC, TypeByte(ptype), flags] + field;
      forall i | 0 <= i < CHECKSUM_OFFSET
        ensures txPacket[i] == header[i]
      {
        if i >= PAYLOAD_OFFSET {
          assert header[i] == field[i - PAYLOAD_OFFSET];
        }
      }
      assert txPacket[..CHECKSUM_OFFSET] == header;
    }

    /** SetFlag<flag>: sets or clears user flag `flag` (0..3) of txPacket, nothing else. */
    method SetFlag(flag: nat, v: bool)
      requires Valid() && flag < 4
      modifies txPacket
      ensures Valid()
      ensures Bit(txPacket[FLAGS_INDEX], flag) == v
      ensures forall j :: 0 <= j < 8 && j != flag ==>
        Bit(txPacket[FLAGS_INDEX], j) == Bit(old(txPacket[FLAGS_INDEX]), j)
      ensures forall i :: 0 <= i < FRAME_SIZE && i != FLAGS_INDEX ==> txPacket[i] == old(txPacket[i])
    {
      var flags := txPacket[FLAGS_INDEX];
      if v {
        OrSetsOnlyBit(flags, flag);
        txPacket[FLAGS_INDEX] := flags | (1 << flag);
      } else {
        AndNotClearsOnlyBit(flags, flag);
        txPacket[FLAGS_INDEX] := flags & !(1 << flag);
      }
    }

    /** SetCritical: sets or clears bit 7 of txPacket's flags, nothing else. */
    method SetCritical(v: bool)
      requires Valid()
      modifies txPacket
      ensures Valid()
      ensures Bit(txPacket[FLAGS_INDEX], CRITICAL_BIT) == v
      ensures forall j :: 0 <= j < CRITICAL_BIT ==>
        Bit(txPacket[FLAGS_INDEX], j) == Bit(old(txPacket[FLAGS_INDEX]), j)
      ensures forall i :: 0 <= i < FRAME_SIZE && i != FLAGS_INDEX ==> txPacket[i] == old(txPacket[i])
    {
      if v {
        txPacket[FLAGS_INDEX] := txPacket[FLAGS_INDEX] | 0x80;
      } else {
        txPacket[FLAGS_INDEX] := txPacket[FLAGS_INDEX] & 0x7F;
      }
    }

    /** ResetState: back to idle, clearing the magic byte of rxPacket. */
    method ResetState()
      requires rxPacket.Length == FRAME_SIZE
      modifies this`reading, this`bytesRead, this`receivedAt, rxPacket
      ensures Rx() == Reset(old(Rx()))
    {
      rxPacket[0] := 0;
      reading := false;
      receivedAt := 0;
      bytesRead := 0;
    }

    /** ComputeChecksum: Fletcher-16 over bytes 0..10; sum1 and sum2 never leave [0, 254]. */
    static method ComputeChecksum(packet: array<bv8>) returns (c: nat)
      requires packet.Length == FRAME_SIZE
      ensures c == Fletcher16(packet[..CHECKSUM_OFFSET])
    {
      var sum1: nat, sum2: nat := 0, 0;
      for i := 0 to CHECKSUM_OFFSET
        invariant sum1 == Sum1(packet[..i]) && sum2 == Sum2(packet[..i])
        invariant sum1 < 255 && sum2 < 255
      {
        assert packet[..i + 1][..i] == packet[..i];
        sum1 := (sum1 + packet[i] as int) % 255;
        sum2 := (sum2 + sum1) % 255;
      }
      // (sum2 << 8) | sum1, with sum1 < 256
      c := sum2 * 256 + sum1;
    }

    /**
     * MoveHeadToNextMagic: search rxPacket[1..bytesRead) for the magic byte and
     * shift from there to the front; with none found, reset.
     */
    method MoveHeadToNextMagic()
      requires rxPacket.Length == FRAME_SIZE && 1 <= bytesRead <= FRAME_SIZE
      modifies this`reading, this`bytesRead, this`receivedAt, rxPacket
      ensures Rx() == Resync(old(Rx()))
    {
      var i := 1;
      while i < bytesRead
        invariant 1 <= i <= bytesRead
        invariant Rx() == old(Rx())
        invariant forall j :: 1 <= j < i ==> rxPacket[j] != MAGIC
      {
        if rxPacket[i] == MAGIC {
          FirstMagicAt(rxPacket[..], 1, bytesRead, i);
          ShiftHead(i);
          return;
        }
        i := i + 1;
      }
      ResetState();
    }

    /**
     * TryReadPacket: read what completes the frame, check the magic byte early,
     * then checksum and type, and call the handler of a good frame.
     */
    method TryReadPacket(now: nat)
      requires Valid() && now < CLOCK_MODULUS
      modifies this`reading, this`bytesRead, this`receivedAt, this`dispatched, rxPacket, transport
      ensures Valid()
      ensures var st := TryReadStep(old(Rx()), old(transport.buffer), now, handlers);
        Rx() == st.state && transport.buffer == st.rest && dispatched == old(dispatched) + Events(st.event)
    {
      BeginRead(now);
      ReceiveChunk();
    }

    /** The first byte of a new frame starts the clock. */
    method BeginRead(now: nat)
      modifies this`reading, this`bytesRead, this`receivedAt
      ensures Rx() == Begin(old(Rx()), now)
    {
      if !reading {
        bytesRead := 0;
        reading := true;
        receivedAt := now;
      }
    }

    /** memmove(rxPacket, rxPacket + i, bytesRead - i); bytesRead -= i. */
    method ShiftHead(i: nat)
      requires rxPacket.Length == FRAME_SIZE && 0 < i <= bytesRead <= FRAME_SIZE
      modifies this`bytesRead, rxPacket
      ensures rxPacket[..] == Shift(old(rxPacket[..]), i, old(bytesRead))
      ensures bytesRead == old(bytesRead) - i
    {
      var n := bytesRead;
      forall k | 0 <= k < n - i {
        rxPacket[k] := rxPacket[k + i];
      }
      bytesRead := n - i;
      assert rxPacket[..] == Shift(old(rxPacket[..]), i, n);
    }

    /**
     * The rest of TryReadPacket: the read, then (when it returned bytes) the
     * checks on what rxPacket now holds.
     */
    method ReceiveChunk()
      requires Valid() && reading
      modifies this`reading, this`bytesRead, this`receivedAt, this`dispatched, rxPacket, transport
      ensures var st := ReadAndCheck(old(Rx()), old(transport.buffer), handlers);
        Rx() == st.state && transport.buffer == st.rest && dispatched == old(dispatched) + Events(st.event)
    {
      ghost var begun, input := Rx(), transport.buffer;
      var recv := ReadIntoRx();
      if recv <= 0 {
        AccumulateNothing(begun, input);
        return;
      }
      bytesRead := bytesRead + recv;
      ghost var a := Accumulate(begun, input);
      assert Rx() == a;
      CheckFrame(a);
    }

    /** transport.read(rxPacket + bytesRead, FRAME_SIZE - bytesRead): the bytes that complete the frame. */
    method ReadIntoRx() returns (recv: int)
      requires rxPacket.Length == FRAME_SIZE && bytesRead <= FRAME_SIZE
      modifies rxPacket, transport
      ensures recv == Chunk(old(Rx()), old(transport.buffer))
      ensures transport.buffer == old(transport.buffer)[recv..]
      ensures rxPacket[..] == Accumulate(old(Rx()), old(transport.buffer)).rx
    {
      recv := transport.Read(rxPacket, bytesRead, FRAME_SIZE - bytesRead);
    }

    /**
     * The checks after a read (the second half of TryReadPacket): early magic
     * check, completeness, checksum, type range, then the handler call.
     */
    method CheckFrame(ghost a: RxState)
      requires rxPacket.Length == FRAME_SIZE && |handlers| == TYPE_COUNT
      requires Rx() == a && 1 <= a.bytesRead <= FRAME_SIZE && a.reading && a.receivedAt < CLOCK_MODULUS
      modifies this`reading, this`bytesRead, this`receivedAt, this`dispatched, rxPacket
      ensures Rx() == Judge(a, handlers).0
      ensures dispatched == old(dispatched) + Events(Judge(a, handlers).1)
    {
      if bytesRead >= 1 {
        if rxPacket[0] != MAGIC {
          MoveHeadToNextMagic();
          return;
        }
      }
      if bytesRead != FRAME_SIZE {
        return;
      }
      var computed := ComputeChecksum(rxPacket);
      var stored := rxPacket[CHECKSUM_OFFSET] as int + 256 * rxPacket[CHECKSUM_OFFSET + 1] as int;
      assert stored == StoredChecksum(a.rx) && computed == ComputedChecksum(a.rx);
      if stored != computed {
        MoveHeadToNextMagic();
        return;
      }
      var t := rxPacket[TYPE_INDEX];
      if (t as int) < TYPE_COUNT {
        if handlers[t].Fn? {
          dispatched := dispatched + [Dispatch(handlers[t].id, rxPacket[..])];
        }
      } else {
        MoveHeadToNextMagic();
      }
      ResetState();
    }
  }
}
