/**
 * The receive framing state machine of PacketManager as pure functions over
 * its state (reading, bytesRead, receivedAt and the 13-byte rxPacket buffer).
 * The PacketManager class proves its methods equal to these functions.
 *
 * millis() is the parameter `now`, a 32-bit unsigned long; the elapsed time is
 * the unsigned difference `now - receivedAt`, wrapping modulo 2^32.
 */
module Framing {
  import opened Checksum
  import opened Wire

  const READ_TIMEOUT: nat := 100
  const CLOCK_MODULUS: nat := 0x1_0000_0000

  /** An entry of the handler table: no handler (nullptr), or handler `id`. */
  datatype Handler = Unset | Fn(id: nat)

  /** One handler invocation: which handler ran, on which 13 frame bytes. */
  datatype Dispatch = Dispatch(handler: nat, frame: seq<bv8>)

  datatype RxState = RxState(reading: bool, bytesRead: nat, receivedAt: nat, rx: seq<bv8>)

  /** What one TryReadPacket call leaves: new state, unread input, handler call if any. */
  datatype Step = Step(state: RxState, rest: seq<bv8>, event: Option<Dispatch>)

  /** What a run of calls leaves: final state and the handler calls in order. */
  datatype Run = Run(state: RxState, events: seq<Dispatch>)

  /**
   * The state between calls: fewer than 13 bytes held, an idle receiver holds
   * none, and a partial frame always starts with the magic byte.
   */
  predicate Inv(s: RxState)
  {
    && |s.rx| == FRAME_SIZE
    && s.bytesRead < FRAME_SIZE
    && s.receivedAt < CLOCK_MODULUS
    && (!s.reading ==> s.bytesRead == 0)
    && (s.reading && s.bytesRead >= 1 ==> s.rx[0] == MAGIC)
  }

  predicate Idle(s: RxState)
  {
    !s.reading && s.bytesRead == 0
  }

  function Events(e: Option<Dispatch>): seq<Dispatch>
  {
    if e.Some? then [e.value] else []
  }

  /** `millis() - receivedAt` in unsigned long arithmetic. */
  function Elapsed(now: nat, since: nat): (d: nat)
    requires now < CLOCK_MODULUS && since < CLOCK_MODULUS
    ensures d < CLOCK_MODULUS
    ensures since <= now ==> d == now - since
    ensures now < since ==> d == CLOCK_MODULUS - (since - now)
  {
    (now - since) % CLOCK_MODULUS
  }

  /** ResetState: idle, nothing held, and the magic byte of rxPacket cleared. */
  function Reset(s: RxState): (r: RxState)
    requires |s.rx| == FRAME_SIZE
    ensures Inv(r) && Idle(r) && r.receivedAt == 0
    ensures |r.rx| == FRAME_SIZE && r.rx[0] == 0 && r.rx[1..] == s.rx[1..]
  {
    RxState(false, 0, 0, s.rx[0 := 0])
  }

  /** The smallest i in [from, n) with rx[i] == MAGIC, if there is one. */
  function FirstMagic(rx: seq<bv8>, from: nat, n: nat): (r: Option<nat>)
    requires from <= n <= |rx|
    ensures r.Some? ==> from <= r.value < n && rx[r.value] == MAGIC
    ensures r.Some? ==> forall j :: from <= j < r.value ==> rx[j] != MAGIC
    ensures r.None? <==> forall j :: from <= j < n ==> rx[j] != MAGIC
    decreases n - from
  {
    if from == n then None
    else if rx[from] == MAGIC then Some(from)
    else FirstMagic(rx, from + 1, n)
  }

  /** The first magic byte at or after `from` is the one with none before it. */
  lemma FirstMagicAt(rx: seq<bv8>, from: nat, n: nat, i: nat)
    requires from <= i < n <= |rx| && rx[i] == MAGIC
    requires forall j :: from <= j < i ==> rx[j] != MAGIC
    ensures FirstMagic(rx, from, n) == Some(i)
  {
  }

  /** memmove(rx, rx + i, n - i): the bytes rx[i..n) moved to the front, the rest kept. */
  function Shift(rx: seq<bv8>, i: nat, n: nat): (r: seq<bv8>)
    requires 0 < i <= n <= |rx|
    ensures |r| == |rx|
    ensures r[..n - i] == rx[i..n]
    ensures r[n - i..] == rx[n - i..]
  {
    rx[i..n] + rx[n - i..]
  }

  /**
   * MoveHeadToNextMagic: drop the bytes before the next magic byte after
   * position 0, keeping reading and receivedAt; with no such byte, reset.
   */
  function Resync(s: RxState): (r: RxState)
    requires |s.rx| == FRAME_SIZE && 1 <= s.bytesRead <= FRAME_SIZE
    ensures |r.rx| == FRAME_SIZE && r.bytesRead < s.bytesRead
    ensures r.bytesRead > 0 ==> r.rx[0] == MAGIC && r.reading == s.reading && r.receivedAt == s.receivedAt
    ensures r.bytesRead > 0 ==> r.rx[..r.bytesRead] == s.rx[s.bytesRead - r.bytesRead..s.bytesRead]
    ensures r.bytesRead == 0 ==> Idle(r)
    ensures r.bytesRead > 0 <==> exists i :: 1 <= i < s.bytesRead && s.rx[i] == MAGIC
    ensures r.bytesRead > 0 ==> forall j :: 1 <= j < s.bytesRead - r.bytesRead ==> s.rx[j] != MAGIC
    ensures r.bytesRead == 0 ==> r == Reset(s)
  {
    match FirstMagic(s.rx, 1, s.bytesRead)
    case Some(i) => s.(bytesRead := s.bytesRead - i, rx := Shift(s.rx, i, s.bytesRead))
    case None => Reset(s)
  }

  /** The prologue of TryReadPacket: the first byte of a new frame starts the clock. */
  function Begin(s: RxState, now: nat): (r: RxState)
    ensures r.reading && r.rx == s.rx
    ensures s.reading ==> r == s
    ensures !s.reading ==> r.bytesRead == 0 && r.receivedAt == now
    ensures Inv(s) && now < CLOCK_MODULUS ==> Inv(r)
  {
    if s.reading then s else s.(bytesRead := 0, reading := true, receivedAt := now)
  }

  /** How many bytes transport.read hands over: what is asked for, capped by what is there. */
  function Chunk(s: RxState, input: seq<bv8>): (k: nat)
    requires s.bytesRead <= FRAME_SIZE
    ensures k <= FRAME_SIZE - s.bytesRead && k <= |input|
    ensures k == FRAME_SIZE - s.bytesRead || k == |input|
  {
    Min(FRAME_SIZE - s.bytesRead, |input|)
  }

  /** The read into rxPacket + bytesRead and the increment of bytesRead. */
  function Accumulate(s: RxState, input: seq<bv8>): (r: RxState)
    requires |s.rx| == FRAME_SIZE && s.bytesRead <= FRAME_SIZE
    ensures |r.rx| == FRAME_SIZE && r.bytesRead == s.bytesRead + Chunk(s, input) <= FRAME_SIZE
    ensures r.rx[..s.bytesRead] == s.rx[..s.bytesRead]
    ensures r.rx[s.bytesRead..r.bytesRead] == input[..Chunk(s, input)]
    ensures r.reading == s.reading && r.receivedAt == s.receivedAt
  {
    var b, k := s.bytesRead, Chunk(s, input);
    s.(bytesRead := b + k, rx := s.rx[..b] + input[..k] + s.rx[b + k..])
  }

  /** A read that returns nothing leaves the state as it was. */
  lemma AccumulateNothing(s: RxState, input: seq<bv8>)
    requires |s.rx| == FRAME_SIZE && s.bytesRead <= FRAME_SIZE && Chunk(s, input) == 0
    ensures Accumulate(s, input) == s
  {
    assert s.rx[..s.bytesRead] + input[..0] + s.rx[s.bytesRead..] == s.rx;
  }

  /** A completed frame that passes every check: magic, checksum, type in range, handler set. */
  predicate Deliverable(frame: seq<bv8>, handlers: seq<Handler>)
    requires |frame| == FRAME_SIZE && |handlers| == TYPE_COUNT
  {
    && frame[0] == MAGIC
    && ChecksumOk(frame)
    && (frame[TYPE_INDEX] as int) < TYPE_COUNT
    && handlers[frame[TYPE_INDEX]].Fn?
  }

  /** Every handler call in a log was made on a completed, deliverable frame. */
  predicate AllDeliverable(events: seq<Dispatch>, handlers: seq<Handler>)
    requires |handlers| == TYPE_COUNT
  {
    forall i :: 0 <= i < |events| ==>
      |events[i].frame| == FRAME_SIZE && Deliverable(events[i].frame, handlers)
  }

  lemma AllDeliverableAppend(a: seq<Dispatch>, b: seq<Dispatch>, handlers: seq<Handler>)
    requires |handlers| == TYPE_COUNT && AllDeliverable(a, handlers) && AllDeliverable(b, handlers)
    ensures AllDeliverable(a + b, handlers) && |a + b| == |a| + |b|
  {
  }

  /** The checks TryReadPacket makes after a read that returned at least one byte. */
  function Judge(a: RxState, handlers: seq<Handler>): (r: (RxState, Option<Dispatch>))
    requires |a.rx| == FRAME_SIZE && 1 <= a.bytesRead <= FRAME_SIZE && |handlers| == TYPE_COUNT
    requires a.reading && a.receivedAt < CLOCK_MODULUS
    ensures Inv(r.0) && r.0.bytesRead <= a.bytesRead
    ensures r.1.Some? ==> Idle(r.0) && a.bytesRead == FRAME_SIZE && r.1.value.frame == a.rx
    ensures r.1.Some? ==> (Deliverable(a.rx, handlers)
                           && r.1.value.handler == handlers[a.rx[TYPE_INDEX]].id)
  {
    if a.bytesRead >= 1 && a.rx[0] != MAGIC then (Resync(a), None)
    else if a.bytesRead != FRAME_SIZE then (a, None)
    else if !ChecksumOk(a.rx) then (Resync(a), None)
    else if (a.rx[TYPE_INDEX] as int) < TYPE_COUNT then
      var h := handlers[a.rx[TYPE_INDEX]];
      (Reset(a), if h.Fn? then Some(Dispatch(h.id, a.rx)) else None)
    else (Reset(Resync(a)), None)
  }

  /**
   * One TryReadPacket call against a transport holding `input`. It keeps the
   * invariant and, when input is available, consumes at least one byte; a
   * handler runs exactly for a completed, deliverable frame.
   */
  function TryReadStep(s: RxState, input: seq<bv8>, now: nat, handlers: seq<Handler>): (r: Step)
    requires Inv(s) && now < CLOCK_MODULUS && |handlers| == TYPE_COUNT
    ensures Inv(r.state)
    ensures |r.rest| <= |input| && r.rest == input[|input| - |r.rest|..]
    ensures input != [] ==> |r.rest| < |input|
    ensures FRAME_SIZE * |Events(r.event)| + r.state.bytesRead <= s.bytesRead + (|input| - |r.rest|)
    ensures r.event.Some? ==> (Idle(r.state) && |r.event.value.frame| == FRAME_SIZE
                               && Deliverable(r.event.value.frame, handlers)
                               && r.event.value.handler == handlers[r.event.value.frame[TYPE_INDEX]].id)
  {
    ReadAndCheck(Begin(s, now), input, handlers)
  }

  /**
   * TryReadPacket after its prologue: read what completes the frame, then
   * judge the bytes held, or stop when the read returned nothing.
   */
  function ReadAndCheck(b: RxState, input: seq<bv8>, handlers: seq<Handler>): (r: Step)
    requires Inv(b) && b.reading && |handlers| == TYPE_COUNT
    ensures Inv(r.state) && r.rest == input[Chunk(b, input)..]
    ensures Chunk(b, input) == 0 ==> r.state == b && r.event.None?
    ensures r.event.Some? ==> (Idle(r.state) && b.bytesRead + Chunk(b, input) == FRAME_SIZE
                               && |r.event.value.frame| == FRAME_SIZE
                               && Deliverable(r.event.value.frame, handlers))
  {
    var k := Chunk(b, input);
    if k == 0 then Step(b, input, None)
    else
      var (st, ev) := Judge(Accumulate(b, input), handlers);
      Step(st, input[k..], ev)
  }

  /** Update's loop: TryReadPacket while the transport has bytes. */
  function Drain(s: RxState, input: seq<bv8>, now: nat, handlers: seq<Handler>): (r: Run)
    requires Inv(s) && now < CLOCK_MODULUS && |handlers| == TYPE_COUNT
    ensures Inv(r.state)
    ensures AllDeliverable(r.events, handlers)
    ensures FRAME_SIZE * |r.events| + r.state.bytesRead <= s.bytesRead + |input|
    decreases |input|
  {
    if input == [] then Run(s, [])
    else
      var st := TryReadStep(s, input, now, handlers);
      var tail := Drain(st.state, st.rest, now, handlers);
      AllDeliverableAppend(Events(st.event), tail.events, handlers);
      Run(tail.state, Events(st.event) + tail.events)
  }

  /**
   * Drain with the handler log threaded through: the calls already made,
   * followed by those this run makes. It is how Update's loop sees Drain.
   */
  function DrainInto(s: RxState, input: seq<bv8>, now: nat, handlers: seq<Handler>, log: seq<Dispatch>): (r: Run)
    requires Inv(s) && now < CLOCK_MODULUS && |handlers| == TYPE_COUNT
    decreases |input|
  {
    if input == [] then Run(s, log)
    else
      var st := TryReadStep(s, input, now, handlers);
      DrainInto(st.state, st.rest, now, handlers, log + Events(st.event))
  }

  lemma AppendAssoc<T>(a: seq<T>, b: seq<T>, c: seq<T>)
    ensures (a + b) + c == a + (b + c)
  {
  }

  /** Threading the log changes nothing but prepending it to the handler calls. */
  lemma {:induction false} DrainIntoIsDrain(s: RxState, input: seq<bv8>, now: nat, handlers: seq<Handler>, log: seq<Dispatch>)
    requires Inv(s) && now < CLOCK_MODULUS && |handlers| == TYPE_COUNT
    ensures var d := Drain(s, input, now, handlers);
      DrainInto(s, input, now, handlers, log) == Run(d.state, log + d.events)
    decreases |input|
  {
    if input != [] {
      var st := TryReadStep(s, input, now, handlers);
      var tail := Drain(st.state, st.rest, now, handlers);
      var log' := log + Events(st.event);
      assert Drain(s, input, now, handlers) == Run(tail.state, Events(st.event) + tail.events);
      assert DrainInto(s, input, now, handlers, log) == DrainInto(st.state, st.rest, now, handlers, log');
      DrainIntoIsDrain(st.state, st.rest, now, handlers, log');
      AppendAssoc(log, Events(st.event), tail.events);
    }
  }

  /** Update: with nothing available only the timeout can act; otherwise drain. */
  function UpdateStep(s: RxState, input: seq<bv8>, now: nat, handlers: seq<Handler>): (r: Run)
    requires Inv(s) && now < CLOCK_MODULUS && |handlers| == TYPE_COUNT
    ensures Inv(r.state)
    ensures AllDeliverable(r.events, handlers)
    ensures FRAME_SIZE * |r.events| <= s.bytesRead + |input|
    ensures input == [] ==> r.events == [] && (!s.reading ==> r.state == s)
  {
    if input == [] then
      Run(if s.reading && Elapsed(now, s.receivedAt) > READ_TIMEOUT then Reset(s) else s, [])
    else Drain(s, input, now, handlers)
  }
}
