/**
 * Recovery from the corruptions the test program injects into its stream of
 * DataPacket frames: a last byte overwritten with 0xFF, and a frame of which
 * only the first half was sent. In both cases the damaged bytes are dropped
 * and the next good frame is still delivered.
 *
 * The lemmas hold for every good frame with the byte pattern of the test's
 * frame (TestShaped); TEST_FRAME, the frame the test sends, is one.
 */
module Recovery {
  import opened Checksum
  import opened Wire
  import opened Framing
  import opened Delivery
  import opened Bytes

  /** The payload the test program sends. */
  const TEST_PAYLOAD: seq<bv8> := [0xCC, 0xCC, 0xCC, 0xFF, 0xFF, 0xFF, 0xAA, 0xAA]

  /** Magic, type DataPacket (1), no flags, then TEST_PAYLOAD: the bytes the checksum covers. */
  const TEST_HEADER: seq<bv8> := [0xAA, 0x01, 0x00, 0xCC, 0xCC, 0xCC, 0xFF, 0xFF, 0xFF, 0xAA, 0xAA]

  /** The frame the test sends, checksum included (sum1 = 0x67, sum2 = 0x2C). */
  const TEST_FRAME: seq<bv8> := TEST_HEADER + [0x67, 0x2C]

  /**
   * The bytes of the test frame that decide how the receiver resynchronises
   * on it: magic bytes at 0, 9 and 10 and nowhere else before 11, and 0xFF at
   * 6, 7 and 8.
   */
  predicate TestShaped(f: seq<bv8>)
  {
    && |f| == FRAME_SIZE && f[0] == MAGIC
    && (forall j :: 1 <= j < 9 ==> f[j] != MAGIC)
    && f[6] == 0xFF && f[7] == 0xFF && f[8] == 0xFF
    && f[9] == MAGIC && f[10] == MAGIC && f[11] != MAGIC
  }

  /** The test's corruption: the last byte of the frame set to 0xFF. */
  function Corrupted(f: seq<bv8>): (c: seq<bv8>)
    requires |f| == FRAME_SIZE
    ensures |c| == FRAME_SIZE && c[..FRAME_SIZE - 1] == f[..FRAME_SIZE - 1] && c[FRAME_SIZE - 1] == 0xFF
  {
    f[FRAME_SIZE - 1 := 0xFF]
  }

  /** The checksum of the test header, accumulator by accumulator as the loop computes it. */
  lemma TestChecksum()
    ensures Fletcher16(TEST_HEADER) == 0x2C67
  {
    assert LoopSum1(TEST_HEADER, 1) == 170 && LoopSum2(TEST_HEADER, 1) == 170;
    assert LoopSum1(TEST_HEADER, 2) == 171 && LoopSum2(TEST_HEADER, 2) == 86;
    assert LoopSum1(TEST_HEADER, 3) == 171 && LoopSum2(TEST_HEADER, 3) == 2;
    assert LoopSum1(TEST_HEADER, 4) == 120 && LoopSum2(TEST_HEADER, 4) == 122;
    assert LoopSum1(TEST_HEADER, 5) == 69 && LoopSum2(TEST_HEADER, 5) == 191;
    assert LoopSum1(TEST_HEADER, 6) == 18 && LoopSum2(TEST_HEADER, 6) == 209;
    assert LoopSum1(TEST_HEADER, 7) == 18 && LoopSum2(TEST_HEADER, 7) == 227;
    assert LoopSum1(TEST_HEADER, 8) == 18 && LoopSum2(TEST_HEADER, 8) == 245;
    assert LoopSum1(TEST_HEADER, 9) == 18 && LoopSum2(TEST_HEADER, 9) == 8;
    assert LoopSum1(TEST_HEADER, 10) == 188 && LoopSum2(TEST_HEADER, 10) == 196;
    assert LoopSum1(TEST_HEADER, 11) == 103 && LoopSum2(TEST_HEADER, 11) == 44;
    LoopSumsArePrefixSums(TEST_HEADER, |TEST_HEADER|);
    assert TEST_HEADER[..|TEST_HEADER|] == TEST_HEADER;
  }

  /** TEST_FRAME is what Send puts on the wire for a DataPacket with TEST_PAYLOAD and no flags. */
  lemma TestFrameIsSent()
    ensures Frame(1, 0, TEST_PAYLOAD) == TEST_FRAME
    ensures GoodFrame(TEST_FRAME) && TestShaped(TEST_FRAME)
  {
    TestChecksum();
    FrameLayout(1, 0, TEST_PAYLOAD);
    assert [MAGIC, 1 as bv8, 0 as bv8] + TEST_PAYLOAD == TEST_HEADER;
    assert ByteOf(0x2C67 % 256) == 0x67 && ByteOf(0x2C67 / 256) == 0x2C;
  }

  /** A frame with a 0xFF byte in its checksum field never passes the checksum test. */
  lemma FFChecksumFails(f: seq<bv8>)
    requires |f| == FRAME_SIZE && (f[CHECKSUM_OFFSET] == 0xFF || f[CHECKSUM_OFFSET + 1] == 0xFF)
    ensures !ChecksumOk(f)
  {
    var c := Fletcher16(f[..CHECKSUM_OFFSET]);
    assert c % 256 != 0xFF && c / 256 != 0xFF;
  }

  /**
   * A complete frame with a 0xFF checksum byte is rejected, and the shift to
   * the next magic byte, at i, keeps the bytes from i on.
   */
  lemma JudgeFFChecksum(a: RxState, i: nat, handlers: seq<Handler>)
    requires |a.rx| == FRAME_SIZE && a.bytesRead == FRAME_SIZE && a.reading && a.receivedAt < CLOCK_MODULUS
    requires |handlers| == TYPE_COUNT && a.rx[0] == MAGIC
    requires a.rx[CHECKSUM_OFFSET] == 0xFF || a.rx[CHECKSUM_OFFSET + 1] == 0xFF
    requires 1 <= i < FRAME_SIZE && a.rx[i] == MAGIC && forall j :: 1 <= j < i ==> a.rx[j] != MAGIC
    ensures Judge(a, handlers).1.None? && Judge(a, handlers).0.reading
    ensures Judge(a, handlers).0.bytesRead == FRAME_SIZE - i
    ensures Judge(a, handlers).0.rx[..FRAME_SIZE - i] == a.rx[i..]
  {
    FFChecksumFails(a.rx);
    FirstMagicAt(a.rx, 1, FRAME_SIZE, i);
  }

  /** What the shift to offset 9 keeps of a corrupted frame: bytes 9 to 11, then 0xFF. */
  function Stale(f: seq<bv8>): (r: seq<bv8>)
    requires |f| == FRAME_SIZE
    ensures |r| == 4 && r == Corrupted(f)[9..]
  {
    f[9..12] + [0xFF]
  }

  /** The bytes of a corrupted test-shaped frame that its rejection depends on. */
  lemma CorruptedLayout(f: seq<bv8>)
    requires TestShaped(f)
    ensures var c := Corrupted(f);
      && c[..FRAME_SIZE] == c && c[0] == MAGIC && c[CHECKSUM_OFFSET + 1] == 0xFF && c[9] == MAGIC
      && (forall j :: 1 <= j < 9 ==> c[j] != MAGIC)
  {
  }

  /**
   * An idle receiver reading a corrupted frame: the checksum fails, and the
   * shift to the magic byte at offset 9 keeps its last four bytes.
   */
  lemma CorruptedStep(s: RxState, f: seq<bv8>, now: nat, handlers: seq<Handler>)
    requires Inv(s) && Idle(s) && now < CLOCK_MODULUS && |handlers| == TYPE_COUNT && TestShaped(f)
    ensures var st := TryReadStep(s, Corrupted(f), now, handlers);
      && st.rest == [] && st.event.None? && st.state.reading
      && st.state.bytesRead == 4 && st.state.rx[..4] == Stale(f)
  {
    var c := Corrupted(f);
    FirstRead(s, c, now);
    CorruptedLayout(f);
    JudgeFFChecksum(Accumulate(Begin(s, now), c), 9, handlers);
  }

  /** The stale bytes plus the first 9 of the next frame: a 0xFF checksum byte, shift by one. */
  lemma StaleStep1(h: RxState, f: seq<bv8>, now: nat, handlers: seq<Handler>)
    requires Inv(h) && h.reading && TestShaped(f) && h.bytesRead == 4 && h.rx[..4] == Stale(f)
    requires now < CLOCK_MODULUS && |handlers| == TYPE_COUNT
    ensures var st := TryReadStep(h, f, now, handlers);
      && st.rest == f[9..] && st.event.None? && st.state.reading
      && st.state.bytesRead == 12 && st.state.rx[..12] == Stale(f)[1..] + f[..9]
  {
    assert Chunk(h, f) == 9;
    var a := Accumulate(h, f);
    assert a.rx == Stale(f) + f[..9];
    JudgeFFChecksum(a, 1, handlers);
  }

  /** One more byte: again a 0xFF checksum byte, and the shift lands on the frame's own magic byte. */
  lemma StaleStep2(h: RxState, f: seq<bv8>, now: nat, handlers: seq<Handler>)
    requires Inv(h) && h.reading && TestShaped(f) && h.bytesRead == 12 && h.rx[..12] == Stale(f)[1..] + f[..9]
    requires now < CLOCK_MODULUS && |handlers| == TYPE_COUNT
    ensures var st := TryReadStep(h, f[9..], now, handlers);
      && st.rest == f[10..] && st.event.None? && st.state.reading
      && st.state.bytesRead == 10 && st.state.rx[..10] == f[..10]
  {
    assert Chunk(h, f[9..]) == 1;
    var a := Accumulate(h, f[9..]);
    assert a.rx == Stale(f)[1..] + f[..10];
    JudgeFFChecksum(a, 3, handlers);
  }

  /**
   * The stale bytes do not block the next frame: the Update that reads it
   * delivers it and leaves the receiver idle.
   */
  lemma StaleThenFrame(h: RxState, f: seq<bv8>, now: nat, handlers: seq<Handler>)
    requires Inv(h) && h.reading && GoodFrame(f) && TestShaped(f) && h.bytesRead == 4 && h.rx[..4] == Stale(f)
    requires now < CLOCK_MODULUS && |handlers| == TYPE_COUNT
    ensures var r := UpdateStep(h, f, now, handlers);
      Idle(r.state) && r.events == Delivered(f, handlers)
  {
    StaleStep1(h, f, now, handlers);
    var st1 := TryReadStep(h, f, now, handlers);
    DrainSilentStep(h, f, now, handlers);
    StaleStep2(st1.state, f, now, handlers);
    var st2 := TryReadStep(st1.state, st1.rest, now, handlers);
    DrainSilentStep(st1.state, st1.rest, now, handlers);
    DrainCompletes(st2.state, f, now, handlers);
  }

  /**
   * The third test's pair of sends: the corrupted frame reaches no handler and
   * leaves its stale tail behind; the good frame after it is delivered, and the
   * receiver is idle again.
   */
  lemma CorruptedThenGood(s: RxState, f: seq<bv8>, now: nat, later: nat, handlers: seq<Handler>)
    requires Inv(s) && Idle(s) && GoodFrame(f) && TestShaped(f)
    requires now < CLOCK_MODULUS && later < CLOCK_MODULUS && |handlers| == TYPE_COUNT
    ensures var u := UpdateStep(s, Corrupted(f), now, handlers);
      && u.events == [] && u.state.reading && u.state.bytesRead == 4 && u.state.rx[..4] == Stale(f)
      && var v := UpdateStep(u.state, f, later, handlers);
         Idle(v.state) && v.events == Delivered(f, handlers)
  {
    var c := Corrupted(f);
    CorruptedStep(s, f, now, handlers);
    var st := TryReadStep(s, c, now, handlers);
    DrainSilentStep(s, c, now, handlers);
    assert Drain(st.state, [], now, handlers) == Run(st.state, []);
    StaleThenFrame(st.state, f, later, handlers);
  }

  /** The first 13 bytes after a half frame: the half, then the first 7 bytes of the whole frame. */
  lemma HalfLayout(f: seq<bv8>)
    requires TestShaped(f)
    ensures var rx := (f[..6] + f)[..FRAME_SIZE];
      && rx[0] == MAGIC && rx[CHECKSUM_OFFSET + 1] == 0xFF && rx[6] == MAGIC
      && (forall j :: 1 <= j < 6 ==> rx[j] != MAGIC)
      && rx[6..] == f[..7]
    ensures (f[..6] + f)[FRAME_SIZE..] == f[7..]
  {
    var rx := (f[..6] + f)[..FRAME_SIZE];
    assert rx == f[..6] + f[..7];
  }

  /** The half frame and the first 7 bytes of the whole one: a 0xFF checksum byte, shift to the whole frame. */
  lemma HalfStep(s: RxState, f: seq<bv8>, now: nat, handlers: seq<Handler>)
    requires Inv(s) && Idle(s) && TestShaped(f) && now < CLOCK_MODULUS && |handlers| == TYPE_COUNT
    ensures var st := TryReadStep(s, f[..6] + f, now, handlers);
      && st.rest == f[7..] && st.event.None?
      && st.state.bytesRead == 7 && st.state.rx[..7] == f[..7]
  {
    var input := f[..6] + f;
    FirstRead(s, input, now);
    var a := Accumulate(Begin(s, now), input);
    HalfLayout(f);
    JudgeFFChecksum(a, 6, handlers);
  }

  /**
   * The fourth test's start: the first half (6 bytes) of a frame, then a whole
   * one. The half frame is dropped and the whole frame delivered.
   */
  lemma HalfThenFrame(s: RxState, f: seq<bv8>, now: nat, handlers: seq<Handler>)
    requires Inv(s) && Idle(s) && GoodFrame(f) && TestShaped(f) && now < CLOCK_MODULUS && |handlers| == TYPE_COUNT
    ensures var r := UpdateStep(s, f[..6] + f, now, handlers);
      Idle(r.state) && r.events == Delivered(f, handlers)
  {
    var input := f[..6] + f;
    HalfStep(s, f, now, handlers);
    var st := TryReadStep(s, input, now, handlers);
    DrainSilentStep(s, input, now, handlers);
    DrainCompletes(st.state, f, now, handlers);
  }
}
