/**
 * The packed 13-byte frame of pckt::Packet, written out as an explicit byte
 * sequence instead of a reinterpreted struct:
 *
 *   byte 0       magic (0xAA)
 *   byte 1       type
 *   byte 2       flags: bit 7 critical, bits 0..3 user flags
 *   bytes 3..10  payload (MAX_PAYLOAD_SIZE = 8)
 *   bytes 11..12 checksum, a uint16_t in host order; the model fixes
 *                little-endian, so byte 11 is sum1 and byte 12 is sum2.
 */
module Wire {
  import opened Checksum
  import opened Bytes

  const MAGIC: bv8 := 0xAA
  const PAYLOAD_SIZE: nat := 8
  const TYPE_COUNT: nat := 3
  const TYPE_INDEX: nat := 1
  const FLAGS_INDEX: nat := 2
  const PAYLOAD_OFFSET: nat := 3
  const CHECKSUM_OFFSET: nat := 11
  const FRAME_SIZE: nat := 13
  const CRITICAL_BIT: nat := 7

  datatype Option<T> = None | Some(value: T)

  /** The fields of a Packet; `checksum` is the uint16_t value. */
  datatype Packet = Packet(magic: bv8, ptype: bv8, flags: bv8, payload: seq<bv8>, checksum: nat)
  {
    predicate WellFormed()
    {
      |payload| == PAYLOAD_SIZE && checksum < 0x1_0000
    }
  }

  function Min(a: nat, b: nat): nat
  {
    if a < b then a else b
  }

  /** `(uint8_t)type`: the enum value reduced modulo 256. */
  function TypeByte(ptype: int): (b: bv8)
    ensures b as int == ptype % 256
    ensures 0 <= ptype < 256 ==> b as int == ptype
  {
    if 0 <= ptype < 256 then ByteOf(ptype) else ByteOf(ptype % 256)
  }

  /** The uint16_t stored in bytes 11..12, little-endian. */
  function StoredChecksum(frame: seq<bv8>): (c: nat)
    requires |frame| == FRAME_SIZE
    ensures c < 0x1_0000
    ensures c % 256 == frame[CHECKSUM_OFFSET] as int && c / 256 == frame[CHECKSUM_OFFSET + 1] as int
  {
    frame[CHECKSUM_OFFSET] as int + 256 * frame[CHECKSUM_OFFSET + 1] as int
  }

  /** The checksum computed over bytes 0..10, everything before the checksum field. */
  function ComputedChecksum(frame: seq<bv8>): nat
    requires |frame| == FRAME_SIZE
  {
    Fletcher16(frame[..CHECKSUM_OFFSET])
  }

  /** The receive check `rxPacket.checksum == ComputeChecksum(rxPacket)`. */
  predicate ChecksumOk(frame: seq<bv8>)
    requires |frame| == FRAME_SIZE
  {
    StoredChecksum(frame) == ComputedChecksum(frame)
  }

  /** Comparing the uint16_t values is comparing byte 11 with sum1 and byte 12 with sum2. */
  lemma ChecksumOkBytes(frame: seq<bv8>)
    requires |frame| == FRAME_SIZE
    ensures ChecksumOk(frame) <==> (frame[CHECKSUM_OFFSET] as int == Sum1(frame[..CHECKSUM_OFFSET])
                                    && frame[CHECKSUM_OFFSET + 1] as int == Sum2(frame[..CHECKSUM_OFFSET]))
  {
    var c := Fletcher16(frame[..CHECKSUM_OFFSET]);
    assert c % 256 == Sum1(frame[..CHECKSUM_OFFSET]) && c / 256 == Sum2(frame[..CHECKSUM_OFFSET]);
  }

  /**
   * One byte among 0..10 of a frame that passes the check, changed by an
   * amount that is not a multiple of 255: the frame no longer passes.
   */
  lemma HeaderChangeDetected(a: seq<bv8>, b: seq<bv8>, i: nat)
    requires |a| == FRAME_SIZE && |b| == FRAME_SIZE && i < CHECKSUM_OFFSET
    requires forall j :: 0 <= j < FRAME_SIZE && j != i ==> a[j] == b[j]
    requires a[i] as int % 255 != b[i] as int % 255
    requires ChecksumOk(a)
    ensures !ChecksumOk(b)
  {
    DetectsSingleByteChange(a[..CHECKSUM_OFFSET], b[..CHECKSUM_OFFSET], i);
    assert StoredChecksum(a) == StoredChecksum(b);
  }

  /** One byte among 0..10 swapped between 0x00 and 0xFF: the check cannot tell. */
  lemma HeaderZeroFFUndetected(a: seq<bv8>, b: seq<bv8>, i: nat)
    requires |a| == FRAME_SIZE && |b| == FRAME_SIZE && i < CHECKSUM_OFFSET
    requires forall j :: 0 <= j < FRAME_SIZE && j != i ==> a[j] == b[j]
    requires a[i] == 0x00 && b[i] == 0xFF
    ensures ChecksumOk(a) <==> ChecksumOk(b)
  {
    ZeroAndFFCollide(a[..CHECKSUM_OFFSET], b[..CHECKSUM_OFFSET], i);
    assert StoredChecksum(a) == StoredChecksum(b);
  }

  /** Any change to byte 11 or 12 of a frame that passes the check makes it fail. */
  lemma ChecksumFieldChangeDetected(a: seq<bv8>, b: seq<bv8>, i: nat)
    requires |a| == FRAME_SIZE && |b| == FRAME_SIZE && CHECKSUM_OFFSET <= i < FRAME_SIZE
    requires forall j :: 0 <= j < FRAME_SIZE && j != i ==> a[j] == b[j]
    requires a[i] != b[i]
    requires ChecksumOk(a)
    ensures !ChecksumOk(b)
  {
    assert a[..CHECKSUM_OFFSET] == b[..CHECKSUM_OFFSET];
    LittleEndianInjective(a[CHECKSUM_OFFSET], a[CHECKSUM_OFFSET + 1], b[CHECKSUM_OFFSET], b[CHECKSUM_OFFSET + 1]);
  }

  /** Two byte pairs with the same little-endian value are the same pair. */
  lemma LittleEndianInjective(lo1: bv8, hi1: bv8, lo2: bv8, hi2: bv8)
    ensures lo1 as int + 256 * hi1 as int == lo2 as int + 256 * hi2 as int ==> lo1 == lo2 && hi1 == hi2
  {
    if lo1 as int + 256 * hi1 as int == lo2 as int + 256 * hi2 as int {
      assert lo1 as int == lo2 as int;
    }
  }

  /** Serialises the packet fields in wire order. */
  function Encode(p: Packet): (b: seq<bv8>)
    requires p.WellFormed()
    ensures |b| == FRAME_SIZE
    ensures b[0] == p.magic && b[TYPE_INDEX] == p.ptype && b[FLAGS_INDEX] == p.flags
    ensures b[PAYLOAD_OFFSET..CHECKSUM_OFFSET] == p.payload
    ensures StoredChecksum(b) == p.checksum
  {
    [p.magic, p.ptype, p.flags] + p.payload
      + [ByteOf(p.checksum % 256), ByteOf(p.checksum / 256)]
  }

  /** Reads the packet fields back out of a 13-byte frame. */
  function Decode(b: seq<bv8>): (p: Packet)
    requires |b| == FRAME_SIZE
    ensures p.WellFormed()
    ensures Encode(p) == b
  {
    var p := Packet(b[0], b[TYPE_INDEX], b[FLAGS_INDEX], b[PAYLOAD_OFFSET..CHECKSUM_OFFSET], StoredChecksum(b));
    var e := Encode(p);
    assert e[CHECKSUM_OFFSET] == b[CHECKSUM_OFFSET];
    assert e[CHECKSUM_OFFSET + 1] == b[CHECKSUM_OFFSET + 1];
    assert e[..CHECKSUM_OFFSET] == b[..CHECKSUM_OFFSET];
    p
  }

  /** Encoding loses nothing: decoding an encoded packet gives it back. */
  lemma DecodeEncode(p: Packet)
    requires p.WellFormed()
    ensures Decode(Encode(p)) == p
  {
  }

  /**
   * The payload field Send fills in: the first min(len, 8) caller bytes, the
   * rest zero; all zero when the payload pointer is null (None).
   */
  function PayloadField(payload: Option<seq<bv8>>, len: nat): (r: seq<bv8>)
    requires payload.Some? ==> |payload.value| >= Min(len, PAYLOAD_SIZE)
    ensures |r| == PAYLOAD_SIZE
    ensures payload.None? ==> forall i :: 0 <= i < PAYLOAD_SIZE ==> r[i] == 0
    ensures payload.Some? ==> forall i :: 0 <= i < PAYLOAD_SIZE ==>
      r[i] == if i < Min(len, PAYLOAD_SIZE) then payload.value[i] else 0
  {
    var n := if payload.None? then 0 else Min(len, PAYLOAD_SIZE);
    var copied := if payload.None? then [] else payload.value[..n];
    copied + seq(PAYLOAD_SIZE - n, _ => 0)
  }

  /** The frame Send produces for a type, the current flags and a payload field. */
  function Frame(ptype: bv8, flags: bv8, payload: seq<bv8>): (b: seq<bv8>)
    requires |payload| == PAYLOAD_SIZE
    ensures |b| == FRAME_SIZE
    ensures b[0] == MAGIC && b[TYPE_INDEX] == ptype && b[FLAGS_INDEX] == flags
    ensures Decode(b).payload == payload
    ensures ChecksumOk(b)
  {
    var header := [MAGIC, ptype, flags] + payload;
    var b := Encode(Packet(MAGIC, ptype, flags, payload, Fletcher16(header)));
    assert b[..CHECKSUM_OFFSET] == header;
    b
  }

  /** Frame written out byte by byte: header, payload, then the checksum low byte first. */
  lemma FrameLayout(ptype: bv8, flags: bv8, payload: seq<bv8>)
    requires |payload| == PAYLOAD_SIZE
    ensures var c := Fletcher16([MAGIC, ptype, flags] + payload);
      Frame(ptype, flags, payload) == [MAGIC, ptype, flags] + payload + [ByteOf(c % 256), ByteOf(c / 256)]
  {
  }

  /** Bit k of a byte, as a reference reading independent of masks. */
  predicate Bit(b: bv8, k: nat)
    requires k < 8
  {
    (b >> k) & 1 == 1
  }

  /** `b |= mask` with a one-bit mask sets exactly bit k. */
  lemma OrSetsOnlyBit(b: bv8, k: nat)
    requires k < 8
    ensures Bit(b | (1 << k), k)
    ensures forall j :: 0 <= j < 8 && j != k ==> Bit(b | (1 << k), j) == Bit(b, j)
  {
  }

  /** `b &= ~mask` with a one-bit mask clears exactly bit k. */
  lemma AndNotClearsOnlyBit(b: bv8, k: nat)
    requires k < 8
    ensures !Bit(b & !(1 << k), k)
    ensures forall j :: 0 <= j < 8 && j != k ==> Bit(b & !(1 << k), j) == Bit(b, j)
  {
  }

  /** PacketManager::HasFlag<idx>: reads user flag idx (0..3) of a packet. */
  function HasFlag(p: Packet, idx: nat): (r: bool)
    requires idx < 4
    ensures r <==> Bit(p.flags, idx)
  {
    p.flags & (1 << idx) != 0
  }

  /** PacketManager::HasCritical: reads bit 7 of a packet's flags. */
  function HasCritical(p: Packet): (r: bool)
    ensures r <==> Bit(p.flags, CRITICAL_BIT)
  {
    p.flags & 0x80 != 0
  }
}
