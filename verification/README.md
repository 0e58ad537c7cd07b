# PacketManager framing core in Dafny

This project models `pckt::PacketManager`, a packet layer for byte-stream serial links. A sender turns a type, flags and an
8-byte payload into a fixed 13-byte frame and writes it to a transport. A receiver polls the transport and accumulates
bytes into its receive buffer. It checks the magic byte early, then the Fletcher-16 checksum and the type range, and
calls the handler registered for the type. On garbage it resynchronises on the next magic byte. It abandons a partial
frame that has waited longer than the read timeout. The project also models the lossless FIFO transport
`TestTransportLayer` that the test program runs two managers over.

Frame layout: byte 0 magic `0xAA`, byte 1 type, byte 2 flags (bit 7 critical, bits 0..3 user flags), bytes 3..10
payload, bytes 11..12 checksum (little-endian: byte 11 is `sum1`, byte 12 is `sum2`).

Modules, in dependency order:

- `Bytes`: conversion of small naturals to `bv8`.
- `Checksum`: Fletcher-16 as the source loop computes it (`Sum1`, `Sum2`, `Fletcher16`). It also has an unreduced
  reference definition (`Total`, `PrefixTotals`), error-detection lemmas, and the loop's accumulators after k steps.
- `Wire`: the frame as a `seq<bv8>`. It has `Encode`/`Decode` of the `Packet` fields, the frame `Send` builds
  (`PayloadField`, `Frame`), and the flag bit operations.
- `Framing`: the receive state machine as pure functions over `RxState` (reading, bytesRead, receivedAt, the 13
  buffer bytes):
  - `Begin`, `Accumulate`, `Judge` and `Resync` are the pieces of one `TryReadPacket`;
  - `TryReadStep` is one `TryReadPacket` call, and `Drain` is `Update`'s loop;
  - `UpdateStep` is `Update`;
  - `Inv` is the invariant between calls.
- `Transport`: `TestTransportLayer` as a class whose `buffer` field the methods update.
- `Manager`: `PacketManager` as a class with the source's fields. `txPacket` and `rxPacket` are 13-byte arrays, and
  `handlers` is a table of `Unset | Fn(id)`. Each method is proved to leave the state the `Framing` function gives, so
  the receive methods and the pure state machine are tied together.
- `Delivery`: end-to-end properties of the state machine:
  - the send/receive round trip and a backlog of frames;
  - resynchronisation after magic-free garbage;
  - recovery after a timeout;
  - the dispatch conditions.
- `Recovery`: the two corruptions the test program injects, a last byte overwritten with 0xFF and a half frame. In both
  the damaged bytes are dropped and the next good frame is delivered.
- `Scenarios`: the test program's scenarios driven through the classes: a sender and a receiver on one transport.

Handler calls are recorded in the receiver's `dispatched` log as `Dispatch(handler id, frame bytes)`. `millis()` is the
parameter `now` of `Update`.

Two behaviours of the code worth knowing:

- Out-of-range type. The comment at `PacketManager/src/PacketManager.hpp:227` says a complete frame with a good
  checksum and a type of 3 or more should move to the next magic byte. The code does call `MoveHeadToNextMagic`, but
  then calls `ResetState` unconditionally (`PacketManager/src/PacketManager.hpp:224-232`). So the shifted bytes are
  thrown away and the receiver is idle (`Delivery.OutOfRangeTypeDiscards`). The model follows the code.
- Checksum blind spot. The modulo-255 sums cannot tell 0x00 from 0xFF. A frame that passes the check still passes when
  one of bytes 1..10 is changed from 0x00 to 0xFF or back (`Wire.HeaderZeroFFUndetected`; over plain byte strings
  `Checksum.ZeroAndFFCollide`). Byte 0 of a frame the receiver judges is always 0xAA, so it never takes part. Any other
  change to a single byte among 0..10 makes the frame fail the check (`Wire.HeaderChangeDetected`), and so does any
  change to byte 11 or 12 (`Wire.ChecksumFieldChangeDetected`).

The third test (`PacketManager/test/main.cpp:150-171`) corrupts the sends with even index, so n sends deliver n/2
packets (`Scenarios.CorruptEveryOther`). The test prints its received count over (n+1)/2. The two agree for the even n
it runs.

## Model

| member | source | states |
|---|---|---|
| Checksum.Sum1 | PacketManager/src/PacketManager.hpp:165-166 | the running `sum1` stays in [0,254] after every byte |
| Checksum.Sum2 | PacketManager/src/PacketManager.hpp:165-167 | the running `sum2` stays in [0,254] after every byte |
| Checksum.Fletcher16 | PacketManager/src/PacketManager.hpp:161-171 | the checksum fits 16 bits, its low byte is `sum1` and high byte `sum2`, and neither byte can be 0xFF |
| Checksum.Sum1IsTotal | PacketManager/src/PacketManager.hpp:166 | reducing after every byte gives the plain byte sum reduced once (reference definition) |
| Checksum.Sum2IsPrefixTotals | PacketManager/src/PacketManager.hpp:167 | `sum2` is the sum of all prefix sums reduced once (reference definition) |
| Checksum.DetectsSingleByteChange | PacketManager/src/PacketManager.hpp:161-171 | two inputs differing in one byte by an amount not divisible by 255 have different checksums |
| Checksum.ZeroAndFFCollide | PacketManager/src/PacketManager.hpp:161-171 | changing one byte between 0x00 and 0xFF leaves the checksum unchanged |
| Checksum.LoopSum1 | PacketManager/src/PacketManager.hpp:166 | the loop's `sum1` after k iterations stays below 255 |
| Checksum.LoopSum2 | PacketManager/src/PacketManager.hpp:167 | the loop's `sum2` after k iterations stays below 255 |
| Checksum.LoopSumsArePrefixSums | PacketManager/src/PacketManager.hpp:165-168 | after k iterations the accumulators are the Fletcher sums of the first k bytes |
| Wire.TypeByte | PacketManager/src/PacketManager.hpp:99 | `(uint8_t)type` is the enum value modulo 256, the value itself when below 256 |
| Wire.StoredChecksum | PacketManager/src/PacketManager.hpp:30 | the stored `uint16_t` is byte 11 plus 256 times byte 12 |
| Wire.ChecksumOk | PacketManager/src/PacketManager.hpp:217 | the stored checksum equals Fletcher-16 of bytes 0..10 |
| Wire.ChecksumOkBytes | PacketManager/src/PacketManager.hpp:217 | the check holds exactly when byte 11 is `sum1` and byte 12 is `sum2` of bytes 0..10 |
| Wire.HeaderChangeDetected | PacketManager/src/PacketManager.hpp:216-220 | a passing frame with one byte among 0..10 changed by an amount not divisible by 255 fails the check |
| Wire.HeaderZeroFFUndetected | PacketManager/src/PacketManager.hpp:161-171 | a frame with one byte among 0..10 swapped between 0x00 and 0xFF passes exactly when the original does |
| Wire.ChecksumFieldChangeDetected | PacketManager/src/PacketManager.hpp:216-220 | a passing frame with byte 11 or 12 changed to any other value fails the check |
| Wire.Encode | PacketManager/src/PacketManager.hpp:21-34 | 13 bytes: magic, type, flags, payload, then the checksum low byte first |
| Wire.Decode | PacketManager/src/PacketManager.hpp:21-34 | reading the fields out of 13 bytes gives a well-formed packet that encodes back to the same bytes |
| Wire.DecodeEncode | PacketManager/src/PacketManager.hpp:21-34 | decoding an encoded packet gives back the packet |
| Wire.PayloadField | PacketManager/src/PacketManager.hpp:100-103 | the payload field holds the first min(len, 8) caller bytes then zeros, or all zeros for a null payload |
| Wire.Frame | PacketManager/src/PacketManager.hpp:97-106 | the sent frame has 13 bytes, magic, type, flags and payload in place, and a checksum that passes the receive check |
| Wire.FrameLayout | PacketManager/src/PacketManager.hpp:97-106 | the sent frame byte by byte: header, payload, Fletcher-16 of those 11 bytes low byte first |
| Wire.OrSetsOnlyBit | PacketManager/src/PacketManager.hpp:124 | or-ing the flags with the mask of bit k sets bit k and no other |
| Wire.AndNotClearsOnlyBit | PacketManager/src/PacketManager.hpp:125 | and-ing the flags with the complement of the mask of bit k clears bit k and no other |
| Wire.HasFlag | PacketManager/src/PacketManager.hpp:113-116 | true exactly when bit idx of the flags is set |
| Wire.HasCritical | PacketManager/src/PacketManager.hpp:236 | true exactly when bit 7 of the flags is set |
| Framing.Inv | PacketManager/src/PacketManager.hpp:190-233 | the invariant between calls: 13 buffer bytes, fewer than 13 held, a 32-bit clock value, nothing held while idle, and a partial frame starts with 0xAA |
| Framing.Begin | PacketManager/src/PacketManager.hpp:192-196 | an idle receiver starts a frame with nothing held and the clock at now; a frame in progress is kept unchanged; the buffer is untouched and the invariant kept |
| Framing.Chunk | PacketManager/src/PacketManager.hpp:198-199 | the read length is the room left in the frame or the bytes available, whichever is smaller |
| Framing.ReadAndCheck | PacketManager/src/PacketManager.hpp:198-232 | the invariant is restored and exactly Chunk bytes are consumed. A read of nothing changes nothing; a handler call comes only from a complete 13-byte deliverable frame, after which the receiver is idle |
| Framing.Elapsed | PacketManager/src/PacketManager.hpp:69 | `millis() - receivedAt` in 32-bit unsigned arithmetic, wrapping when the clock has passed 2^32 |
| Framing.Reset | PacketManager/src/PacketManager.hpp:150-155 | idle, nothing held, clock zero, rx byte 0 cleared and the other bytes kept |
| Framing.FirstMagic | PacketManager/src/PacketManager.hpp:176-182 | the search finds the smallest index in [from, n) holding 0xAA, or none exactly when no such index exists |
| Framing.FirstMagicAt | PacketManager/src/PacketManager.hpp:176-182 | a magic byte with none before it is the one the search returns |
| Framing.Shift | PacketManager/src/PacketManager.hpp:178 | the memmove puts bytes i..n at the front and leaves the rest of the buffer as it was |
| Framing.Resync | PacketManager/src/PacketManager.hpp:174-186 | fewer bytes held. Bytes remain exactly when some byte in [1, bytesRead) is 0xAA; then the buffer is shifted to the first such byte (none of the bytes between 1 and it is 0xAA), holds the tail of the old bytes, and reading and receivedAt are kept. Otherwise the state is exactly Reset of the old one |
| Framing.Accumulate | PacketManager/src/PacketManager.hpp:198-203 | the read appends min(13 - bytesRead, available) input bytes after those held and leaves the held bytes unchanged |
| Framing.AccumulateNothing | PacketManager/src/PacketManager.hpp:199-200 | a read that returns nothing leaves the state unchanged |
| Framing.Judge | PacketManager/src/PacketManager.hpp:202-232 | the invariant is restored. A handler runs only on a complete frame with magic, good checksum, type below 3 and a set handler, and it is that type's handler; the receiver is then idle |
| Framing.TryReadStep | PacketManager/src/PacketManager.hpp:190-233 | the invariant is kept and available input shrinks. The unread input is a suffix, at most the bytes read are held or delivered, and a handler runs only on a deliverable frame |
| Framing.Drain | PacketManager/src/PacketManager.hpp:76 | the invariant is kept, every handler call is on a deliverable frame, and at most one call per 13 input bytes is made |
| Framing.DrainIntoIsDrain | PacketManager/src/PacketManager.hpp:76 | the loop with the log threaded through equals Drain with its calls appended to the log |
| Framing.UpdateStep | PacketManager/src/PacketManager.hpp:65-77 | the invariant is kept and every call is on a deliverable frame. With nothing available no handler runs and an idle receiver is unchanged |
| Transport.TestTransportLayer.constructor | PacketManager/test/main.cpp:8 | an empty buffer |
| Transport.TestTransportLayer.Available | PacketManager/test/main.cpp:33-35 | true exactly when the buffer is non-empty |
| Transport.TestTransportLayer.Read | PacketManager/test/main.cpp:10-20 | returns min(len, buffer size), copies that many bytes from the front in order, removes exactly them, and touches no other byte of `data` |
| Transport.TestTransportLayer.Write | PacketManager/test/main.cpp:22-31 | appends all len bytes in order and returns len |
| Transport.WriteThenRead | PacketManager/test/main.cpp:10-31 | bytes written then read back come out identical and in order |
| Manager.PacketManager.constructor | PacketManager/src/PacketManager.hpp:52-62 | no handlers, txPacket zero except its magic byte, rxPacket zero, receiver idle |
| Manager.PacketManager.Update | PacketManager/src/PacketManager.hpp:65-77 | the new state and the handler calls are those of UpdateStep on the old state and buffer, and the transport is emptied |
| Manager.PacketManager.DrainTransport | PacketManager/src/PacketManager.hpp:76 | the loop leaves the state and calls of Drain and an empty transport |
| Manager.PacketManager.Callback | PacketManager/src/PacketManager.hpp:83-90 | an in-range type replaces only its own entry; any other type changes nothing |
| Manager.PacketManager.Send | PacketManager/src/PacketManager.hpp:97-107 | txPacket becomes the frame for the type, the kept flags and the payload field, and those 13 bytes are appended to the transport |
| Manager.PacketManager.FillHeader | PacketManager/src/PacketManager.hpp:98-103 | the first 11 txPacket bytes are magic, type, unchanged flags and the payload field; bytes 11..12 are left as they were, for `Send` to overwrite |
| Manager.PacketManager.SetFlag | PacketManager/src/PacketManager.hpp:122-126 | bit `flag` of the flags becomes v; no other bit and no other txPacket byte changes |
| Manager.PacketManager.SetCritical | PacketManager/src/PacketManager.hpp:131-134 | bit 7 becomes v; bits 0..6 and the other txPacket bytes are kept |
| Manager.PacketManager.ResetState | PacketManager/src/PacketManager.hpp:150-155 | the receive state becomes Reset of the old one |
| Manager.PacketManager.ComputeChecksum | PacketManager/src/PacketManager.hpp:161-171 | the loop computes Fletcher16 of bytes 0..10 and never reads the checksum field |
| Manager.PacketManager.MoveHeadToNextMagic | PacketManager/src/PacketManager.hpp:174-186 | the receive state becomes Resync of the old one |
| Manager.PacketManager.TryReadPacket | PacketManager/src/PacketManager.hpp:190-233 | the new state, the remaining transport bytes and the handler call are those of TryReadStep |
| Manager.PacketManager.BeginRead | PacketManager/src/PacketManager.hpp:192-196 | a new frame starts the clock at now; a frame in progress is kept |
| Manager.PacketManager.ShiftHead | PacketManager/src/PacketManager.hpp:178-179 | the buffer becomes Shift of the old one and bytesRead drops by i |
| Manager.PacketManager.ReceiveChunk | PacketManager/src/PacketManager.hpp:198-232 | the state, remaining bytes and handler call are those of ReadAndCheck |
| Manager.PacketManager.ReadIntoRx | PacketManager/src/PacketManager.hpp:198-199 | the read returns Chunk bytes, removes them from the transport, and stores them after those held |
| Manager.PacketManager.CheckFrame | PacketManager/src/PacketManager.hpp:202-232 | the state and handler call are those of Judge |
| Delivery.AccumulateCompletes | PacketManager/src/PacketManager.hpp:198-203 | reading the missing bytes of a frame completes it exactly and leaves the rest of the input |
| Delivery.JudgeGood | PacketManager/src/PacketManager.hpp:216-232 | a complete good frame calls its type's handler (none when unset) and leaves the receiver idle |
| Delivery.Completes | PacketManager/src/PacketManager.hpp:190-233 | one call completes a partial good frame, delivers it, and consumes nothing after it |
| Delivery.DrainCompletes | PacketManager/src/PacketManager.hpp:76 | Update's loop over the missing bytes of a good frame delivers it and ends idle |
| Delivery.RoundTrip | PacketManager/src/PacketManager.hpp:97-107 | a sent frame with type below 3, read by an idle receiver in one Update, reaches exactly that type's handler with the payload it was built from |
| Delivery.DrainFrames | PacketManager/src/PacketManager.hpp:65-77 | a backlog of good frames is delivered in order by one Update, ending idle |
| Delivery.FirstRead | PacketManager/src/PacketManager.hpp:192-203 | an idle receiver's first read takes the first 13 bytes and starts the clock |
| Delivery.JudgeGarbage | PacketManager/src/PacketManager.hpp:184-185 | 13 bytes without a magic byte are dropped and the receiver resets |
| Delivery.JudgeGarbageThenMagic | PacketManager/src/PacketManager.hpp:176-181 | garbage before a magic byte at n is dropped and the bytes from n are kept |
| Delivery.GarbageBlock | PacketManager/src/PacketManager.hpp:204-207 | one call drops a 13-byte block of magic-free garbage and leaves the receiver idle |
| Delivery.DrainSilentStep | PacketManager/src/PacketManager.hpp:76 | a call that runs no handler adds nothing to Update's calls |
| Delivery.GarbageTail | PacketManager/src/PacketManager.hpp:204-207 | a short garbage run is shifted away and the frame's first bytes are kept |
| Delivery.DrainGarbageBlock | PacketManager/src/PacketManager.hpp:76 | Update's loop drops a magic-free block and continues with the rest |
| Delivery.DrainGarbageTail | PacketManager/src/PacketManager.hpp:76 | Update's loop drops a short garbage run and delivers the frame behind it |
| Delivery.SkipsGarbage | PacketManager/src/PacketManager.hpp:202-208 | any magic-free garbage before a good frame is dropped, and the frame is still delivered with the receiver idle after |
| Delivery.DeliveredChecksumNever0xFF | PacketManager/src/PacketManager.hpp:216-220 | no frame a handler receives has a 0xFF checksum byte |
| Delivery.OutOfRangeTypeDiscards | PacketManager/src/PacketManager.hpp:224-232 | a good-checksum frame with type 3 or more is dropped, and the receiver ends idle even when the shift kept bytes |
| Delivery.QuietUpdate | PacketManager/src/PacketManager.hpp:66-74 | with nothing available no handler runs; the state changes exactly when a partial frame waited over 100 ms, and then goes idle |
| Delivery.TimeoutRecovery | PacketManager/src/PacketManager.hpp:69-70 | after the timeout reset, the next good frame is delivered whole |
| Recovery.Corrupted | PacketManager/test/main.cpp:154 | the corruption changes only the last byte, to 0xFF |
| Recovery.TestChecksum | PacketManager/test/main.cpp:253 | the test frame's checksum is 0x2C67 |
| Recovery.TestFrameIsSent | PacketManager/test/main.cpp:253 | Send of the test payload as a DataPacket gives the literal test frame, which is good and has the test frame's byte pattern |
| Recovery.FFChecksumFails | PacketManager/src/PacketManager.hpp:216-220 | a frame with a 0xFF checksum byte fails the checksum test |
| Recovery.JudgeFFChecksum | PacketManager/src/PacketManager.hpp:216-220 | such a frame is rejected and the shift keeps the bytes from the next magic byte |
| Recovery.Stale | PacketManager/src/PacketManager.hpp:178 | the last four bytes of a corrupted frame: bytes 9 to 11, then 0xFF |
| Recovery.CorruptedStep | PacketManager/test/main.cpp:154-156 | a corrupted frame runs no handler and leaves its last four bytes held |
| Recovery.StaleStep1 | PacketManager/src/PacketManager.hpp:216-220 | the stale bytes plus 9 of the next frame are rejected and shifted by one |
| Recovery.StaleStep2 | PacketManager/src/PacketManager.hpp:216-220 | one more byte is rejected again and the shift lands on the next frame's magic byte |
| Recovery.StaleThenFrame | PacketManager/test/main.cpp:151-156 | the Update after a corrupted frame delivers the next good frame and ends idle |
| Recovery.CorruptedThenGood | PacketManager/test/main.cpp:150-158 | a corrupted then a good send: the first Update runs no handler, the second delivers the good frame |
| Recovery.HalfStep | PacketManager/test/main.cpp:186-191 | the half frame plus 7 bytes of the next is rejected and shifted onto the whole frame |
| Recovery.HalfThenFrame | PacketManager/test/main.cpp:185-191 | a half frame then a whole one: one Update delivers the whole frame and ends idle |
| Scenarios.FullPayload | PacketManager/src/PacketManager.hpp:102-103 | an 8-byte payload is copied whole |
| Scenarios.Exchange | PacketManager/test/main.cpp:78-79 | Send then Update: the receiver's log grows by the call to the type's handler on the sent frame, or by nothing if the handler is unset |
| Scenarios.Receive | PacketManager/test/main.cpp:79 | an Update over one sent frame adds that type's handler call |
| Scenarios.Connect | PacketManager/test/main.cpp:68-74 | two fresh managers on one empty transport; the receiver has exactly one handler set |
| Scenarios.SendEachThenUpdate | PacketManager/test/main.cpp:77-87 | the first test: every one of n packets reaches the DataPacket handler once, with the payload sent |
| Scenarios.FlagsTravel | PacketManager/src/PacketManager.hpp:122-134 | a flag and the critical bit set on the sender arrive on the received packet, with no other user flag |
| Scenarios.SendTestFrame | PacketManager/test/main.cpp:151 | the test's Send appends the test frame and keeps the flags |
| Scenarios.UpdateOnCorrupted | PacketManager/test/main.cpp:154-156 | the Update over a corrupted frame calls no handler and keeps the stale tail |
| Scenarios.UpdateOnTestFrame | PacketManager/test/main.cpp:189-191 | the Update over a whole frame after junk or a stale tail calls the DataPacket handler once |
| Scenarios.CorruptingRound | PacketManager/test/main.cpp:151-156 | one round of the third test: a corrupted round calls nothing, an intact round delivers once |
| Scenarios.CorruptEveryOther | PacketManager/test/main.cpp:150-164 | the third test: n sends with every other one corrupted deliver exactly n/2 intact packets |
| Scenarios.HalfFrameFirst | PacketManager/test/main.cpp:185-199 | the fourth test: after a half frame, every one of n whole packets is delivered |

## Left out

- `trns::SerialTransport` and Arduino's `SoftwareSerial` are not part of this model; the only transport is `TestTransportLayer`.
- `millis()` is the parameter `now`, a 32-bit unsigned value; the clock is taken as fixed during one `Update` call.
- Handler function pointers become `Fn(id)` entries, and a call becomes an entry in the `dispatched` log. What a handler
  does, and a handler that calls back into `Update` or `Send`, are not modelled.
- `reinterpret_cast`, `memset` and `memmove` on the packed struct become explicit byte sequences. The checksum is stored
  little-endian, as on the targets the code runs on; a big-endian host is not modelled.
- `PacketManager/PacketManager.hpp`, an earlier draft of the class that does not compile, is not part of this model.
- The `TestSuite` harness is not modelled: console output, counters, percentages and the random interference of the
  second and fifth tests. Random interference is represented by `Delivery.SkipsGarbage`, which covers garbage without
  0xAA bytes; garbage containing 0xAA may combine with frame bytes and is not covered.
- The acknowledgement type and the critical bit carry no behaviour beyond being stored and read back.
- Scenarios.CorruptEveryOther and Scenarios.HalfFrameFirst state their result for the test's payload (the frame
  `Recovery.TEST_FRAME`), not for every payload. How the damaged bytes resynchronise depends on where 0xAA occurs in the
  frame.
- Scenarios.HalfFrameFirst requires at least one whole send; with none the half frame would be left to the cleanup loop,
  which the test never reaches with its 5,000,000 sends.
- `TryReadPacket`, `Send` and `Update` are split into helper methods (`BeginRead`, `ReceiveChunk`, `ReadIntoRx`,
  `CheckFrame`, `FillHeader`, `DrainTransport`, `ShiftHead`) with the same statements in the same order.
