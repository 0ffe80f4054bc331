# scan network core in Dafny

A model of the id, framing and bookkeeping layer of the scan peer-to-peer LAN
messaging client (Java), with proofs of what that layer promises. Each source
class becomes one Dafny module:

- `VarInts` (`var_int.dfy`): the bounded wire id `VariableLengthInteger`, with
  a bound of 2^57 - 1. Its step and arithmetic operations answer "no result" at
  the bounds.
- `BitSets` (`bit_sets.dfy`): the three `java.util.BitSet` operations the
  allocators use (`nextClearBit(0)`, `set`, `clear`).
- `MessageIds` (`message_ids.dfy`): the VarInt message-id allocator of the
  network layer. It is a class over an `array<bool>` that always hands out the
  lowest free id in `[startId, endId]`.
- `DirectMessageIds` (`direct_message_ids.dfy`): the int allocator of the
  direct frame layer. Its bit set grows without bound.
- `QueryIds` (`query_ids.dfy`): the query-id counter of the network layer,
  which restarts after a 20-second window. The clock readings are parameters.
- `DirectQueryIds` (`direct_query_ids.dfy`): the scheduler-driven counter of
  the direct frame layer. Timers and futures are serial numbers, and the
  scheduler calls are kept as a log.
- `FrameHeader` (`frame_header.dfy`): the wire header. It is one flag byte
  (type in bits 0-5, bit 6 = source id present, bit 7 = target id present),
  then the optional 32-byte ids, then a 2-byte big-endian length.
- `FrameEncoder` (`frame_encoder.dfy`): `FrameFromPhysicalPeer` and its
  length-bounded `LimitedFrame`, which keep frames atomic.
- `FrameDecoder` (`frame_decoder.dfy`): `PhysicalFromFramePeer`, the
  incremental header decoder. A pure step function specifies it, and the class
  is proved against that function. Lemmas relate the decoder to the encoder.
  An encoded header, split into messages in any way, starts one frame with
  the encoded fields. When a payload follows the header and the frame keeps
  asking for more, the frame receives exactly that payload.
- `FramePeerToPeer` (`frame_peer_to_peer.dfy`): the outgoing message, which
  reserves an id on its first part and releases it on its end.
- `PeerToFramePeer` (`peer_to_frame_peer.dfy`): reassembly of incoming
  multi-frame messages through the `messages` map. The `network` and
  `network/direct` variants have the same logic line for line, so one class
  models both.
- `CachingNetwork` (`caching_network.dfy`): `CachingPhysicalNetwork`, which
  keeps one connection per address.
- `SelectorKeys` (`selector_key.dfy`): the interest-flag arithmetic of
  `NioSelectorKey`.
- `NioNetwork` (`nio_network.dfy`): the multicast send queue and the
  tracked-peer list of `NioPhysicalNetwork`.

Collaborators are recorded as traces of the calls made on them: the physical
peer, the frame peer, the peer above, the delegate network and the listener.
A Java exception, or a call that would block, is an `Option`/`bool` answer
under which nothing changes.

Where the code and its documentation or tests disagree, the model follows the
code:
- `LimitedFrame.receive` answers `remainingLength > 0` after forwarding, which
  is "more bytes expected". `Frame.java:17-19` documents the opposite meaning.
- The direct `QueryIds` answers 0 first. Its tests
  (`frame/direct/QueryIdsTests.java:23-35`) expect 1.
- `PhysicalFromFramePeer` treats a flag byte of 0 as "no flag byte held".
  `FrameDecoder.ZeroTypeByteAcrossMessages` states what this means when the
  zero byte ends a message.
- The decoder hands the whole remainder of a message to the active frame.
  `LimitedFrame` bounds a frame by its full `int` length, while the header
  carries only `length & 0xFFFF`.

## Model

| member | source | states |
|---|---|---|
| VarInts.VarInt.Increase | java/client/src/main/java/com/vanillasource/scan/client/network/data/VariableLengthInteger.java:28-34 | no result exactly when the value is at its bound; otherwise value + 1 with the same bound, still in range |
| VarInts.VarInt.Decrease | java/client/src/main/java/com/vanillasource/scan/client/network/data/VariableLengthInteger.java:36-42 | no result exactly at zero; otherwise value - 1 with the same bound |
| VarInts.VarInt.Subtract | java/client/src/test/java/com/vanillasource/scan/client/network/data/VariableLengthIntegerTests.java:39-45 | no result exactly when the difference would be negative; otherwise a value whose sum with the subtrahend is the minuend |
| VarInts.VarInt.Add | java/client/src/main/java/com/vanillasource/scan/client/network/network/BitMaskMessageIds.java:41 | no result exactly when the sum passes the bound; otherwise the sum |
| VarInts.VarInt.IntValue | java/client/src/test/java/com/vanillasource/scan/client/network/data/VariableLengthIntegerTests.java:47-53 | no result exactly above Integer.MAX_VALUE; otherwise the value itself |
| VarInts.CreateLong | java/client/src/main/java/com/vanillasource/scan/client/network/data/VariableLengthInteger.java:20-22 | given a value in [0, 2^57 - 1] (the caller's duty, no check in the source), a valid value carrying it |
| VarInts.CreateBigInteger | java/client/src/main/java/com/vanillasource/scan/client/network/data/VariableLengthInteger.java:24-26 | as CreateLong, with the bound LONG_MAX_INTEGER |
| VarInts.LongMaxValue | java/client/src/main/java/com/vanillasource/scan/client/network/data/VariableLengthInteger.java:8 | the bound 2^(7*7+8) - 1 is exactly 144115188075855871 |
| VarInts.Extremes | java/client/src/main/java/com/vanillasource/scan/client/network/data/VariableLengthInteger.java:9-10 | LONG_MAX carries the bound and cannot be increased; ZERO is 0 and cannot be decreased |
| VarInts.IncreaseThenDecrease | java/client/src/main/java/com/vanillasource/scan/client/network/data/VariableLengthInteger.java:28-42 | below the bound, decrease(increase(v)) gives v back |
| VarInts.DecreaseThenIncrease | java/client/src/main/java/com/vanillasource/scan/client/network/data/VariableLengthInteger.java:28-42 | above zero, increase(decrease(v)) gives v back |
| VarInts.AddThenSubtract | java/client/src/main/java/com/vanillasource/scan/client/network/network/BitMaskMessageIds.java:41-48 | subtracting what was added gives the value back |
| VarInts.EqualsIsValueEquality | java/client/src/main/java/com/vanillasource/scan/client/network/data/VariableLengthInteger.java:44-50 | equals is reflexive, symmetric and transitive, ignores the bound, and createLong(0) equals ZERO |
| BitSets.LowestClear | java/client/src/main/java/com/vanillasource/scan/client/network/network/BitMaskMessageIds.java:28 | nextClearBit(0): every lower bit is set and the answered bit is clear |
| BitSets.SetBit | java/client/src/main/java/com/vanillasource/scan/client/network/network/BitMaskMessageIds.java:40 | BitSet.set(i): bit i becomes set, every other bit keeps its value |
| BitSets.ClearBit | java/client/src/main/java/com/vanillasource/scan/client/network/network/BitMaskMessageIds.java:48 | BitSet.clear(i): bit i becomes clear, every other bit keeps its value |
| BitSets.Members | java/client/src/main/java/com/vanillasource/scan/client/network/network/BitMaskMessageIds.java:14-16 | the ids a mask stands for: start + i for exactly the set bits i |
| BitSets.MembersAfterSet | java/client/src/main/java/com/vanillasource/scan/client/network/network/BitMaskMessageIds.java:40 | setting bit k adds exactly start + k to the ids handed out |
| BitSets.MembersAfterClear | java/client/src/main/java/com/vanillasource/scan/client/network/network/BitMaskMessageIds.java:48 | clearing bit k removes exactly start + k from the ids handed out |
| BitSets.LowestClearOfPrefix | java/client/src/test/java/com/vanillasource/scan/client/network/network/BitMaskMessageIdsTests.java:42-46 | with the first n bits set, nextClearBit(0) answers n |
| BitSets.SetLowestOfPrefix | java/client/src/test/java/com/vanillasource/scan/client/network/network/BitMaskMessageIdsTests.java:42-46 | setting bit n of an n-bit prefix gives the (n + 1)-bit prefix |
| BitSets.SetPastFull | java/client/src/main/java/com/vanillasource/scan/client/network/frame/direct/BitMaskMessageIds.java:30-33 | setting the bit just past a full bit set grows it by one set bit |
| MessageIds.BitMaskRange | java/client/src/main/java/com/vanillasource/scan/client/network/network/BitMaskMessageIds.java:22-24 | a range exactly when endId - startId exists and fits a Java int (otherwise the constructor throws), and then it is that difference |
| MessageIds.BitMaskMessageIds.Outstanding | java/client/src/main/java/com/vanillasource/scan/client/network/network/BitMaskMessageIds.java:14-16 | every id handed out lies in [startId, startId + range] |
| MessageIds.BitMaskMessageIds.Create | java/client/src/main/java/com/vanillasource/scan/client/network/network/BitMaskMessageIds.java:20-34 | no allocator exactly where the constructor throws: the range check fails, or range + 1 overflows an int so that the BitSet size is negative; otherwise a fresh allocator with no id handed out |
| MessageIds.WidestRangeScenario | java/client/src/main/java/com/vanillasource/scan/client/network/network/BitMaskMessageIds.java:22-25 | [0, Integer.MAX_VALUE] passes the range check but no allocator is made |
| MessageIds.BitMaskMessageIds.ReserveId | java/client/src/main/java/com/vanillasource/scan/client/network/network/BitMaskMessageIds.java:27-42 | the id is startId plus the lowest clear bit, which becomes set; the id was not outstanding, every lower id was, and it joins the outstanding ids; on a full mask, no id and nothing changes (the source waits) |
| MessageIds.BitMaskMessageIds.ReleaseId | java/client/src/main/java/com/vanillasource/scan/client/network/network/BitMaskMessageIds.java:46-51 | fails exactly when id is below startId or id - startId is beyond a Java int; otherwise clears only bit id - startId and removes id from the outstanding ids |
| MessageIds.FreshRangeScenario | java/client/src/test/java/com/vanillasource/scan/client/network/network/BitMaskMessageIdsTests.java:42-57 | a fresh [10, 19] allocator answers 10..19 to ten reservations in order, then finds the mask full |
| MessageIds.ReleaseLowestScenario | java/client/src/test/java/com/vanillasource/scan/client/network/network/BitMaskMessageIdsTests.java:31-40 | with 10, 11 and 12 held, releasing 10 makes 10 the next reservation |
| DirectMessageIds.Wrap | java/client/src/main/java/com/vanillasource/scan/client/network/frame/direct/BitMaskMessageIds.java:24 | Java int arithmetic: a value in the int range that differs from the exact result by a multiple of 2^32, and the exact result when it fits |
| DirectMessageIds.BitMaskMessageIds.Create | java/client/src/main/java/com/vanillasource/scan/client/network/frame/direct/BitMaskMessageIds.java:21-26 | no allocator exactly when the BitSet size endId - startId + 1, computed in int arithmetic, is negative; otherwise an empty mask and a fresh notification |
| DirectMessageIds.BitMaskMessageIds.ReserveId | java/client/src/main/java/com/vanillasource/scan/client/network/frame/direct/BitMaskMessageIds.java:29-37 | always served at once: startId plus the lowest clear bit, which becomes set; the id was free, every lower id was held; no check against endId |
| DirectMessageIds.BitMaskMessageIds.ReleaseId | java/client/src/main/java/com/vanillasource/scan/client/network/frame/direct/BitMaskMessageIds.java:40-45 | fails exactly when the int difference id - startId is negative; otherwise clears only that bit (the bit for id when the difference does not overflow), completes the old notification and installs a new one |
| DirectMessageIds.FreshRangeScenario | java/client/src/test/java/com/vanillasource/scan/client/network/frame/direct/BitMaskMessageIdsTests.java:32-36 | a fresh [10, 19] allocator answers 10, 11, ... in order, and the eleventh id is 20, past endId |
| DirectMessageIds.ReleaseScenario | java/client/src/test/java/com/vanillasource/scan/client/network/frame/direct/BitMaskMessageIdsTests.java:23-30 | releasing 10 and reserving again answers 10 |
| DirectMessageIds.OverflowScenario | java/client/src/main/java/com/vanillasource/scan/client/network/frame/direct/BitMaskMessageIds.java:21-45 | an allocator on [-2, Integer.MAX_VALUE] cannot be made; releasing Integer.MIN_VALUE with startId 10 succeeds but leaves id 10 handed out |
| QueryIds.Step | java/client/src/main/java/com/vanillasource/scan/client/network/network/QueryIds.java:18-31 | at or past the end of the 20 s window the answer is 0; inside it the answer is the counter, which advances; at the bound the call sleeps and answers 0; the answer is always the new counter minus one and the issue time is the second clock reading |
| QueryIds.Run | java/client/src/main/java/com/vanillasource/scan/client/network/network/QueryIds.java:18-31 | the outcomes of n calls at one instant, one per call |
| QueryIds.CountsUpInsideWindow | java/client/src/main/java/com/vanillasource/scan/client/network/network/QueryIds.java:20-29 | inside the window and below the bound, n calls answer counter, counter + 1, ... without sleeping |
| QueryIds.FreshCountsUp | java/client/src/test/java/com/vanillasource/scan/client/network/network/direct/QueryIdsTests.java:16-30 | a fresh counter answers 0, 1, ..., n - 1 to n calls at one instant without sleeping |
| QueryIds.FirstWindowOf255 | java/client/src/test/java/com/vanillasource/scan/client/network/network/direct/QueryIdsTests.java:22-30 | 255 calls at time 0 answer 0..254 and never sleep |
| QueryIds.ResetsAfterWindow | java/client/src/test/java/com/vanillasource/scan/client/network/network/direct/QueryIdsTests.java:32-39 | after a call at time 0, a call at time 20000 answers 0 |
| QueryIds.QueryIds.constructor | java/client/src/main/java/com/vanillasource/scan/client/network/network/QueryIds.java:8-16 | the counter starts at 0 with last issue time 0 |
| QueryIds.QueryIds.NextQueryId | java/client/src/main/java/com/vanillasource/scan/client/network/network/QueryIds.java:18-31 | the new fields, the answer and whether it slept are exactly those of Step |
| DirectQueryIds.QueryIds.constructor | java/client/src/main/java/com/vanillasource/scan/client/network/frame/direct/QueryIds.java:20-23 | after construction the counter is 0 and there is no timer to cancel |
| DirectQueryIds.QueryIds.Reset | java/client/src/main/java/com/vanillasource/scan/client/network/frame/direct/QueryIds.java:45-49 | counter 0, a new notification, no timer; the scheduler is not called |
| DirectQueryIds.QueryIds.NextQueryId | java/client/src/main/java/com/vanillasource/scan/client/network/frame/direct/QueryIds.java:25-34 | the counter always increments; up to 255 the old counter is issued at once and the timer is cancelled and rescheduled for 20 s; past 255 the call is deferred on the pending notification |
| DirectQueryIds.QueryIds.ResetAndNotify | java/client/src/main/java/com/vanillasource/scan/client/network/frame/direct/QueryIds.java:36-43 | resets first, then completes the old notification, so retried calls see counter 0 |
| DirectQueryIds.WindowScenario | java/client/src/main/java/com/vanillasource/scan/client/network/frame/direct/QueryIds.java:25-49 | a fresh counter issues 0..255, defers the next call, and after the timer fires the retry is issued 0 |
| FrameHeader.FlagByte | java/client/src/main/java/com/vanillasource/scan/client/network/frame/physical/FrameFromPhysicalPeer.java:46-48 | for a type below 64, the low six bits are the type, bit 6 says a source is present and bit 7 a target |
| FrameHeader.HeaderLength | java/client/src/main/java/com/vanillasource/scan/client/network/frame/physical/PhysicalFromFramePeer.java:37 | the header bytes after the flag byte: 2, 34 or 66 |
| FrameHeader.IdBytes | java/client/src/main/java/com/vanillasource/scan/client/network/frame/physical/FrameFromPhysicalPeer.java:34-35 | a present id is written as its 32 bytes, an absent one as nothing |
| FrameHeader.LengthBytes | java/client/src/main/java/com/vanillasource/scan/client/network/frame/physical/FrameFromPhysicalPeer.java:36 | two bytes whose big-endian value is length & 0xFFFF |
| FrameHeader.EncodeHeader | java/client/src/main/java/com/vanillasource/scan/client/network/frame/physical/FrameFromPhysicalPeer.java:31-36 | flag byte first, then the ids present, then the length; for a type below 64 its size is one plus what the decoder expects for that flag |
| FrameHeader.DecodeHeader | java/client/src/main/java/com/vanillasource/scan/client/network/frame/physical/PhysicalFromFramePeer.java:44-58 | the whole flag byte is the type; a source exactly when bit 6 is set, read first; a target exactly when bit 7 is set, read before the length; the length is below 65536 |
| FrameHeader.HeaderRoundTrip | java/client/src/main/java/com/vanillasource/scan/client/network/frame/physical/FrameFromPhysicalPeer.java:31-48 | for a type below 64, decoding an encoded header gives back the ids and length mod 65536, with the type in the low six bits of the flag byte |
| FrameEncoder.Cut | java/client/src/main/java/com/vanillasource/scan/client/network/frame/physical/FrameFromPhysicalPeer.java:66-74 | with bytes still owed, the leading min(remaining, buffer length) bytes of the buffer; with none owed, nothing |
| FrameEncoder.FrameFromPhysicalPeer.constructor | java/client/src/main/java/com/vanillasource/scan/client/network/frame/physical/FrameFromPhysicalPeer.java:19-23 | no frame active and nothing sent |
| FrameEncoder.FrameFromPhysicalPeer.Receive | java/client/src/main/java/com/vanillasource/scan/client/network/frame/physical/FrameFromPhysicalPeer.java:26-40 | with a frame active, no frame and nothing changes (the source throws); otherwise a new frame bounded by length, the peer marked active, and exactly the encoded header sent |
| FrameEncoder.FrameFromPhysicalPeer.Close | java/client/src/main/java/com/vanillasource/scan/client/network/frame/physical/FrameFromPhysicalPeer.java:51-53 | the physical peer is closed and nothing else changes |
| FrameEncoder.LimitedFrame.constructor | java/client/src/main/java/com/vanillasource/scan/client/network/frame/physical/FrameFromPhysicalPeer.java:59-62 | remaining length starts at the full length |
| FrameEncoder.LimitedFrame.Receive | java/client/src/main/java/com/vanillasource/scan/client/network/frame/physical/FrameFromPhysicalPeer.java:65-80 | with nothing owed, answers true and sends nothing; otherwise sends the buffer cut to the bytes still owed and answers whether bytes are still owed |
| FrameEncoder.LimitedFrame.Close | java/client/src/main/java/com/vanillasource/scan/client/network/frame/physical/FrameFromPhysicalPeer.java:42-44 | closing the frame frees its peer for the next frame |
| FrameEncoder.ForwardsExactlyLength | java/client/src/main/java/com/vanillasource/scan/client/network/frame/physical/FrameFromPhysicalPeer.java:66-78 | over any sequence of buffers, a frame forwards exactly the first length bytes of their concatenation |
| FrameEncoder.AtomicFramesScenario | java/client/src/main/java/com/vanillasource/scan/client/network/frame/physical/FrameFromPhysicalPeer.java:26-85 | a second frame is refused while one is active; a 3-byte frame forwards [7, 8], cuts [9, 10] to [9] and then answers false; after close a new frame starts |
| FrameDecoder.ReadHeader | java/client/src/main/java/com/vanillasource/scan/client/network/frame/physical/PhysicalFromFramePeer.java:33-62 | takes a flag byte when none is held, never more header bytes than are missing, leaves the rest; a complete header starts exactly one frame with the decoded fields and clears the header state |
| FrameDecoder.Step | java/client/src/main/java/com/vanillasource/scan/client/network/frame/physical/PhysicalFromFramePeer.java:27-81 | an empty message changes nothing; with a frame active the whole message goes to it and the frame is cleared exactly when it reports done |
| FrameDecoder.PhysicalFromFramePeer.constructor | java/client/src/main/java/com/vanillasource/scan/client/network/frame/physical/PhysicalFromFramePeer.java:18-24 | no flag byte held, no header bytes, no active frame |
| FrameDecoder.PhysicalFromFramePeer.Receive | java/client/src/main/java/com/vanillasource/scan/client/network/frame/physical/PhysicalFromFramePeer.java:27-77 | the new fields and the calls made are exactly those of Step |
| FrameDecoder.PhysicalFromFramePeer.Close | java/client/src/main/java/com/vanillasource/scan/client/network/frame/physical/PhysicalFromFramePeer.java:84-86 | the frame peer is closed and the decoder state is unchanged |
| FrameDecoder.Feed | java/client/src/main/java/com/vanillasource/scan/client/network/frame/physical/PhysicalFromFramePeer.java:27-81 | feeding messages one by one keeps the decoder consistent |
| FrameDecoder.ReadsWholeMessage | java/client/src/main/java/com/vanillasource/scan/client/network/frame/physical/PhysicalFromFramePeer.java:38-62 | a message that does not pass the header is taken whole, and starts a frame exactly when it completes the header |
| FrameDecoder.StepWithinHeader | java/client/src/main/java/com/vanillasource/scan/client/network/frame/physical/PhysicalFromFramePeer.java:33-43 | a chunk short of the header end only accumulates |
| FrameDecoder.ReadsHeaderEnd | java/client/src/main/java/com/vanillasource/scan/client/network/frame/physical/PhysicalFromFramePeer.java:38-62 | a message that carries all the missing header bytes completes the header, takes no more bytes than were missing, and leaves the rest |
| FrameDecoder.StepCompletesHeader | java/client/src/main/java/com/vanillasource/scan/client/network/frame/physical/PhysicalFromFramePeer.java:44-73 | the message that ends the header starts the frame and hands it exactly the bytes after the header, whatever they are |
| FrameDecoder.FeedNothing | java/client/src/main/java/com/vanillasource/scan/client/network/frame/physical/PhysicalFromFramePeer.java:29-31 | messages with no bytes change nothing |
| FrameDecoder.FeedHeader | java/client/src/main/java/com/vanillasource/scan/client/network/frame/physical/PhysicalFromFramePeer.java:33-73 | the rest of a well-formed header, in any chunking and whatever the frame answers, starts exactly one frame with its decoded fields |
| FrameDecoder.FeedEndsHeader | java/client/src/main/java/com/vanillasource/scan/client/network/frame/physical/PhysicalFromFramePeer.java:44-73 | the message that ends a header, followed by empty messages, starts the frame and hands it nothing |
| FrameDecoder.FeedActive | java/client/src/main/java/com/vanillasource/scan/client/network/frame/physical/PhysicalFromFramePeer.java:66-73 | while the frame asks for more, every message goes to it whole: only byte calls, carrying exactly the messages' bytes, and the frame stays active |
| FrameDecoder.FeedFrameEnd | java/client/src/main/java/com/vanillasource/scan/client/network/frame/physical/PhysicalFromFramePeer.java:44-73 | the message that ends the header with payload after it, then further payload: one frame start, then byte calls carrying exactly the payload |
| FrameDecoder.FeedFrame | java/client/src/main/java/com/vanillasource/scan/client/network/frame/physical/PhysicalFromFramePeer.java:27-81 | the rest of a header followed by a payload, in any chunking, while the frame asks for more: exactly one frame started with the decoded header, then only byte calls, whose bytes are exactly the payload, and the frame stays active |
| FrameDecoder.ChunkedHeaderRoundTrip | java/client/src/main/java/com/vanillasource/scan/client/network/frame/physical/PhysicalFromFramePeer.java:33-58 | for a type below 64 and a non-zero flag byte, an encoded header alone, fed in any chunking, starts one frame with the same ids, the length mod 65536 and the type in the flag's low six bits |
| FrameDecoder.ChunkedFrameRoundTrip | java/client/src/main/java/com/vanillasource/scan/client/network/frame/physical/PhysicalFromFramePeer.java:27-81 | for a type below 64 and a non-zero flag byte, an encoded header followed by a payload, fed in any chunking while the frame asks for more, starts one frame with the same ids, the length mod 65536 and the type in the flag's low six bits, and hands that frame exactly the payload |
| FrameDecoder.ZeroTypeByteInOneMessage | java/client/src/main/java/com/vanillasource/scan/client/network/frame/physical/PhysicalFromFramePeer.java:34-58 | a zero flag byte followed by the length in the same message starts a type-0 frame |
| FrameDecoder.ZeroTypeByteAcrossMessages | java/client/src/main/java/com/vanillasource/scan/client/network/frame/physical/PhysicalFromFramePeer.java:34-43 | a zero flag byte alone is forgotten, and one at the end of a message is taken for "none held", so the next message's first byte becomes the flag byte |
| FramePeerToPeer.FramePeerToPeer.Create | java/client/src/main/java/com/vanillasource/scan/client/network/network/FramePeerToPeer.java:20-22 | a new message holds no id |
| FramePeerToPeer.FramePeerToPeer.Close | java/client/src/main/java/com/vanillasource/scan/client/network/network/FramePeerToPeer.java:45-47 | only closeConnection is forwarded |
| FramePeerToPeer.OutgoingMessage.Recieve | java/client/src/main/java/com/vanillasource/scan/client/network/network/FramePeerToPeer.java:25-30 | the first part reserves the lowest free id, later parts reuse it without touching the allocator, every part is one intermediate frame with that id; with no free id nothing is sent (the source waits) |
| FramePeerToPeer.OutgoingMessage.EndWith | java/client/src/main/java/com/vanillasource/scan/client/network/network/FramePeerToPeer.java:33-40 | without an id, a single frame and the allocator untouched; with one, a last frame with that id and then the id released |
| FramePeerToPeer.PartsShareOneIdScenario | java/client/src/main/java/com/vanillasource/scan/client/network/network/FramePeerToPeer.java:25-40 | two parts and the end of one message share id 10, the id is free again afterwards, and a message ended without parts is a single frame |
| PeerToFramePeer.PeerToFramePeer.constructor | java/client/src/main/java/com/vanillasource/scan/client/network/network/PeerToFramePeer.java:14-18 | no messages stored, none created |
| PeerToFramePeer.PeerToFramePeer.MessageIntermediateFrame | java/client/src/main/java/com/vanillasource/scan/client/network/network/PeerToFramePeer.java:51-55 | a known id passes the part to its stored message; an unknown id creates a message, stores it and passes the part |
| PeerToFramePeer.PeerToFramePeer.MessageLastFrame | java/client/src/main/java/com/vanillasource/scan/client/network/network/PeerToFramePeer.java:58-67 | the id leaves the map; a stored message is ended with the payload, otherwise the payload is delivered whole |
| PeerToFramePeer.PeerToFramePeer.MessageSingleFrame | java/client/src/main/java/com/vanillasource/scan/client/network/network/PeerToFramePeer.java:70-72 | the payload is delivered and the map is untouched |
| PeerToFramePeer.PeerToFramePeer.InitiateHandshake | java/client/src/main/java/com/vanillasource/scan/client/network/network/PeerToFramePeer.java:21-23 | no state change |
| PeerToFramePeer.PeerToFramePeer.ContinueHandshake | java/client/src/main/java/com/vanillasource/scan/client/network/network/PeerToFramePeer.java:26-28 | no state change |
| PeerToFramePeer.PeerToFramePeer.CloseConnection | java/client/src/main/java/com/vanillasource/scan/client/network/network/PeerToFramePeer.java:31-33 | no state change |
| PeerToFramePeer.PeerToFramePeer.Renegotiate | java/client/src/main/java/com/vanillasource/scan/client/network/network/PeerToFramePeer.java:36-38 | no state change |
| PeerToFramePeer.PeerToFramePeer.IgnoredFrame | java/client/src/main/java/com/vanillasource/scan/client/network/network/PeerToFramePeer.java:41-43 | no state change |
| PeerToFramePeer.PeerToFramePeer.KeepAlive | java/client/src/main/java/com/vanillasource/scan/client/network/network/PeerToFramePeer.java:46-48 | no state change |
| PeerToFramePeer.InterleavedMessagesScenario | java/client/src/main/java/com/vanillasource/scan/client/network/network/PeerToFramePeer.java:51-72 | two interleaved messages reach their own message objects, both are ended, a single frame is delivered, and the map ends empty |
| CachingNetwork.CachingPhysicalNetwork.constructor | java/client/src/main/java/com/vanillasource/scan/client/network/physical/cache/CachingPhysicalNetwork.java:28-33 | no cached connections and no calls made |
| CachingNetwork.CachingPhysicalNetwork.ReceiveMulticast | java/client/src/main/java/com/vanillasource/scan/client/network/physical/cache/CachingPhysicalNetwork.java:35-37 | forwarded to the listener, nothing else changes |
| CachingNetwork.CachingPhysicalNetwork.ReceiveConnection | java/client/src/main/java/com/vanillasource/scan/client/network/physical/cache/CachingPhysicalNetwork.java:40-49 | the initiator replaces any entry for the address, a warning exactly when one existed, always forwarded to the listener |
| CachingNetwork.CachingPhysicalNetwork.SendMulticast | java/client/src/main/java/com/vanillasource/scan/client/network/physical/cache/CachingPhysicalNetwork.java:52-54 | forwarded to the delegate, the cache untouched |
| CachingNetwork.CachingPhysicalNetwork.OpenConnection | java/client/src/main/java/com/vanillasource/scan/client/network/physical/cache/CachingPhysicalNetwork.java:57-61 | a cached address answers its entry with no delegate call; otherwise the delegate opens once and its result is cached |
| CachingNetwork.CachingPhysicalNetwork.Close | java/client/src/main/java/com/vanillasource/scan/client/network/physical/cache/CachingPhysicalNetwork.java:64-66 | forwarded to the delegate, the cache untouched |
| CachingNetwork.CachingScenario | java/client/src/test/java/com/vanillasource/scan/client/network/cache/CachingPhysicalNetworkTests.java:18-37 | two opens to one host delegate once and agree, two hosts delegate twice, an open after a received connection does not delegate |
| SelectorKeys.EnableChangesOnlyTheFlag | java/client/src/main/java/com/vanillasource/scan/client/network/physical/nio/NioSelectorKey.java:22-24 | enabling sets the flag and keeps every other bit |
| SelectorKeys.DisableChangesOnlyTheFlag | java/client/src/main/java/com/vanillasource/scan/client/network/physical/nio/NioSelectorKey.java:26-28 | disabling clears the flag and keeps every other bit |
| SelectorKeys.Idempotent | java/client/src/main/java/com/vanillasource/scan/client/network/physical/nio/NioSelectorKey.java:22-36 | enabling twice is enabling once, disabling twice is disabling once |
| SelectorKeys.EnableThenDisable | java/client/src/main/java/com/vanillasource/scan/client/network/physical/nio/NioSelectorKey.java:22-36 | enable then disable clears the bit whatever its prior state, and disable then enable sets it |
| SelectorKeys.FlagsIndependent | java/client/src/main/java/com/vanillasource/scan/client/network/physical/nio/NioSelectorKey.java:22-36 | read and write interest do not affect each other |
| SelectorKeys.NioSelectorKey.EnableRead | java/client/src/main/java/com/vanillasource/scan/client/network/physical/nio/NioSelectorKey.java:22-24 | read interest on, every other bit kept |
| SelectorKeys.NioSelectorKey.DisableRead | java/client/src/main/java/com/vanillasource/scan/client/network/physical/nio/NioSelectorKey.java:26-28 | read interest off, every other bit kept |
| SelectorKeys.NioSelectorKey.EnableWrite | java/client/src/main/java/com/vanillasource/scan/client/network/physical/nio/NioSelectorKey.java:30-32 | write interest on, every other bit kept |
| SelectorKeys.NioSelectorKey.DisableWrite | java/client/src/main/java/com/vanillasource/scan/client/network/physical/nio/NioSelectorKey.java:34-36 | write interest off, every other bit kept |
| NioNetwork.Left | java/client/src/main/java/com/vanillasource/scan/client/network/physical/nio/NioPhysicalNetwork.java:170-171 | the unsent bytes never grow, and reach 0 exactly when the send wrote them all |
| NioNetwork.RemoveFirst | java/client/src/main/java/com/vanillasource/scan/client/network/physical/nio/NioPhysicalNetwork.java:138 | List.remove(peer): without the peer nothing changes; otherwise its first occurrence goes and the rest keeps its order |
| NioNetwork.RemoveFromDistinct | java/client/src/main/java/com/vanillasource/scan/client/network/physical/nio/NioPhysicalNetwork.java:133-140 | removal keeps the tracked peers distinct and removes exactly that peer |
| NioNetwork.NioPhysicalNetwork.constructor | java/client/src/main/java/com/vanillasource/scan/client/network/physical/nio/NioPhysicalNetwork.java:40-46 | read interest on the multicast key, an empty queue and no peers |
| NioNetwork.NioPhysicalNetwork.SendMulticast | java/client/src/main/java/com/vanillasource/scan/client/network/physical/nio/NioPhysicalNetwork.java:116-124 | a new pending completion, the packet at the tail of the queue, write interest on, read interest kept |
| NioNetwork.NioPhysicalNetwork.Send | java/client/src/main/java/com/vanillasource/scan/client/network/physical/nio/NioPhysicalNetwork.java:168-181 | an I/O error fails the head's completion and answers true; otherwise it succeeds and answers true exactly when no bytes remain, and a partial send leaves it pending with fewer bytes |
| NioNetwork.NioPhysicalNetwork.HandleWritable | java/client/src/main/java/com/vanillasource/scan/client/network/physical/nio/NioPhysicalNetwork.java:84-94 | only the head is attempted; it leaves the queue exactly when its completion is decided; write interest is off whenever the queue ends empty |
| NioNetwork.NioPhysicalNetwork.OpenConnection | java/client/src/main/java/com/vanillasource/scan/client/network/physical/nio/NioPhysicalNetwork.java:127-144 | the new peer is tracked at the end of the list; an I/O failure tracks nothing |
| NioNetwork.NioPhysicalNetwork.ConnectionClosed | java/client/src/main/java/com/vanillasource/scan/client/network/physical/nio/NioPhysicalNetwork.java:136-140 | closing an opened peer's wrapper closes the peer, then removes exactly that peer from the tracked list |
| NioNetwork.NioPhysicalNetwork.Close | java/client/src/main/java/com/vanillasource/scan/client/network/physical/nio/NioPhysicalNetwork.java:147-157 | every tracked peer is closed in order, then the selector, then the multicast channel |
| NioNetwork.CompletesInOrder | java/client/src/main/java/com/vanillasource/scan/client/network/physical/nio/NioPhysicalNetwork.java:85-88 | a decided completion implies every earlier one is decided: packets complete in FIFO order |
| NioNetwork.SendQueueScenario | java/client/src/main/java/com/vanillasource/scan/client/network/physical/nio/NioPhysicalNetwork.java:84-124 | two queued packets: a partial then full send succeeds the first, an I/O error fails the second, and write interest ends off |

## Left out

- `MessageIds.BitMaskMessageIds.ReserveId`: the lock and the wait for a free bit are not modelled. On a full mask the call answers no id and changes nothing. That is the state in which the source's caller waits until a release.
- `FramePeerToPeer.OutgoingMessage.Recieve`: when the allocator is full it answers `waiting` and sends nothing, for the same reason.
- `DirectMessageIds.BitMaskMessageIds.ReserveId`: does not model Java `int` overflow of `nextId + startId`, because ids are unbounded integers. The deferred `clearNotify` branch is not modelled, because `nextClearBit(0)` is never negative.
- `DirectQueryIds.QueryIds.NextQueryId`: does not model Java `int` overflow of `nextId++` after 2^31 deferred calls. The deferred retry is the answer `Deferred(n)`; the caller re-issues the call once notification `n` completes.
- `QueryIds.Step`: does not model `long` overflow of `lastIdTime + 20000`. The sleep is the `slept` flag, and the clock readings are parameters.
- `FrameEncoder.LimitedFrame.Receive`: does not model `int` overflow of `remainingLength -= bufferLength`. The completion future is the answer itself.
- `SelectorKeys.NioSelectorKey.EnableRead`: interest sets are modelled as their low byte (`bv8`). All `SelectionKey` flags lie in that byte. The same applies to `DisableRead`, `EnableWrite` and `DisableWrite`.
- `NioSelectorKey`: the hand-off to the selection thread (`onSelectionThread`) is not modelled; each change takes effect at once. The same holds for `sendMulticast`.
- `ByteBuffer` mechanics are not modelled. Buffers are byte sequences holding their intended positional content. The model is therefore the intended codec, not the written one:
  - `FrameFromPhysicalPeer` calls `header.reset()` with no mark set (`FrameFromPhysicalPeer.java:31-33`), which throws `InvalidMarkException`. It then sends the header without `flip()` (`:37`). The model takes these as "start the header over" and "send what was written".
  - `PhysicalFromFramePeer` reads the gathered header without `flip()`: `header.get(...)` and `header.getShort()` (`PhysicalFromFramePeer.java:49, 55, 58`) start at the position after the last byte written. For a 2-byte header they read zeros; for a 66-byte header they throw `BufferUnderflowException`. The following `header.reset()` (`:61`) throws `InvalidMarkException`.
  - `FrameHeader.DecodeHeader` and the decoder round-trip lemmas (`FrameDecoder.ChunkedHeaderRoundTrip`, `FrameDecoder.ChunkedFrameRoundTrip`) hold for the decoder that reads the gathered bytes from their start. The code as written does not behave this way.
- `FrameHeader.PeerId`: ids are exactly 32 bytes. The source writes whatever `byte[]` it is given (`FrameFromPhysicalPeer.java:34-35`). The decoder always reads 32 bytes per id and the header buffer holds 32 per id, so the wire format only works for 32-byte ids.
- `FrameDecoder.ChunkedFrameRoundTrip`: stated for a frame that keeps asking for more (`done` false on every message). When a frame answers done, the bytes of later messages are read as a new header. `FrameDecoder.FeedHeader` covers that for input holding only a header.
- Asynchrony is not modelled: `CompletableFuture` chaining, `thenCompose` callbacks and the `done` answer of the active frame. Each call completes in order. The frame's `done` answer is a parameter of `PhysicalFromFramePeer.Receive`.
- `VariableLengthInteger.hashCode` is not modelled separately. Maps keyed by a VarInt are keyed by its value, which is exactly what `equals` and `hashCode` depend on.
- `NioPhysicalNetwork` is not modelled beyond its queue and peer list:
  - `startWith` and `findMulticastInterface` (channel and interface set-up);
  - `handleReadable` (datagram receive with read back-pressure);
  - `handleConnectable` (empty);
  - the log message when the multicast channel fails to close.
- Real channels are not modelled. A socket send is "bytes written / I/O error", and opening a connection is "succeeds / I/O error". An opening that fails answers no peer, where the source throws `UncheckedIOException`.
- The `afterClose` wrapper from `NioPhysicalNetwork.openConnection` is not a separate object. Closing it is `NioNetwork.NioPhysicalNetwork.ConnectionClosed`, which records the peer's close and then stops tracking it. `Peer` declares no `afterClose` in this draft; the model follows the one in `physical/PhysicalPeer.java:30-43`, which closes the wrapped peer and then runs the action.
- Log output, including the `CachingPhysicalNetwork` warning, is a trace of the affected addresses.
- Not part of this model: `NioSelector`, `JobQueue`, `Lock`, `Synchronized`, `BlockingSupplier` and `NioPeer` (threads, monitors, channel plumbing); the thin adapters `DirectNetwork`, `FrameNetworkNetwork` and `PhysicalFrameNetwork`; the draft `frame/direct/FramePeerToPeer` and `frame/direct/PeerToFramePeer`; and the interfaces, beyond their role as call traces.
