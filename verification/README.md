# Gravital Talk: a verified model of the real-time core

Gravital Talk carries voice over an unreliable, reordering datagram network. This
project models the code that has to keep order, uniqueness, recoverability and
turn-taking over unbounded runs, and proves that it does:

- **Jitter buffer** (`JitterModel.dfy`, `JitterBuffer.dfy`): the power-of-two ring with a
  wrapping cursor refines a map from unwrapped stream positions to frames; runs of that
  map deliver exactly once and in order.
- **Relay** (`Router.dfy`, `Relay.dfy`): the routing table and floor arbiter as code, and
  the UDP loop, WebSocket messages and idle collector as steps of a timed state machine.
- **Anti-replay window** (`Replay.dfy`, on `Bits.dfy`): the in-place shifted bitmap against
  an unbounded set of stream positions.
- **XOR FEC** (`Fec.dfy`, `FecChannel.dfy`): encoder and decoder, and whole streams across a
  lossy, reordering channel between them.
- **Checksum and packet codec** (`Crc16.dfy`, `CrcPeriod.dfy`, `CrcDetection.dfy`,
  `CrcCheck.dfy`, `Packet.dfy`): table-driven against bitwise and bit-serial CRC, the period of
  the register, its published check value, an exact codec, and what damage is always detected.
- **Rate limiter** (`RateLimit.dfy`): its exact quantitative bound, and eviction that cannot
  be observed.
- **Audio framing** (`Capture.dfy`, `VoicePipeline.dfy`, `Fragment.dfy`): streaming
  resampling against a closed form, optimal packet splitting, gap filling, reassembly.

Objects the program mutates are classes; each method is proved equal to an operation of a
reference model, and the theorems about whole runs are lemmas about that model.
`dafny verify dfyconfig.toml` checks everything.

## How to read the model

- Sequence numbers are 32-bit values with explicit wrap-around (`Prelude.Wrap`). Positions
  are their unwrapped counterparts, ghost in the classes.
- Machine words are numbers; `Bits.dfy` defines shifts, `|` and `^` on their binary digits.
  `sequence & mask` is the remainder by the power-of-two capacity, and `crc & 0x8000` is the
  comparison with 0x8000.
- Clock readings are parameters, in nanoseconds. A router call has one, except
  `floor_request`, which has the four of the code; whole runs of the relay give those four the
  same instant.
- `docs/packet-format.md:45` says the checksum covers header and payload; the code also
  covers the length field, and the model follows the code.
- Each public method is one atomic step.
- Rates in `Capture.dfy` are exact: `pos` is an integer number of 1/outRate steps and samples
  are reals, so rounding of the floating-point code is not part of the model.

## What turned out not to hold

- The comments and documents say each sequence is accepted once
  (`crates/gravital-talk-transport/src/session.rs:2914-2916`). A late arrival is looked up but not
  recorded, so its copies are accepted too; `Replay.LateArrivalRepeats` says exactly when.
- Floor exclusion depends on the configured session TTL: with 30 s or less the collector can
  forget the holder (`Relay.ExclusionIffTtl`). The rule that only the holder can release
  depends on it too: with such a TTL another speaker's release is accepted
  (`Relay.OnlyHolderReleases`, `Relay.StrangerReleases`).
- FEC recovers a single loss only when the group starts at a multiple of the window and does
  not wrap inside (`FecChannel.RecoversIffAligned`); the encoder does not enforce it, and in
  rooms an arbitrary offset is added to the base
  (`crates/gravital-talk-transport/src/session.rs:3037-3049`).
  `FecChannel.UnalignedLossNotRecovered` loses a frame of a window of four on base 1.
- After a whole lap of silence the decoder may still be on the base that comes back. Then the
  loss is recovered only if the old group lacked the same frame (`FecChannel.RecoversIffAligned`);
  with several frames missing, old ones can stand in and what is recovered is right exactly when
  they XOR to what they replace (`FecChannel.RecoveredOverPrior`). Any shorter silence is
  harmless (`FecChannel.ShortSilence`).
- A parity that arrives right after a packet of another group recovers nothing and makes the
  decoder forget that packet (`FecChannel.LateParityForgets`).
- With channel counts whose sample group does not divide 1156 bytes, `send_raw` can produce
  a piece over the limit (`VoicePipeline.FitsIffGroupsFillPacket`), and the channel count is
  not checked: three channels cut two full packets into pieces of 1158 bytes
  (`VoicePipeline.ThreeChannelsOverLimit`).
- `MAX_PAYLOAD_SIZE` leaves no room for the length and checksum: a payload makes a packet
  within `DEFAULT_MTU` if and only if it is at least four bytes shorter
  (`Packet.FitsMtuIff`, `Packet.LargestPacketOverMtu`). The session encodes audio into a buffer
  of the configured MTU (`crates/gravital-talk-transport/src/session.rs:2607-2608`), so by
  default pieces of raw PCM of 1153 to 1156 bytes are refused after `send_raw` accepted
  them. `VoicePipeline.SplitFitsMtuIff` says for which frames; a mono frame of 2312 bytes is
  one (`VoicePipeline.MonoFrameOverMtu`).
- A delivered frame is accepted again when it is half the sequence space old and the jitter
  buffer is empty (`JitterModel.DeliveredNotAcceptedAgain` gives the exact condition).
- The automatic release inside `floor_request` (`crates/gravital-talk-relay/src/router.rs:291-300`)
  runs only when the holder's 30 s pass between the two clock readings around it, and the
  request is then granted (`Router.Router.RequestFloor`); at any other time a floor past its
  time already counts as free.

## Model

| member | source | states |
|---|---|---|
| `JitterModel.ExactlyOnceDelivery` | crates/gravital-talk-transport/src/jitter_buffer.rs:119-240 | In every run of pushes, pops and deadline pops, each accepted position is either still pending with the payload last pushed for it, or was delivered exactly once with that payload |
| `JitterModel.EveryFrameAccounted` | crates/gravital-talk-transport/src/jitter_buffer.rs:119-258 | In every run, explicit skips included, an accepted position has exactly one fate: pending, delivered once with its last payload, or discarded once by a cursor advance; nothing never accepted is pending or delivered |
| `JitterModel.DeliveriesStrictlyIncrease` | crates/gravital-talk-transport/src/jitter_buffer.rs:207-240 | Delivered positions increase strictly over the whole run, through 32-bit wrap-around and resynchronisation, and each frame carries the wire sequence of its position |
| `JitterModel.NothingLostWithoutSkip` | crates/gravital-talk-transport/src/jitter_buffer.rs:188-240 | No run without an explicit skip ever discards a buffered frame |
| `JitterModel.DeadlineLosesNothing` | crates/gravital-talk-transport/src/jitter_buffer.rs:232-240 | When nothing can be popped, an expired deadline moves the cursor and keeps every buffered frame |
| `JitterModel.SkipToAvailableLosesOnlyTheCursor` | crates/gravital-talk-transport/src/jitter_buffer.rs:188-203 | Called directly, the skip discards the frame at the cursor, if any, and no other, and lands on the nearest pending frame after it, or one position on if there is none |
| `JitterModel.StepsThatWait` | crates/gravital-talk-transport/src/jitter_buffer.rs:188-247 | A pop, or a timed pop before its deadline, delivers exactly when the frame at the cursor is there and otherwise changes nothing; an expired deadline lands on the nearest pending frame; before the first frame nothing but a push changes the buffer |
| `JitterModel.LateFrameStillPlays` | crates/gravital-talk-transport/src/jitter_buffer.rs:119-240 | On every run that lacks the frame at the cursor, after any number of pops and unexpired timed pops that frame is still accepted and is what the next pop delivers |
| `JitterModel.ProgressOnEveryRun` | crates/gravital-talk-transport/src/jitter_buffer.rs:188-240 | On every run that leaves a frame pending, one expired deadline and one pop deliver the pending frame nearest to the cursor, however long the burst lost before it |
| `JitterModel.DeliveredNotAcceptedAgain` | crates/gravital-talk-transport/src/jitter_buffer.rs:119-151 | On every run, a sequence already delivered and pushed again less than a lap later is rejected if and only if the cursor is less than half the sequence space past it, or frames are pending and it lies beyond the window |
| `JitterModel.ReorderedBurstDelivered` | crates/gravital-talk-transport/src/jitter_buffer.rs:119-227 | Frames of the next positions arriving in any order, with repetitions, are popped in stream order, each with the payload that arrived last |
| `JitterModel.ResumesAfterCut` | crates/gravital-talk-transport/src/jitter_buffer.rs:128-151 | With the buffer empty, a frame beyond the window (up to half the sequence space ahead) is accepted and is the next one delivered |
| `JitterModel.RunKeepsWindow` | crates/gravital-talk-transport/src/jitter_buffer.rs:119-258 | In every reachable state all pending frames lie in the window that starts at the cursor |
| `JitterBuffer.JitterBuffer.OccupiedSlotInWindow` | crates/gravital-talk-transport/src/jitter_buffer.rs:46-52 | Every occupied ring slot holds the sequence of one window position congruent to the slot index, and that position is pending with the same frame |
| `JitterBuffer.JitterBuffer.Push` | crates/gravital-talk-transport/src/jitter_buffer.rs:119-168 | The ring push, with wrapping distances, resynchronisation and slot indexing, is the push of the position map |
| `JitterBuffer.JitterBuffer.Store` | crates/gravital-talk-transport/src/jitter_buffer.rs:153-167 | The slot write always succeeds: the collision rejection is unreachable inside the window |
| `JitterBuffer.JitterBuffer.HasPending` | crates/gravital-talk-transport/src/jitter_buffer.rs:172-176 | The scan over slots finds an occupied one exactly when the position map is not empty |
| `JitterBuffer.JitterBuffer.Pop` | crates/gravital-talk-transport/src/jitter_buffer.rs:207-227 | The ring pop is the pop of the position map |
| `JitterBuffer.JitterBuffer.Skip` | crates/gravital-talk-transport/src/jitter_buffer.rs:244-257 | Clearing slots modulo the capacity, even more often than there are slots, drops exactly the positions skipped |
| `JitterBuffer.JitterBuffer.SkipToAvailable` | crates/gravital-talk-transport/src/jitter_buffer.rs:188-203 | The forward search finds the first pending position of the window |
| `JitterBuffer.JitterBuffer.PopWithDeadline` | crates/gravital-talk-transport/src/jitter_buffer.rs:232-240 | The timed pop is that of the position map |
| `JitterBuffer.JitterBuffer.Reset` | crates/gravital-talk-transport/src/jitter_buffer.rs:80-91 | The ring stands for the empty map again |
| `Relay.ExclusionIffTtl` | crates/gravital-talk-relay/src/router.rs:239-340 | On all clocked runs two grants of a session without an accepted release between them are more than 30 s apart, if and only if the session TTL exceeds 30 s (or no session can exist) |
| `Relay.ExclusionAboveHold` | crates/gravital-talk-relay/src/udp.rs:84-137 | For every TTL above 30 s that exclusion holds on every run, idle eviction included |
| `Relay.ForgottenHolderGrants` | crates/gravital-talk-relay/src/router.rs:239-260 | For every TTL of at most 30 s there is a run that grants the floor twice within 30 s with no release |
| `Relay.OnlyHolderReleases` | crates/gravital-talk-relay/src/router.rs:239-340 | On all clocked runs the first release accepted within 30 s of a grant is sent by the holder, if and only if the session TTL exceeds 30 s (or no session can exist) |
| `Relay.StrangerReleases` | crates/gravital-talk-relay/src/router.rs:239-340 | For every TTL of at most 30 s there is a run in which another speaker's release is accepted within 30 s of a grant |
| `Relay.DeniedOnlyWhileHeld` | crates/gravital-talk-relay/src/router.rs:279-317 | A floor message is denied only when the floor was granted at most 30 s before and not released since |
| `Relay.FloorIsTraced` | crates/gravital-talk-relay/src/router.rs:239-340 | On every run the floor of a session is the sender and time of its last grant, unless a release was accepted or the session was gone since |
| `Relay.RequestAnswered` | crates/gravital-talk-relay/src/router.rs:279-317 | On every run a floor request is granted if and only if its sender has a place in the session and the floor is unheld or granted more than 30 s before, denied if and only if it has a place and the floor is not free |
| `Relay.ReleaseAnswered` | crates/gravital-talk-relay/src/router.rs:320-340 | On every run a release in an existing session is accepted if and only if its sender holds the floor, or the floor is unheld or granted more than 30 s before, and otherwise denied |
| `Relay.HolderHandsOver` | crates/gravital-talk-relay/src/router.rs:279-340 | The holder's release is accepted, and the next request of any peer of the session is granted |
| `Relay.JoinsExactly` | crates/gravital-talk-relay/src/router.rs:173-236 | On every run, after a packet that is not a floor release its sender is a peer of the session if and only if it was one, or there was room for it; earlier peers stay, nobody else joins, no other session changes, and the session is stamped |
| `Relay.OutputsExact` | crates/gravital-talk-relay/src/udp.rs:84-148 | On every run each event sends exactly what it must, once each: the grant to the sender and the news to the other peers, a denial to the sender of a request, a release to the other peers, an ordinary packet to the other peers of a registered sender, and nothing else |
| `Relay.ReachableTablesSound` | crates/gravital-talk-relay/src/router.rs:173-340 | In every reachable state peers are pairwise non-matching and at most max(1, limit), sessions are within their limit, the gauge equals the table size, and a floor holder is a registered UDP peer with a grant time |
| `Relay.NoTrafficToStrangers` | crates/gravital-talk-relay/src/udp.rs:84-148 | Every message sent out goes to an endpoint that has itself sent a packet of that session |
| `Relay.BroadcastExact` | crates/gravital-talk-relay/src/router.rs:182-220 | An ordinary session packet is forwarded to exactly the other peers of its session, once each, and only if its sender is registered |
| `Relay.UdpStep` | crates/gravital-talk-relay/src/udp.rs:28-149 | One turn of the receive loop changes the router and sends messages as the step function of the run model says |
| `Relay.StepKeepsHeld` | crates/gravital-talk-relay/src/router.rs:75-83 | Within 30 s of a grant and for any TTL, no event grants the floor again, an accepted release is the holder's, and any other event takes the floor if and only if it is the collector finding the session idle for the TTL |
| `Router.Router.RouteDatagram` | crates/gravital-talk-relay/src/router.rs:173-236 | Registration, broadcast list and the three rejections, with the activity stamp and the gauge |
| `Router.Router.Evict` | crates/gravital-talk-relay/src/router.rs:239-260 | The retain loops keep exactly the recently active sessions with an open peer, and the count returned is the shrinkage |
| `Router.Router.RequestFloor` | crates/gravital-talk-relay/src/router.rs:279-317 | With its four clock readings: grants to a registered UDP peer exactly when the floor is free at the third, stamped with the fourth; the automatic release runs if and only if the holder's time ends between the first two, and then the request is granted |
| `Router.Router.ReleaseFloor` | crates/gravital-talk-relay/src/router.rs:320-340 | Accepts the holder, or anyone once the floor is free |
| `Router.RouteKeeps` | crates/gravital-talk-relay/src/router.rs:173-236 | Routing keeps the table invariant |
| `Router.EvictKeeps` | crates/gravital-talk-relay/src/router.rs:239-260 | Eviction keeps the table invariant |
| `Router.RouteExact` | crates/gravital-talk-relay/src/router.rs:173-236 | Who is in the session afterwards, and which of the three decisions is returned: dropped if and only if the sender did not get in, registered if and only if it is alone |
| `Router.EvictExact` | crates/gravital-talk-relay/src/router.rs:239-260 | A session survives if and only if it was heard within the age and has an open peer; it keeps exactly its open peers, its floor and its stamp |
| `Replay.NoReplay` | crates/gravital-talk-transport/src/replay.rs:53-90 | In every run, a sequence that became the newest is rejected when repeated, until the stream has advanced more than 2^31 past it; below a full turn it is accepted again exactly then |
| `Replay.EveryVerdict` | crates/gravital-talk-transport/src/replay.rs:53-90 | In every run an arrival is accepted if and only if it moves the window on (the first always does), or lies inside the window at a position no earlier arrival made the newest |
| `Replay.RecordedAreNewest` | crates/gravital-talk-transport/src/replay.rs:53-90 | The window remembers a position if and only if some arrival of the run made it the newest |
| `Replay.LateArrivalRepeats` | crates/gravital-talk-transport/src/replay.rs:84-89 | In every run, a late arrival that was accepted is accepted again exactly while it is inside the 4096-wide window (or more than 2^31 behind) |
| `Replay.LateDuplicateAccepted` | crates/gravital-talk-transport/src/replay.rs:84-89 | A reordered packet and its copy are both accepted, against the promise that each sequence is accepted once |
| `Replay.VerdictIsUnbounded` | crates/gravital-talk-transport/src/replay.rs:53-90 | Within half the sequence space either way the verdict is that of an unbounded memory of the positions that became the newest |
| `Replay.VerdictAtPosition` | crates/gravital-talk-transport/src/replay.rs:53-90 | For any position less than a turn behind the newest, the exact verdict and whether it advances the window |
| `Replay.ReplayWindow.CheckAndMark` | crates/gravital-talk-transport/src/replay.rs:53-90 | The bitmap code returns the verdict of the set model and keeps mirroring it, through shifts, large jumps and wrap-around |
| `Replay.ReplayWindow.ShiftMarks` | crates/gravital-talk-transport/src/replay.rs:106-134 | Shifting the 64 words is a shift of the 4096-bit window: new mark k is old mark k - n, or clear |
| `Replay.ReplayWindow.ShiftWords` | crates/gravital-talk-transport/src/replay.rs:117-133 | The in-place descending loop computes every word from words not yet overwritten |
| `Replay.ShiftedWordBits` | crates/gravital-talk-transport/src/replay.rs:117-133 | Digit by digit, the two-word funnel shift carries marks across word boundaries |
| `FecChannel.StreamRecovery` | crates/gravital-talk-transport/src/fec.rs:52-197 | Over any stream of aligned groups, through wrap-around, with any order and repetition inside each group and any number of groups lost whole (short of a lap of silence that returns on the same base), a single loss is recovered exactly and zero-padded to the longest frame; no loss, two or more losses, or a lost parity recover nothing |
| `FecChannel.EveryFrameReaches` | crates/gravital-talk-transport/src/fec.rs:121-197 | In any such stream, of a group with at most one frame lost and its parity delivered every frame reaches the receiver, received or recovered with zeros after its own bytes, whatever is lost of the other groups |
| `FecChannel.RecoversIffAligned` | crates/gravital-talk-transport/src/fec.rs:121-197 | From every state of the decoder, a single loss is recovered, with its own bytes, if and only if the group starts at a multiple of the window, its sequences do not wrap inside it, and the decoder does not already hold a frame in the lost one's place on the same base |
| `FecChannel.UnalignedRecoversNothing` | crates/gravital-talk-transport/src/fec.rs:121-149 | A group that is not aligned, or wraps inside, gets nothing from its parity, whatever arrives of it, from a decoder on another group or once a frame of it was assigned elsewhere |
| `FecChannel.UnalignedLossNotRecovered` | crates/gravital-talk-transport/src/fec.rs:121-149 | With the default window on base 1, one frame lost and everything else delivered in order, nothing is recovered |
| `FecChannel.ShortSilence` | crates/gravital-talk-transport/src/fec.rs:142-149 | Groups lost whole are harmless while the silence is shorter than a lap of the sequence space: the next group heard has another base |
| `FecChannel.OutcomeOverPrior` | crates/gravital-talk-transport/src/fec.rs:121-197 | From every state of the decoder, the parity of an aligned group gives a frame back if and only if exactly one slot is neither arrived nor held from before on the same base |
| `FecChannel.RecoveredOverPrior` | crates/gravital-talk-transport/src/fec.rs:142-197 | That frame takes the place of the empty slot, and is the lost one if and only if the older frames standing in have the column XOR of those they replace |
| `FecChannel.LapOfSilenceDefeats` | crates/gravital-talk-transport/src/fec.rs:142-149 | Back on the base of an old group that was complete, nothing is recovered |
| `FecChannel.AnyOrderRecovery` | crates/gravital-talk-transport/src/fec.rs:121-197 | For packets of aligned groups arriving in any order, repeated, lost or across group boundaries, each parity gives back exactly the single frame missing among those of its group heard since the last packet of another group, and nothing when none or several are |
| `FecChannel.LateParityForgets` | crates/gravital-talk-transport/src/fec.rs:142-149 | A parity right after a packet of another group recovers nothing and leaves the decoder without frames |
| `FecChannel.StreamsStayAligned` | crates/gravital-talk-transport/src/fec.rs:121-125 | The first n groups of a stream that starts on a boundary are all aligned if and only if the window divides 2^32 or they end before the sequence wraps |
| `FecChannel.SendGroupParity` | crates/gravital-talk-transport/src/fec.rs:52-79 | The encoder emits exactly one parity per window, on its last frame, carrying the base of the group |
| `FecChannel.GroupRecovery` | crates/gravital-talk-transport/src/fec.rs:121-197 | The outcome of one aligned group, from any earlier decoder state on another group |
| `FecChannel.RecoveredIsPadded` | crates/gravital-talk-transport/src/fec.rs:183-196 | Parity XOR the frames present is the lost frame padded with zeros |
| `Fec.FecEncoder.Push` | crates/gravital-talk-transport/src/fec.rs:52-79 | The running buffer is the column-wise XOR of the frames of the group, as long as the longest |
| `Fec.FecDecoder.PushData` | crates/gravital-talk-transport/src/fec.rs:121-137 | The frame is stored at its offset of the group it starts or joins; the rejection is unreachable |
| `Fec.FecDecoder.PushParity` | crates/gravital-talk-transport/src/fec.rs:142-149 | Recovers the one missing frame of the group, or nothing |
| `Fec.FecDecoder.TryRecover` | crates/gravital-talk-transport/src/fec.rs:167-197 | The scan and XOR loops compute the recovery of the single missing frame |
| `Fec.XorInto` | crates/gravital-talk-transport/src/fec.rs:218-223 | XORs the data into the accumulator, cut to its length |
| `Packet.DamageRejected` | crates/gravital-talk-core/src/packet.rs:55-90 | Any nonzero error confined to 16 consecutive bits of an encoded packet, any odd number of flipped bits, and any two flipped bits make decoding fail |
| `Packet.FewFlipsRejected` | crates/gravital-talk-core/src/packet.rs:55-90 | One, two or three flipped bits of an encoded packet always make decoding fail |
| `Packet.FourFlipsAccepted` | crates/gravital-talk-core/src/packet.rs:55-90 | Four do not: in every packet of at least three payload bytes, four flipped payload bits make the decoder accept another payload |
| `Packet.RoundTrip` | crates/gravital-talk-core/src/packet.rs:55-90 | Decoding an encoded packet returns its header and payload for the current version, and a version error for any other |
| `Packet.Reencodes` | crates/gravital-talk-core/src/packet.rs:55-90 | Any buffer the decoder accepts is byte for byte the encoding of what it returned |
| `Packet.AcceptsExactlyEncodings` | crates/gravital-talk-core/src/packet.rs:55-90 | The decoder accepts the encodings of valid packets and nothing else |
| `Packet.Decode` | crates/gravital-talk-core/src/packet.rs:55-90 | The table-driven decoder, with its checks in order and its three-pass checksum, is the reference decoder |
| `Packet.ComputeChecksum` | crates/gravital-talk-core/src/packet.rs:96-103 | Three passes equal one checksum of the concatenation |
| `Packet.Encode` | crates/gravital-talk-core/src/packet.rs:158-194 | Writes the packet at the front of the caller's buffer and leaves the rest; on each of the two errors the buffer is untouched |
| `Packet.FaultsNamed` | crates/gravital-talk-core/src/packet.rs:55-90 | Each fault has its error: another magic byte, version, reserved byte, length byte or checksum byte in an encoded packet, or a buffer cut below the minimum |
| `Packet.OversizeNamed` | crates/gravital-talk-core/src/packet.rs:75-77 | A packet well formed but for a payload over the limit is refused for that |
| `Packet.HeaderFields` | crates/gravital-talk-core/src/header.rs:153-171 | The place of every header field |
| `Packet.BigEndianAt` | crates/gravital-talk-core/src/header.rs:165-169 | Byte i of an n-byte field is the value divided by 256^(n - 1 - i), modulo 256 |
| `Packet.EncodeHeader` | crates/gravital-talk-core/src/header.rs:153-171 | Writes the 24-byte big-endian layout |
| `Packet.FitsMtuIff` | crates/gravital-talk-core/src/packet.rs:158-166 | An accepted payload makes a packet within the default MTU if and only if it is at least four bytes under the payload limit |
| `Packet.LargestPacketOverMtu` | crates/gravital-talk-core/src/constants.rs:18-22 | The largest accepted payload does not fit the default MTU |
| `Packet.HeaderRoundTrip` | crates/gravital-talk-core/src/header.rs:90-148 | The header decoder reads back what was encoded, whatever follows it |
| `Packet.HeaderReencodes` | crates/gravital-talk-core/src/header.rs:90-148 | An accepted header re-encodes to the 24 bytes it came from |
| `Crc16.BuildTable` | crates/gravital-talk-core/src/checksum.rs:19-37 | The nested loops fill the table with eight clocks of each byte |
| `Crc16.CrcStep` | crates/gravital-talk-core/src/packet.rs:106-117 | The table-driven loop computes the bitwise checksum register |
| `Crc16.CrcTable` | crates/gravital-talk-core/src/checksum.rs:53-60 | The table-driven checksum is the bitwise one |
| `CrcCheck.CheckValues` | crates/gravital-talk-core/src/checksum.rs:98-111 | The checksum of nothing is 0xFFFF, of "A" 0xB915, and of "123456789" the published 0x29B1 |
| `Crc16.CrcTwoSegments` | crates/gravital-talk-core/src/checksum.rs:68-79 | Two segments give the checksum of their concatenation |
| `Crc16.TableStep` | crates/gravital-talk-core/src/checksum.rs:53-60 | Shifting a byte out and adding the table entry equals eight clocks of the register |
| `CrcDetection.CodeWordsFarApart` | crates/gravital-talk-core/src/checksum.rs:19-79 | No two distinct code words of one length differ only inside 16 consecutive bits, in an odd number of bits, or in two bits whose distance is not a multiple of 32767 |
| `CrcDetection.TwoFlipsUnnoticedIff` | crates/gravital-talk-core/src/checksum.rs:19-79 | Two flipped bits of a code word of any length leave a code word if and only if their distance is a multiple of 32767 |
| `CrcDetection.GeneratorUnnoticed` | crates/gravital-talk-core/src/checksum.rs:13-37 | The guarantees are tight: the generator's own four bits within seventeen, flipped anywhere in any message, never change its checksum |
| `CrcDetection.GeneratorHasFourBits` | crates/gravital-talk-core/src/checksum.rs:13 | After its first bit that error has three more, after 3, 6 and 4 clear ones: x^16 + x^12 + x^5 + 1 |
| `CrcPeriod.ReturnsIff` | crates/gravital-talk-core/src/checksum.rs:19-37 | Clocked from 1 without input, the register is back at 1 exactly after the multiples of 32767 clocks |
| `CrcPeriod.ClocksAreShifts` | crates/gravital-talk-core/src/checksum.rs:26-32 | The sixteen flip-flops hold the digits of the code's register after any number of clocks |
| `CrcPeriod.SquaredIsTwice` | crates/gravital-talk-core/src/checksum.rs:26-32 | A fixed digit-by-digit formula takes the state after n clocks to the state after 2n |
| `CrcDetection.CrcIsBitSerial` | crates/gravital-talk-core/src/checksum.rs:19-37 | The bytewise checksum is the bit-serial register fed most significant bit first |
| `CrcDetection.CrcLinear` | crates/gravital-talk-core/src/checksum.rs:19-37 | The register is linear in its start value and the message |
| `CrcDetection.BurstChangesRegister` | crates/gravital-talk-core/src/checksum.rs:19-37 | A nonzero burst of at most 16 bits, wherever it lies, leaves the register nonzero |
| `CrcDetection.RegisterKeepsParity` | crates/gravital-talk-core/src/checksum.rs:13-37 | The register keeps the parity of all bits fed to it |
| `RateLimit.RateBound` | crates/gravital-talk-relay/src/rate_limit.rs:46-82 | For any interleaving of addresses, one address gets at most (k + 1) * limit - 1 packets through in any half-open interval of k >= 1 whole seconds |
| `RateLimit.OneSecondBound` | crates/gravital-talk-relay/src/rate_limit.rs:46-82 | Fewer than twice the limit in any one second |
| `RateLimit.BoundAttained` | crates/gravital-talk-relay/src/rate_limit.rs:57-70 | For every limit and every k >= 1, explicit traffic that straddles the window edges gets (k + 1) * limit - 1 packets through in k seconds |
| `RateLimit.DenialJustified` | crates/gravital-talk-relay/src/rate_limit.rs:64-69 | A packet is refused only if `limit` packets of its address went through within the second before it |
| `RateLimit.ZeroLimitAllowsAll` | crates/gravital-talk-relay/src/rate_limit.rs:46-50 | A limit of zero lets everything through |
| `RateLimit.StaleWindowsLeave` | crates/gravital-talk-relay/src/rate_limit.rs:52-56 | With 10000 addresses or more, a call leaves no window that was 10 s old when it began |
| `RateLimit.EvictionUnobservable` | crates/gravital-talk-relay/src/rate_limit.rs:52-81 | On every run the evicting limiter decides exactly as one that never evicts |
| `RateLimit.RateLimiter.Allow` | crates/gravital-talk-relay/src/rate_limit.rs:46-82 | One call, with its two clock readings, is the step of the run model |
| `Capture.CaptureAdapter.Push` | crates/gravital-talk-io/src/voice.rs:120-144 | Sample by sample, what has been emitted is always the closed-form resampling of the mono mix of all samples so far; frames already offered never change |
| `Capture.CaptureAdapter.Interpolate` | crates/gravital-talk-io/src/voice.rs:131-141 | The phase loop ends and emits exactly the interpolated samples that fall in the new group |
| `Capture.CaptureAdapter.Emit` | crates/gravital-talk-io/src/voice.rs:146-155 | Frames are cut at exactly the frame size, and offered frames plus the partial one are the emitted stream |
| `Capture.CaptureAdapter.RateKept` | crates/gravital-talk-io/src/voice.rs:120-155 | After n complete groups exactly ceil(n * out / in) samples have been emitted, in as many whole frames as they fill |
| `Capture.CountIsExact` | crates/gravital-talk-io/src/voice.rs:131-141 | Output sample k exists exactly when its position k * in / out lies inside the input |
| `Capture.LerpBetween` | crates/gravital-talk-io/src/voice.rs:137 | Interpolated samples start at the previous group and never leave the interval between the two groups |
| `Capture.LerpSteps` | crates/gravital-talk-io/src/voice.rs:137 | Equal phase steps make equal increments |
| `Capture.ExactOnGroups` | crates/gravital-talk-io/src/voice.rs:126-141 | An output sample that falls exactly on an input position is the group that ended there, silence before the first; at equal rates groups pass through |
| `Capture.MonoIsMean` | crates/gravital-talk-io/src/voice.rs:120-125 | Each group of the mix is the mean of its own channel samples |
| `Capture.QuantizeExact` | crates/gravital-talk-io/src/voice.rs:147 | Conversion to 16 bits clips to full scale, loses less than one unit toward zero and is odd |
| `Capture.ResampledGrows` | crates/gravital-talk-io/src/voice.rs:120-144 | Later input never changes samples already produced |
| `Capture.SecondForSecond` | crates/gravital-talk-io/src/voice.rs:131-141 | Any whole number of seconds of input makes exactly as many seconds of output, for all rates |
| `VoicePipeline.SendRaw` | crates/gravital-talk-ffi/src/voice.rs:284-297 | A frame within the limit goes whole, the empty one included; otherwise the pieces concatenate to it, all but the last have the chosen size and none is empty or exceeds it; with one or two channels every piece fits the limit and a nonempty frame makes ceil(len / limit) pieces |
| `VoicePipeline.SendChunks` | crates/gravital-talk-ffi/src/voice.rs:293-295 | The loop cuts consecutive pieces of the given size until nothing is left |
| `VoicePipeline.SplitOptimal` | crates/gravital-talk-ffi/src/voice.rs:284-297 | For every frame but the empty one, when sample groups fill a packet exactly (mono and stereo), pieces are cut at group boundaries, fit the limit, and number ceil(len / limit) |
| `VoicePipeline.ChunkSizeOptimal` | crates/gravital-talk-ffi/src/voice.rs:289-292 | The size chosen is a whole number of sample groups within the limit and makes no more pieces than the limit itself |
| `VoicePipeline.ChunkSizeLeast` | crates/gravital-talk-ffi/src/voice.rs:289-292 | The pieces are as even as possible: no smaller whole number of sample groups covers the frame in as few pieces |
| `VoicePipeline.NoFewerPackets` | crates/gravital-talk-ffi/src/voice.rs:284-297 | No split into packets that fit uses fewer |
| `VoicePipeline.FitsIffGroupsFillPacket` | crates/gravital-talk-ffi/src/voice.rs:289-292 | Pieces of every frame length fit if and only if the sample group divides 1156 bytes, which mono and stereo do |
| `VoicePipeline.ThreeChannelsOverLimit` | crates/gravital-talk-ffi/src/voice.rs:289-292 | Three channels: a frame of two full packets is cut into pieces of 1158 bytes, over the limit |
| `VoicePipeline.SplitFitsMtuIff` | crates/gravital-talk-ffi/src/voice.rs:284-297 | Every piece of a frame fits a packet of the default MTU if and only if the frame is at least four bytes under the limit, or is over the limit and cut into pieces that are |
| `VoicePipeline.SealedPieceFits` | crates/gravital-talk-transport/src/session.rs:2597-2608 | A sealed piece encodes into a buffer of the default MTU if and only if it is at least four bytes under the limit |
| `VoicePipeline.MonoFrameOverMtu` | crates/gravital-talk-ffi/src/voice.rs:289-292 | A mono frame of 2312 bytes is cut into two pieces of 1156, neither of which fits the default MTU |
| `VoicePipeline.GapFillingConserves` | crates/gravital-talk-ffi/src/voice.rs:322-381 | Over any increasing run of received positions, across wrap-around, at most last - first + 1 frames are played, and exactly that many if and only if no gap misses more than three |
| `VoicePipeline.OneToFourFrames` | crates/gravital-talk-ffi/src/voice.rs:322-381 | On any arrivals, including backward jumps and restarts, when the decoder does not fail one receive plays one to four frames and ends with the received one |
| `VoicePipeline.CallsForGap` | crates/gravital-talk-ffi/src/voice.rs:322-370 | A gap of up to 1000 frames is filled with at most three, the last of them recovered from the received packet and the others concealed; a larger or backward jump is not filled |
| `VoicePipeline.Receiver.Receive` | crates/gravital-talk-ffi/src/voice.rs:322-381 | The loop makes the decoder calls of the reference, in order, conceals a received frame that does not decode, and appends what the calls that succeed yield |
| `Fragment.FragmentReassembler.Insert` | crates/gravital-talk-core/src/fragment.rs:79-90 | Keeps the first payload of each index and counts filled slots; each error exactly in its case |
| `Fragment.FragmentReassembler.IsComplete` | crates/gravital-talk-core/src/fragment.rs:93-95 | Complete if and only if every index has been inserted |
| `Fragment.FragmentReassembler.Finish` | crates/gravital-talk-core/src/fragment.rs:98-112 | Returns the first payload of each index in index order, or the incompleteness error |
| `Fragment.ReassemblesAnyOrder` | crates/gravital-talk-core/src/fragment.rs:79-112 | Fragments of a frame inserted in any order and with any repetition give the frame back |
| `Fragment.HeaderLayout` | crates/gravital-talk-core/src/fragment.rs:26-33 | Index in the first two bytes, total in the next two, high byte first |
| `Fragment.HeaderRoundTrip` | crates/gravital-talk-core/src/fragment.rs:26-48 | The sub-header is read back exactly when in range, and otherwise with the error of the bound it breaks |

## Left out

- Sockets, tokio tasks, WebSocket framing, TLS, gRPC, HTTP, MQTT, STUN, UPnP and the command line: input and output plumbing; the relay model keeps only what it sends.
- Rendezvous messages: they are answered by another module and never reach the routing table, so the relay model treats them like malformed packets.
- Interleaving of threads inside one method of the jitter buffer, the router or the limiter.
- Room codes and tokens, published room events and the metrics other than the session gauge.
- Cryptography, identity, pairing and the Noise handshake: the primitives live in other libraries.
- Opus, noise suppression, biquads, the playout queue, loudness, quality estimates, congestion control and bitrate adaptation.
- The plain state tables of `session.rs` and `floor.rs`, message payload codecs and the loss bitmap of the metrics crate.
- Errors of the underlying sends: a failed `send_audio` in the middle of `send_raw`, or a frame refused by the full capture queue, is not modelled.
- Relay.UdpStep: gives all clock readings of one datagram the same instant; a delay inside one turn of the loop is not modelled.
- RateLimit.RateBound: is stated for limits of at least 1, because a limit of 0 switches the limiter off.
- Capture.CaptureAdapter.Push: does not model floating-point rounding of the mix, the phase or the interpolation.
