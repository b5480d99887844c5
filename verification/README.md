# Verified model of the motion path

The repository drives a small robot arm: a host plans a motion, a safety kernel authorizes it, a gateway sends it as a
checksummed frame, and a microcontroller or a digital twin receives it. This project models that path from authorization
to plant in Dafny and proves what the parts promise, alone and together.

| files | what they model |
|---|---|
| `Bytes`, `Folds`, `Checksum`, `Framing`, `GoldenVectors` | fixed-width integers, CRC-16/CCITT-FALSE as polynomial division, the frame on host and firmware, shared test vectors |
| `Stream`, `Chunking`, `Traffic`, `FaultyTraffic`, `Decoder` | the resynchronising stream decoder: specification, independence of chunking, clean, noisy and damaged traffic, the class |
| `Messages`, `Telemetry` | typed payloads on host and firmware |
| `FirmwareRuntime`, `FirmwareRuns`, `FirmwareHistory`, `SerialReceiver`, `SerialNoise`, `SerialRuns`, `SerialReplies` | the controller's state machine, its runs, the byte-wise receiver in front of it, what noise does to it, runs from bytes to state, and the replies the host reads |
| `Link`, `LinkDamage`, `LinkLimits`, `Gateway`, `Device`, `Requests` | the byte channel and frame transport, both ends of the request protocol, and runs of the two over lossy channels |
| `RobotModel`, `Trajectory`, `TrajectoryBounds`, `TrajectoryShape`, `Servo`, `ServoMeaning`, `Overrun`, `DigitalTwin`, `TwinMeaning`, `TwinRuns`, `TwinStops`, `Retargeting` | joint limits, cubic trajectories, the acceleration-limited plant and its runs |
| `Numbers`, `Lifecycle`, `LifecycleHistory`, `Eligibility`, `Dynamics`, `SafetyMeaning`, `Supervisor`, `MotionPlanning` | the safety kernel, what it means in plain numbers, and what it says of planned motions |
| `Authorizations`, `EndToEnd`, `Delivery` | an authorization on its way to the pose it names |
| `ReferenceArm`, `Settling`, `SimulationRuntime`, `RuntimeStops` | the whole path composed, on the reference arm, and runs with interleaved resets |
| `AuditChain` | the audit log's hash chain |

Code that changes state is a class or a method with loops, proved against a specification function; the properties are
then proved about those functions and about runs of them. `dafny verify dfyconfig.toml` checks everything.

Conventions:

- Positions, speeds and times are reals. The square root is a parameter `root` with `root(x) >= 0` and
  `root(x) * root(x) == x` for `x >= 0` (`RobotModel.IsRoot`).
- The safety kernel compares numbers as IEEE floats do where NaN and infinities matter (`Numbers.Num`).
- An await is a step: a call that would have to wait says so, timeouts and losses are events, and the outcome of sending
  and receiving is an input where another party decides it. Locks become atomic calls.
- Attempts, stream positions, true times and the bytes ever written exist for the statements only; the protocol state has
  the widths of the program.
- Violations carry a code and what they are about. Their order follows the program's dictionaries and is left open.

Where the code does less than one might expect, the code is modelled as it is and the exact condition is proved:

- What is buffered at the end does depend on how a stream is cut (`Chunking.ResidualDependsOnChunking`): three garbage
  bytes leave nothing in one pass and one byte when cut after the second. `Chunking.ResidualDiffersExactly` says when,
  before the last byte arrives; frames and losses, that byte included, never depend on it.
- Counting unread responses does not make receipts trustworthy: a refused or lost request uses up a number without a
  response, so a single stale response can be credited after a wrap (`Requests.StaleResponseIsCredited`).
  `Requests.CreditedExactly` gives the condition, `Requests.LosslessReceiptsAreGenuine` the case where counting suffices.
- The gateway never drains a late response: once one request is given up, every later one reads an earlier one's response
  and gets no receipt (`Requests.LateResponseCostsAll`, exact condition in `Requests.ReceiptWithoutLossExactly`).
- With the transport's defaults, clean traffic can overflow the decoder and lose frames: reads of 128 bytes leave room for
  payloads up to 449 bytes, not 512 (`LinkLimits.DefaultRoom`). `LinkLimits.RoomExactly` is the general condition.
- Noise with a magic in it can cost the firmware the next frame, which the host still finds
  (`SerialNoise.ReceiversDiffer`); `SerialNoise.HarmlessExactly` says which noise costs no frame.
- A command that turns a moving joint around can carry it past a limit (`Overrun.RetargetingPassesLimit`);
  `Overrun.StaysInsideExactly` and `Retargeting.KeepsLimitsExactly` say exactly when it does not.
- The controller trusts a heartbeat age that wraps: motion can be accepted 2^32 ms after the heartbeat it relies on,
  with no look in between (`FirmwareRuns.UnwatchedControllerMoves`) or after a late reset
  (`FirmwareRuns.LateResetRevivesMotion`). `FirmwareRuns.MotionNeedsRecentHeartbeat` gives the exact condition,
  `FirmwareRuns.PunctualMotionIsRecent` a discipline that ensures it.
- A stopped twin accepts a command, and is then no longer stopped, without any reset; `TwinStops.StoppedExactly` gives
  the exact condition for staying stopped.
- `reset_estop` takes no lock, so it can fall between the two halves of a stop and leave the supervisor latched, with the
  twin free, until the next stop (`SimulationRuntime.InterleavedResetStrandsTheLatch`). A stop whose acknowledgement is
  not credited never latches the supervisor, and the next behaviour undoes it (`RuntimeStops.FailedStopIsUndone`).
  `SimulationRuntime.ResetAgreesExactly` gives the condition on the state, `RuntimeStops.AgreeExactly` the one on runs.
- The firmware telemetry encoder checks neither repeated joint ids nor the state code (`Telemetry.FirmwareReportDecodes`).

## Model

| member | source | states |
|---|---|---|
| `Checksum.Crc16CcittFalse` | src/rci/protocols/checksums.py:4-14 | the nested integer loops compute the remainder of the message polynomial modulo x^16 + x^12 + x^5 + 1, register preset to ones |
| `Checksum.AbsorbByte` | firmware/shared/protocol.h:93-102 | one pass of the outer loop: eight shift-or-shift-and-xor rounds absorb exactly the eight bits of the byte |
| `Checksum.BurstChangesCrc` | src/rci/protocols/checksums.py:4-14 | two different messages of equal length that agree outside 16 consecutive bits have different checksums |
| `Checksum.AdjacentBytesChangeCrc` | src/rci/protocols/checksums.py:4-14 | in particular when they differ only in one byte or in two neighbouring bytes |
| `Checksum.CrcKeepsParity` | src/rci/protocols/checksums.py:4-14 | the checksum has an odd number of one bits exactly when the message has |
| `Framing.DecodeInvertsEncode` | src/rci/protocols/framing.py:37-79 | decoding a byte string gives frame f if and only if the string is the encoding of f: decoder and encoder are inverse, and nothing else is accepted |
| `Framing.EncodingsArePrefixFree` | src/rci/protocols/framing.py:37-46 | no encoding is a proper prefix of another, so a concatenation of frames can be cut in one way only |
| `Framing.SingleByteCorruptionRejected` | src/rci/protocols/framing.py:49-79 | changing any one byte of a frame, wherever it is, makes it undecodable |
| `Framing.BurstCorruptionRejected` | src/rci/protocols/framing.py:49-79 | so does any change confined to 16 consecutive bits covered by the checksum |
| `Framing.AcceptedFramesAreEven` | src/rci/protocols/framing.py:49-79 | every decodable byte string has an even number of one bits |
| `Framing.OddBitErrorsRejected` | src/rci/protocols/framing.py:49-79 | flipping an odd number of bits anywhere in a frame makes it undecodable |
| `Framing.ParseFrameAgreesWithDecode` | firmware/robot/runtime.h:48-91 | the firmware parser accepts exactly the byte strings the host decoder accepts, with the same type, sequence and payload |
| `Framing.BuildFrame` | firmware/shared/protocol.h:184-208 | writes exactly the host encoding into the front of the buffer and nothing behind it; returns 0, with nothing written, exactly for the four refused argument combinations |
| `GoldenVectors.HeartbeatFrameVector` | tests/fixtures/protocol/golden_vectors.json:12-16 | the shared heartbeat frame, byte for byte up to its checksum |
| `GoldenVectors.TelemetryVector` | tests/unit/protocols/test_robot_telemetry.py:10-38 | the shared robot telemetry payload, byte for byte |
| `Stream.ParseConserves` | src/rci/protocols/stream.py:81-164 | frames as encoded, discarded bytes and the residual, in order, spell the input: every delivered frame was on the wire verbatim |
| `Stream.ParseSettles` | src/rci/protocols/stream.py:81-164 | the residual needs more input, is shorter than the buffer bound and at most 521 bytes |
| `Stream.InvalidFrameUnreachable` | src/rci/protocols/stream.py:149-159 | no pass ever reports INVALID_FRAME: after the header checks only the checksum can fail |
| `Stream.FeedAccountsForEveryByte` | src/rci/protocols/stream.py:62-164 | old buffer plus input equals frame sizes plus discarded bytes plus new buffer, for every call, overflow included |
| `Stream.FeedAllConserves` | src/rci/protocols/stream.py:62-164 | the same, as byte strings, over any list of chunks |
| `Stream.SmallChunksNeverOverflow` | src/rci/protocols/stream.py:49-79 | with the default bound no list of chunks of at most 65 bytes overflows the buffer |
| `Chunking.ParseSplit` | src/rci/protocols/stream.py:62-164 | parsing a, keeping the residual and parsing it with c behind delivers the frames of parsing a + c at once and accounts for the same losses |
| `Chunking.ChunkingDoesNotMatter` | src/rci/protocols/stream.py:62-164 | any chunks that do not overflow deliver the frames of a single pass and the same losses per kind of issue; the residual differs exactly when one garbage byte is left right after a DESYNC |
| `Chunking.ResidualDependsOnChunking` | src/rci/protocols/stream.py:88-104 | three garbage bytes cut after the second: here the residual does depend on the chunks |
| `Chunking.ResidualDiffersExactly` | src/rci/protocols/stream.py:88-104 | in terms of what is known before the last byte arrives: the residual differs from that of a single pass if and only if that byte came alone, is not an R, found an empty buffer, and the last thing reported before it was a DESYNC |
| `Traffic.CleanPrefix` | src/rci/protocols/stream.py:81-164 | any prefix of clean traffic yields the frames completed so far, no issue, and the beginning of the next frame held back |
| `Traffic.NoiseIsSkipped` | src/rci/protocols/stream.py:85-115 | noise between frames costs exactly its own bytes, reported as DESYNC, and no frame |
| `Decoder.FrameStreamDecoder.Feed` | src/rci/protocols/stream.py:62-164 | the in-place loop delivers the frames, issues and residual of the specification and conserves bytes; FaultyTraffic says on bytes what that is |
| `Decoder.FrameStreamDecoder.DecodeAll` | src/rci/protocols/stream.py:81-162 | the while loop empties the buffer down to the specified residual; the buffer length decreases in every pass |
| `Decoder.FrameStreamDecoder.DecodeFront` | src/rci/protocols/stream.py:117-162 | one pass on a buffer that starts with the magic takes the specified decision and deletes what it says |
| `Decoder.FrameStreamDecoder.Resynchronise` | src/rci/protocols/stream.py:85-115 | drops everything before the first magic, or everything but a final R |
| `FaultyTraffic.DamageIsContained` | src/rci/protocols/stream.py:81-164 | of any transmission of frames, frames that do not decode, headers that no frame has, and noise: exactly the intact frames are delivered, in order; reported are, in order, noise by its length, each corrupt frame once with its whole size and each bad header with one byte; nothing stays behind |
| `FaultyTraffic.DamageInChunks` | src/rci/protocols/stream.py:62-164 | the same frames, and the same bytes lost to each cause but DESYNC, in whatever chunks that transmission arrives |
| `FaultyTraffic.CorruptIsDropped` | src/rci/protocols/stream.py:139-148 | bytes with the size and the header of a frame that do not decode are dropped whole, as one CHECKSUM_MISMATCH |
| `FaultyTraffic.MangledIsSkipped` | src/rci/protocols/stream.py:117-138 | a magic with a header that no frame within the bound has costs one byte, as INVALID_HEADER, and the search goes on behind it |
| `FaultyTraffic.OverflowExactly` | src/rci/protocols/stream.py:62-79 | BUFFER_OVERFLOW is reported if and only if buffer and data together exceed the bound, and then all of both is lost and reported |
| `Messages.HeartbeatCodec` | src/rci/protocols/messages.py:86-104 | decode gives h if and only if h encodes to these bytes |
| `Messages.EmergencyStopCodec` | src/rci/protocols/messages.py:270-286 | the same for the emergency stop payload |
| `Messages.AcknowledgementCodec` | src/rci/protocols/messages.py:289-305 | the same for the acknowledgement payload |
| `Messages.MotionCodec` | src/rci/protocols/messages.py:195-266 | the same for the motion command, range, count and duplicate checks included |
| `Messages.MotionLayout` | src/rci/protocols/messages.py:205-227 | where each field of an encoded motion command is, and that these fields determine it |
| `Messages.EncodeMotionCommand` | src/rci/protocols/messages.py:205-227 | the encoding loop meets the specification, with the errors in the order they are raised |
| `Messages.DecodeMotionCommand` | src/rci/protocols/messages.py:230-266 | the decoding loop meets the specification, with the errors in the order they are raised |
| `Messages.ValidateMotionPayload` | firmware/robot/runtime.h:93-126 | accepts exactly the payloads the host decodes whose joint ids are all non-zero |
| `Messages.AdmittedMeans` | firmware/robot/runtime.h:93-126 | for a payload of matching length, admission is: ttl, velocity and acceleration non-zero, position mode, ids non-zero and different |
| `Telemetry.TelemetryCodec` | src/rci/protocols/messages.py:115-185 | robot telemetry decodes to t if and only if t encodes to these bytes |
| `Telemetry.EncodeRobotTelemetry` | src/rci/protocols/messages.py:124-156 | the encoding loop meets the specification, errors in order |
| `Telemetry.DecodeRobotTelemetry` | src/rci/protocols/messages.py:159-185 | the decoding loop meets the specification, errors in order |
| `Telemetry.EncodeRobotTelemetryPayload` | firmware/shared/protocol.h:148-182 | the firmware encoder writes the host layout and nothing behind it, and fails exactly for a bad count, a small buffer or a joint id 0 |
| `Telemetry.FirmwareReportDecodes` | firmware/shared/protocol.h:148-182 | the host decodes a firmware report, to the same fields, exactly if its joint ids differ and its state code is known; the firmware checks neither |
| `FirmwareRuntime.RobotRuntime.HandleFrame` | firmware/robot/runtime.h:186-232 | result and every field after a frame, as a function of the fields before, the meaning of the bytes and the clock |
| `FirmwareRuntime.RobotRuntime.HandleFresh` | firmware/robot/runtime.h:196-231 | the switch over the type of a frame that passed the sequence check: result and every field |
| `FirmwareRuntime.RobotRuntime.HandleMotion` | firmware/robot/runtime.h:215-227 | a valid motion payload: watchdog first, then readiness, then the last command id |
| `FirmwareRuntime.RobotRuntime.Tick` | firmware/robot/runtime.h:170-184 | watchdog on the wrapping 32-bit clock; the stopped state is left alone |
| `FirmwareRuntime.RobotRuntime.ManualReset` | firmware/robot/runtime.h:234-241 | succeeds exactly with the physical stop released and the heartbeat healthy at this moment |
| `FirmwareRuntime.RobotRuntime.ObservePhysicalEstop` | firmware/robot/runtime.h:163-168 | an active input stops the controller; a released one only clears the flag |
| `FirmwareRuntime.MotionMeans` | firmware/robot/runtime.h:186-227 | a byte string asks for motion if and only if it is the encoding of a host motion command without joint id 0 |
| `FirmwareRuns.EveryStateIsConsistent` | firmware/robot/runtime.h:163-241 | in every run an active physical stop implies the stopped state, and readiness implies a heartbeat seen and no physical stop |
| `FirmwareRuns.MotionAfterStopNeedsReset` | firmware/robot/runtime.h:163-241 | between a latched stop and any later accepted motion there is a successful manual reset |
| `FirmwareRuns.CorruptedFrameIsInert` | firmware/robot/runtime.h:186-190 | a frame with one changed byte changes no field, in any state |
| `FirmwareHistory.StoppedExactly` | firmware/robot/runtime.h:163-241 | in every run since power-on: stopped if and only if a stop was latched and no reset has succeeded since |
| `FirmwareHistory.ReadyExactly` | firmware/robot/runtime.h:170-241 | in every run: ready if and only if a heartbeat taken while not stopped, or a reset that succeeded, made it ready, and since then no stop came and no look at the clock found the heartbeat stale |
| `FirmwareHistory.HeartbeatExactly` | firmware/robot/runtime.h:196-212 | in every run: the heartbeat time is that of the heartbeat taken last, on the 32-bit clock |
| `FirmwareRuns.FreshIsSerialGreater` | firmware/robot/runtime.h:128-131 | freshness is the greater-than of section 3.2 of RFC 1982 with SERIAL_BITS 16, undefined pairs excluded |
| `FirmwareRuns.ReplayWindow` | firmware/robot/runtime.h:128-131 | seen from an unbounded stream position, a number counts as a replay exactly if it lies at most 0x8000 behind, modulo 2^16 |
| `FirmwareRuns.NextIsFreshExactly` | firmware/robot/runtime.h:186-194 | in every run fed by a counting sender so far in order, the next message passes the sequence check if and only if its index is 1 to 0x7FFF modulo 2^16 beyond that of the last message received |
| `FirmwareRuns.InOrderFramesAreFresh` | firmware/robot/runtime.h:186-213 | in every run fed by a counting sender that loses fewer than 32767 messages in a row, every message passes the sequence check: every stop latches and every heartbeat is taken, however often the numbers wrap |
| `FirmwareRuns.PositionTracksSequence` | firmware/robot/runtime.h:191-196 | the last sequence number is always the unbounded stream position modulo 2^16 |
| `FirmwareRuns.ReplayIsInert` | firmware/robot/runtime.h:191-193 | a frame accepted once is refused and changes nothing while the stream has moved on by at most 0x8000, across any number of wraps |
| `FirmwareRuns.ConsecutiveMotionsDiffer` | firmware/robot/runtime.h:221-227 | no two consecutive accepted motions carry the same command id |
| `FirmwareRuns.MotionNeedsRecentHeartbeat` | firmware/robot/runtime.h:170-227 | in every run with times in order, accepted motion follows an accepted heartbeat whose age is at most the timeout modulo 2^32; the last heartbeat is truly no older than the timeout if and only if it is less than 2^32 ms old |
| `FirmwareRuns.PunctualMotionIsRecent` | firmware/robot/runtime.h:170-241 | it is in every run in which a ready controller looks at the clock at least once within 2^32 ms less the timeout and no reset comes 2^32 ms or more after the last heartbeat, over any number of clock wraps |
| `FirmwareRuns.UnwatchedControllerMoves` | firmware/robot/runtime.h:170-227 | a concrete run without stop or reset: motion 2^32 ms after the only heartbeat, with no look in between, is accepted |
| `FirmwareRuns.ResetTrustsWrappedAge` | firmware/robot/runtime.h:234-241 | a reset succeeds exactly if the heartbeat age modulo 2^32 is within the timeout |
| `FirmwareRuns.LateResetRevivesMotion` | firmware/robot/runtime.h:170-184 | a concrete run: 2^32 ms after the only heartbeat a stopped controller is reset and accepts motion |
| `SerialReceiver.AcceptKeepsSound` | firmware/robot/robot.ino:52-89 | a partial frame always starts with the magic and is shorter than its announced size: the capacity branch is never taken |
| `SerialReceiver.SerialPort.IngestByte` | firmware/robot/robot.ino:52-89 | receive buffer, controller, reply bytes and reply number after one byte |
| `SerialReceiver.SerialPort.StoreByte` | firmware/robot/robot.ino:71-82 | a byte that belongs to a frame is stored, and the frame is complete exactly when the specification says so |
| `SerialReceiver.SerialPort.HandleReceived` | firmware/robot/robot.ino:82-88 | a complete frame goes to the controller with exactly its bytes, is answered under its own sequence number, and the buffer starts over |
| `SerialReceiver.SerialPort.SendAcknowledgement` | firmware/robot/robot.ino:22-50 | the reply is the encoded ACK or NACK for the dispatch result; an unparsable frame gets none and uses up no number |
| `SerialReplies.ReplyDecodes` | firmware/robot/robot.ino:22-50 | the host decodes the reply to the acknowledgement of that very request, an ACK exactly with status OK; the status is a function of the state before, of the number and the request: STALE, REJECTED or INVALID |
| `SerialReplies.OkMeansCarriedOut` | firmware/robot/runtime.h:133-149 | the status is OK if and only if the heartbeat is taken, the stop latched or the motion taken on |
| `SerialReplies.AnsweredIsServed` | firmware/robot/robot.ino:52-107 | the bytes written and the state after a received frame are those of that reply and that step; no message, no reply |
| `SerialReplies.PassesAreServed` | firmware/robot/robot.ino:52-107 | the same for whole byte streams in whatever passes |
| `SerialReplies.HostReadsReplies` | firmware/robot/robot.ino:22-50 | for whatever bytes in whatever passes: in what the controller writes the host finds exactly one reply to each message, in order, and nothing else |
| `SerialReplies.NumberAfterIs` | firmware/robot/robot.ino:22-50 | the replies are numbered one after the other, modulo 2^16 |
| `SerialReplies.ReceiptFromController` | src/rci/hardware/robot_gateway.py:238-268 | given the reply of the controller, the gateway gives a receipt if and only if it answers the outstanding number and the controller did what was asked |
| `SerialReceiver.FrameFromShort` | firmware/robot/robot.ino:52-89 | with at most one byte held, any bytes with a magic and a fitting payload length are received whole |
| `SerialReceiver.FirmwareHandles` | firmware/robot/robot.ino:52-89 | frames separated by noise that completes no frame and leaves at most one byte held are handed over exactly as transmitted |
| `SerialReceiver.ReceiversAgree` | firmware/robot/robot.ino:52-89 | on any frames separated by noise without a magic the firmware hands over exactly the transmitted encodings, and the host decodes exactly the same frames |
| `SerialReceiver.SerialPort.IngestAll` | firmware/robot/robot.ino:100-105 | the while loop receives the bytes in order and handles each completed frame, at one reading of the clock |
| `SerialReceiver.SerialPort.Loop` | firmware/robot/robot.ino:98-107 | one pass of the main loop: all bytes that are there go through the receiver, each completed frame is handled and answered in order, and the watchdog comes last |
| `SerialNoise.TakesEveryFrameExactly` | firmware/robot/robot.ino:52-89 | a receiver receives every possible next frame whole if and only if it holds at most one byte |
| `SerialNoise.HarmlessExactly` | firmware/robot/robot.ino:52-89 | every frame behind noise is received whole if and only if the noise completes no frame and leaves at most one byte held |
| `SerialNoise.ReceiversDiffer` | firmware/robot/robot.ino:71-88 | eight bytes of noise with a magic behind which the host finds every frame, while the firmware takes the first four bytes of it for the rest of another frame |
| `SerialRuns.PassesAreRun` | firmware/robot/robot.ino:98-107 | after any passes over any bytes the controller is in the state that its run of frames and watchdog ticks leads to, so that every property of runs holds of byte streams |
| `SerialRuns.PassesDoNotMatter` | firmware/robot/robot.ino:52-107 | the frames handled are those of the bytes joined, however they are spread over passes |
| `SerialRuns.EveryFrameArrives` | firmware/robot/robot.ino:52-107 | of frames separated by harmless noise and cut into passes anywhere, the controller handles each one, in order, and nothing else |
| `SerialRuns.EveryStopIsHeard` | firmware/robot/robot.ino:52-107 | if they are numbered one after the other, none is taken for a replay: every stop latches and every heartbeat is taken |
| `SerialRuns.SentStopStops` | firmware/robot/robot.ino:52-107 | if a stop request is among them the controller ends up stopped |
| `Link.MemoryChannel.Write` | src/rci/hardware/memory_transport.py:27-41 | outcome and buffer of a write; the channel never exceeds its capacity |
| `Link.MemoryChannel.Read` | src/rci/hardware/memory_transport.py:43-67 | bytes come out in order; everything written is everything read followed by the buffer |
| `Link.ProtocolTransport.ReceiveFrame` | src/rci/hardware/protocol_transport.py:57-83 | the receive loop meets its specification: queued issues first, then frames, reading until something is queued |
| `Link.ReceiveIsFifo` | src/rci/hardware/protocol_transport.py:57-83 | on clean traffic of frames that fit, each call returns the oldest frame not yet returned and waits only if there is none |
| `Link.LinkDeliversInOrder` | src/rci/hardware/protocol_transport.py:54-83 | for any interleaving of sends and receives the frames returned are a prefix of those sent and no issue is raised |
| `LinkDamage.EverythingIsHandedOut` | src/rci/hardware/protocol_transport.py:57-83 | on any traffic, however arrivals and calls interleave: frames returned and then queued, and issues raised and then queued, are those of the decoder on the bytes read, each once and in order |
| `LinkDamage.CallAccounts` | src/rci/hardware/protocol_transport.py:57-83 | one call keeps that account; it raises an issue exactly if one is there, else returns a frame exactly if one is there, and waits only with nothing left on the wire |
| `LinkDamage.DamagedLinkDelivers` | src/rci/hardware/protocol_transport.py:57-83 | a damaged transmission received to its end has returned exactly its intact frames, in order |
| `LinkLimits.RoomExactly` | src/rci/hardware/protocol_transport.py:57-83 | over all uses by clean traffic with frames up to a size: no issue is ever raised, and the frames returned are a prefix of those sent, if and only if one whole read fits into the bound behind all but one byte of the largest frame |
| `LinkLimits.TooLittleRoom` | src/rci/protocols/stream.py:62-79 | otherwise four steps of clean traffic raise an overflow, and the frames held and read are gone |
| `LinkLimits.DefaultRoom` | src/rci/hardware/protocol_transport.py:21-34 | with the default read size and the default bound: payloads of at most 449 bytes, although a frame may carry 512 |
| `Trajectory.MinimumDuration` | src/rci/robotics/trajectory.py:21-46 | the loop over the joints computes the longest of their velocity and acceleration bounds, at least 0.05 s, times the margin |
| `Trajectory.Generate` | src/rci/robotics/trajectory.py:48-92 | errors in order, and otherwise exactly the specified samples; TrajectoryShape says what they are |
| `TrajectoryBounds.TrajectoryWithinLimits` | src/rci/robotics/trajectory.py:21-92 | for any in-limit ends and any accepted duration, the slack of 1e-12 included, every sample of every joint is strictly below both strictest limits |
| `TrajectoryBounds.TrajectoryIsMonotone` | src/rci/robotics/trajectory.py:66-92 | sample times increase strictly within the duration, and every joint goes from start to target without turning back or passing it |
| `TrajectoryBounds.EndsAreExact` | src/rci/robotics/trajectory.py:66-92 | the first and last samples are exactly start and target, at rest |
| `TrajectoryShape.SamplesAreKinematic` | src/rci/robotics/trajectory.py:67-90 | between any two samples, h apart: position, velocity and acceleration are those of motion with constant jerk -12 delta / d^3, and h is the number of intervals times d / steps; with the exact ends this fixes every sample |
| `TrajectoryShape.MinimumIsLeast` | src/rci/robotics/trajectory.py:38-46 | d times the margin reaches the minimum duration if and only if d is at least 0.05 s and over d every joint peaks within both limits: 3/2 of its mean velocity, and six times the way over d^2 |
| `TrajectoryShape.StepsIsLeast` | src/rci/robotics/trajectory.py:65 | the number of intervals is the least that makes them no longer than the sample period |
| `TrajectoryBounds.SpacingWithinPeriod` | src/rci/robotics/trajectory.py:64-68 | every sample comes after the one before it, by at most the sample period |
| `Servo.StepIsGood` | src/rci/simulation/digital_twin.py:96-132 | a joint on course stays on course: speed within the limit and pointed at the target, changed by at most a dt, no overshoot, and it lands exactly or is min(v dt, a dt dt) closer |
| `Servo.StaysOnCourse` | src/rci/simulation/digital_twin.py:96-132 | from rest, after any number of steps: between start and target, and at rest on it or that many strides closer |
| `Servo.SettlesWithinBound` | src/rci/simulation/digital_twin.py:96-132 | from rest the joint is at rest exactly on target after ceil(distance / min(v dt, a dt dt)) steps |
| `ServoMeaning.StepMeans` | src/rci/simulation/digital_twin.py:95-132 | one step in plain numbers: the speed wanted can stop within the error and is as high as that and the limit allow; the new speed is it, or one step of acceleration towards it; the joint lands exactly if the target is on its way; current and landing thresholds |
| `ServoMeaning.RoundingIsNearest` | src/rci/simulation/digital_twin.py:131-142 | rounding gives the nearest integer, of two the even one |
| `Overrun.StaysInsideExactly` | src/rci/simulation/digital_twin.py:69-77 | whatever its motion when the target was set, a joint stays within its limits forever if and only if its farthest position, computed from its speed and deceleration, does |
| `Overrun.RetargetingPassesLimit` | src/rci/simulation/digital_twin.py:69-77 | a concrete case: a joint on its way to 19 and sent back to 0 passes an upper limit of 19 |
| `DigitalTwin.NameOf` | src/rci/simulation/digital_twin.py:48-48 | the name found for a protocol id is the one joint that has it, and there is none exactly if no joint has it |
| `DigitalTwin.RetargetedMeans` | src/rci/simulation/digital_twin.py:63-68 | the target loop fails exactly on an unknown id; otherwise it sets exactly the commanded joints and leaves the others |
| `DigitalTwin.DigitalTwinRobot.Accept` | src/rci/simulation/digital_twin.py:62-77 | all of the state after a command; a refused command changes nothing. The stopped state is not looked at |
| `DigitalTwin.DigitalTwinRobot.Estop` | src/rci/simulation/digital_twin.py:79-82 | targets become the positions, velocities zero |
| `DigitalTwin.DigitalTwinRobot.ResetEstop` | src/rci/simulation/digital_twin.py:84-86 | only a stopped twin becomes idle |
| `DigitalTwin.DigitalTwinRobot.Step` | src/rci/simulation/digital_twin.py:88-135 | all of the state after a step: clock, currents and every joint by its own control law; a step that is not positive is refused |
| `DigitalTwin.DigitalTwinRobot.MoveAll` | src/rci/simulation/digital_twin.py:96-132 | the loop over the joints updates the dictionaries in place to the joint-wise result |
| `DigitalTwin.DigitalTwinRobot.Report` | src/rci/simulation/digital_twin.py:137-153 | the report lists every joint in the model order with rounded centidegrees |
| `TwinMeaning.TwinStepMeans` | src/rci/simulation/digital_twin.py:88-135 | a stopped twin keeps its pose and draws 60 mA a joint; otherwise every joint follows the rule under the stricter limits and the twin is idle exactly if all had arrived; the clock advances to the nearest millisecond and saturates |
| `TwinMeaning.AcceptedMeans` | src/rci/simulation/digital_twin.py:62-77 | a command is taken if and only if every id is a joint and every joint, commanded or not, would be within its limits; then goals and limits are the commanded hundredths and nothing else but the state changes |
| `TwinMeaning.ReportMeans` | src/rci/simulation/digital_twin.py:137-153 | every joint in the model order with its own id, its position and its velocity to the nearest hundredth, and its current; clock, state, flags and supply as they are |
| `TwinRuns.SteppedIsStep` | src/rci/simulation/digital_twin.py:88-135 | a step keeps joints, targets and limits, moves each joint by its law, and ends idle exactly if no joint moved |
| `TwinRuns.JointsAreIndependent` | src/rci/simulation/digital_twin.py:97-132 | in any run each joint follows its own one-joint run |
| `TwinRuns.IdleMeansSettled` | src/rci/simulation/digital_twin.py:108-134 | a step that ends idle leaves every joint at rest exactly on its target |
| `TwinRuns.StaysBetween` | src/rci/simulation/digital_twin.py:96-132 | from rest, every joint is at every step between where it started and its target |
| `TwinRuns.StaysWithinLimits` | src/rci/simulation/digital_twin.py:96-132 | from rest and with in-limit ends, the twin never leaves the joint limits |
| `TwinRuns.TwinSettles` | src/rci/simulation/digital_twin.py:88-135 | from rest the whole twin is idle and exactly on target one step after every joint had the strides it needs |
| `TwinRuns.StoppedStays` | src/rci/simulation/digital_twin.py:92-94 | a stopped twin does not move, whatever its target |
| `TwinStops.StoppedExactly` | src/rci/simulation/digital_twin.py:62-86 | in every run of commands, stops, resets and steps: since its last stop a twin is still stopped if and only if there was no reset and no accepted command |
| `TwinStops.StoppedTwinWaits` | src/rci/simulation/digital_twin.py:62-135 | after a stop no joint moves until a command is accepted: not on a reset, a step, a further stop or a refused command |
| `Retargeting.KeepsLimitsExactly` | src/rci/simulation/digital_twin.py:88-135 | whatever its speed, a twin with targets within the limits never leaves them if and only if the farthest position of every joint is within them |
| `Retargeting.AcceptIsSafeExactly` | src/rci/simulation/digital_twin.py:62-77 | the same for the twin after any accepted command |
| `Lifecycle.SafetyLifecycleController.ObserveHeartbeatAge` | src/rci/safety/lifecycle.py:156-180 | ignored while disarmed; otherwise latches on an invalid or stale age, NaN and infinities included, or becomes healthy |
| `Lifecycle.SafetyLifecycleController.SetPhysicalEstop` | src/rci/safety/lifecycle.py:182-193 | an active input latches; a released one clears only the input |
| `Lifecycle.SafetyLifecycleController.RequestManualReset` | src/rci/safety/lifecycle.py:200-230 | clears exactly a latch with the physical stop released and the watchdog armed and healthy; the denials say why not |
| `Lifecycle.EveryStateIsCoherent` | src/rci/safety/lifecycle.py:98-230 | in every run: latched exactly with a cause, latched while the physical stop is active, healthy only if armed |
| `Lifecycle.LatchNeedsReset` | src/rci/safety/lifecycle.py:200-230 | a latch that is gone was cleared by a manual reset in a state that allowed it |
| `Lifecycle.EqualSequenceEqualState` | src/rci/safety/lifecycle.py:98-125 | two states of a run are equal if and only if their sequence numbers are |
| `LifecycleHistory.HealthyExactly` | src/rci/safety/lifecycle.py:144-180 | in every run: healthy if and only if an armed watchdog saw a heartbeat in time and no disarming and no late or invalid age came since |
| `LifecycleHistory.CausesExactly` | src/rci/safety/lifecycle.py:127-230 | in every run: the causes are those given since the last reset that was granted: stop inputs, software stops, and late or invalid ages while armed |
| `LifecycleHistory.PhysicalExactly` | src/rci/safety/lifecycle.py:182-193 | in every run: the stop input counts as active if and only if it was reported active and not released since |
| `LifecycleHistory.ArmedExactly` | src/rci/safety/lifecycle.py:144-154 | in every run: armed if and only if the watchdog was armed and not disarmed since |
| `LifecycleHistory.DenialsMean` | src/rci/safety/lifecycle.py:200-230 | each denial is given exactly for the condition that is missing |
| `Eligibility.NoViolationMeansPermitted` | src/rci/safety/eligibility.py:41-143 | no violation can be reported exactly if the pose is permitted: state allowed, model verified, every target finite and within verified limits, point in the workspace |
| `Eligibility.AssessMotionEligibility` | src/rci/safety/eligibility.py:25-143 | reports exactly the violations there are, each once, and approves if and only if the pose is permitted and no stop is active |
| `Eligibility.CheckTargets` | src/rci/safety/eligibility.py:67-100 | the loop over the targets with its continue branches reports one violation per faulty target |
| `Dynamics.NoViolationMeansWithinPolicy` | src/rci/safety/dynamics.py:45-154 | no dynamic violation can be reported exactly if ages are current, every target has bounded finite rates and no sample is for an unknown joint |
| `Dynamics.AssessDynamicMotionEligibility` | src/rci/safety/dynamics.py:23-154 | approves if and only if the pose is permitted, the policy valid and the dynamics within it; otherwise reports exactly the violations of the first stage that fails |
| `Dynamics.DynamicChecks` | src/rci/safety/dynamics.py:45-147 | against a valid policy, the violations found are exactly those there are, each once, and none exactly if the dynamics are within the policy |
| `Dynamics.CheckRate` | src/rci/safety/dynamics.py:84-147 | for one rate the two loops report exactly the missing, non-finite and excessive samples of targeted joints |
| `Supervisor.UnblockedExactly` | src/rci/safety/supervisor.py:123-125 | after being told the inputs the lifecycle allows motion exactly if it was armed and not latched before, no stop is active and the heartbeat is in time |
| `Supervisor.LatchedExactly` | src/rci/safety/supervisor.py:123-125 | after being told the inputs the lifecycle is latched exactly if it was, a stop is active, or it is armed and the heartbeat age is no number from 0 to the timeout |
| `SafetyMeaning.PermittedExactly` | src/rci/safety/eligibility.py:25-143 | permitted, in plain numbers: each target is a number within its verified bounds, each of the three coordinates a number within its own, bounds that are missing, out of order or not a number permitting nothing |
| `SafetyMeaning.BoxExactly` | src/rci/safety/models.py:126-137 | a point is in the workspace if and only if the box is verified and in order and all six bounds hold |
| `SafetyMeaning.WithinPolicyExactly` | src/rci/safety/dynamics.py:45-154 | within the policy, in plain numbers: both ages from 0 to their limits, and every targeted joint sampled between -limit and limit in velocity and in acceleration |
| `SafetyMeaning.PoseComplaintExactly` | src/rci/safety/eligibility.py:41-143 | when each static violation code is reported, and about what, in plain numbers |
| `SafetyMeaning.MotionComplaintExactly` | src/rci/safety/dynamics.py:45-147 | when each dynamic violation code is reported, and about what, in plain numbers |
| `Supervisor.MotionSafetySupervisor.Evaluate` | src/rci/safety/supervisor.py:117-171 | authorizes if and only if, in plain numbers, nothing was latched, the watchdog armed, no stop active, ages within 0 and their limits, all targets and coordinates within verified bounds and every targeted joint sampled between plus and minus each rate limit; otherwise reports exactly the complaints of the first stage that fails, as a stop exactly for a latch; the authorization carries the current sequence number, the candidate targets and the policy limits; every refusal has a violation; ESTOP_ACTIVE, HEARTBEAT_STALE, HEARTBEAT_AGE_INVALID and the final fallback do not occur |
| `Supervisor.BlockedMotionIsNoticed` | src/rci/safety/supervisor.py:157-165 | if motion is blocked at any time after an approval, the sequence number differs from the one in the authorization |
| `MotionPlanning.PlansPassRateChecks` | src/rci/robotics/controller.py:21-46 | the last sample of an accepted plan is within the simulation policy, so the rate checks never reject it |
| `MotionPlanning.PlannedMotionIsSafe` | src/rci/simulation/safety.py:18-61 | in the simulation a planned motion is authorized exactly if the lifecycle is armed and not latched and the workspace box contains the pose |
| `Authorizations.ExactProtocolInteger` | src/rci/hardware/robot_gateway.py:276-300 | returns n exactly if the value times the scale is the integer n within the range; fails for everything else, NaN and infinities included |
| `Authorizations.SortById` | src/rci/hardware/robot_gateway.py:180-180 | the same targets in strictly ascending order of joint id |
| `Authorizations.EncodeAuthorization` | src/rci/hardware/robot_gateway.py:165-209 | succeeds exactly if every joint has an id and every number an exact wire form; the command then says exactly what the authorization says, sorted by id; otherwise the error is that of a joint without wire form, or else of the first of ttl, velocity and acceleration without one |
| `EndToEnd.WireCarriesCommand` | src/rci/hardware/robot_gateway.py:144-150 | however the bytes are cut on the way, the receiver gets the one frame and decodes the very command |
| `EndToEnd.TwinTakesOver` | src/rci/simulation/digital_twin.py:62-77 | the twin accepts it, with targets exactly equal to the authorized angles, every other target unchanged, and the same limits |
| `EndToEnd.PermittedIsWithin` | src/rci/simulation/safety.py:24-34 | what the simulation supervisor permits is within the joint limits of the model |
| `EndToEnd.RoundedGoalsAreExact` | src/rci/behavior/embodiment.py:75-78 | a goal rounded to two decimals has an exact wire form exactly if that form is in range |
| `Delivery.AuthorizationReachesTwin` | src/rci/simulation/device.py:35-62 | the frame made of an authorization, its bytes cut anywhere on the way, is the one frame the device finds, and carrying it out gives the twin exactly the authorized angles and limits |
| `Delivery.AuthorizationIsCarriedOut` | src/rci/simulation/digital_twin.py:62-135 | from there a twin at rest ends idle exactly on the authorized angles, every other joint on its previous target, after as many steps as the farthest joint has strides and one more, within the limits all the way |
| `Device.AnswerSays` | src/rci/simulation/device.py:45-48 | the payload of a response decodes to the sequence number and status it was made for |
| `Device.DigitalTwinProtocolDevice.Dispatch` | src/rci/simulation/device.py:51-62 | what each request does to the twin; a refused one changes nothing |
| `Device.DigitalTwinProtocolDevice.ServeOnce` | src/rci/simulation/device.py:35-49 | one response per request, ACK exactly if it was carried out, with the request sequence number |
| `TwinMeaning.ServedExactly` | src/rci/simulation/device.py:51-62 | a request is done if and only if it is a decodable heartbeat, stop or motion, the motion one that the twin can take; then the twin is unchanged, stopped where it is, or as commanded, and after any other request it is unchanged |
| `TwinMeaning.AnswerIsTrue` | src/rci/simulation/device.py:35-49 | read by the host, the answer names the request, in an ACK with OK if and only if it could be done, else in a NACK with INVALID |
| `Gateway.RobotGateway.Request` | src/rci/hardware/robot_gateway.py:211-273 | counters, next sequence number and result for every outcome of sending and receiving |
| `Gateway.FinishedWithAnswer` | src/rci/hardware/robot_gateway.py:238-268 | against a response of the device: a receipt exactly for a request of that number that was carried out; a foreign number changes nothing |
| `Gateway.FinishedExactly` | src/rci/hardware/robot_gateway.py:238-268 | for every frame, on its bytes: a receipt if and only if it is an ACK of three bytes naming the outstanding number with status code 0; any other ACK or NACK naming it is a rejection with the status it carries; only these are counted, and every other frame changes nothing |
| `Requests.EveryWorldIsSane` | src/rci/hardware/robot_gateway.py:211-273 | in every run with losses, timeouts and refused sends: attempt k has number initial + k modulo 2^16, acknowledged plus rejected never exceeds sent, and every response answers a request that was served with that outcome |
| `Requests.CreditedExactly` | src/rci/hardware/robot_gateway.py:246-268 | a response that produces a receipt answers the outstanding request if and only if it is less than 2^16 attempts old |
| `Requests.ReceiptsAreGenuine` | src/rci/hardware/robot_gateway.py:211-273 | if no response is read 2^16 or more attempts late, every receipt stands for exactly that request carried out by the device |
| `Requests.LosslessReceiptsAreGenuine` | src/rci/hardware/robot_gateway.py:211-273 | with nothing lost it suffices that at most 2^16 requests are unserved or have their response unread |
| `Requests.ReceiptExactly` | src/rci/hardware/robot_gateway.py:235-273 | in every run, a request that reads a response gets its receipt if and only if that response was made a multiple of 2^16 attempts before and reports success |
| `Requests.ReceiptWithoutLossExactly` | src/rci/hardware/robot_gateway.py:235-273 | with nothing lost, every request reads the response of the request as many attempts before it as were given up so far; it gets a receipt if and only if that number is a multiple of 2^16 and that request was carried out |
| `Requests.LateResponseCostsAll` | src/rci/hardware/robot_gateway.py:235-273 | so once a request is given up no later one gets a receipt, stops included, until 2^16 have been given up |
| `Requests.StaleResponseIsCredited` | src/rci/hardware/robot_gateway.py:270-273 | with refused sends one unread response is enough: after a full wrap it is credited to a request the device never saw |
| `ReferenceArm.ReferenceIsValid` | configs/simulation/reference_arm.yaml:17-45 | the reference profile passes its own validation |
| `ReferenceArm.GoalsAreInHull` | src/rci/behavior/embodiment.py:24-80 | every goal of every cue and style lies in one hull of poses around home |
| `ReferenceArm.ExpressivePoses` | src/rci/behavior/embodiment.py:24-56 | the pose of every cue in degrees |
| `ReferenceArm.StylesScaleTheWay` | src/rci/behavior/embodiment.py:57-80 | a restrained motion goes half the way of the expressive one from home, a standard one three quarters; rounding to two decimals changes nothing |
| `ReferenceArm.HullFits` | src/rci/behavior/embodiment.py:79-79 | the hull is within the joint limits, so planning a goal never fails |
| `ReferenceArm.HullIsNarrow` | src/rci/behavior/embodiment.py:24-61 | no joint is more than 45 degrees apart in two poses of the hull |
| `ReferenceArm.StrictestLimits` | src/rci/simulation/safety.py:50-55 | the strictest limits of the reference arm are 35 deg/s and 90 deg/s^2 |
| `ReferenceArm.StrideOfReference` | src/rci/simulation/digital_twin.py:102-132 | at these limits and a step of 0.02 s a joint makes 0.036 degrees a step, 45 degrees in 1250 |
| `Settling.IdleInTime` | src/rci/simulation/runtime.py:137-141 | after an accepted goal of the hull the twin is idle after at most 1251 steps |
| `Settling.Settle` | src/rci/simulation/runtime.py:137-145 | the settle loop ends idle, at rest exactly on the targets, within 1251 of its 5000 steps: the budget failure is unreachable |
| `SimulationRuntime.SimulationRuntime.constructor` | src/rci/simulation/runtime.py:61-76 | starts idle and at rest in the home pose, clock at 0, with the strictest limits; the supervisor is armed and not latched |
| `SimulationRuntime.SimulationRuntime.ExecuteBehavior` | src/rci/simulation/runtime.py:103-157 | succeeds exactly if the cue has a goal, nothing is stopped and the workspace box contains the goal pose; then the twin is idle exactly on the goal and both requests were acknowledged; otherwise the twin has not changed, and only the missing goal and the safety rejection occur as errors |
| `SimulationRuntime.SimulationRuntime.EmergencyStop` | src/rci/simulation/runtime.py:159-167 | always acknowledged; afterwards twin and supervisor are both stopped, positions as before |
| `SimulationRuntime.SimulationRuntime.ResetEmergencyStop` | src/rci/simulation/runtime.py:169-174 | always succeeds between operations and leaves neither side stopped |
| `SimulationRuntime.SimulationRuntime.ReportTelemetry` | src/rci/simulation/runtime.py:85-86 | telemetry between operations always has a wire form |
| `SimulationRuntime.Authorize` | src/rci/simulation/runtime.py:107-123 | planning never fails for a goal of the hull, and the verdict depends on latch and workspace box alone |
| `SimulationRuntime.Exchange` | src/rci/simulation/runtime.py:190-202 | with the acknowledgement delivered, a request succeeds exactly if the device carried it out |
| `SimulationRuntime.GoalIsAccepted` | src/rci/simulation/runtime.py:132-135 | the twin accepts the command made from an approval and is at rest, ready to move to the goal |
| `SimulationRuntime.ReportIsEncodable` | src/rci/simulation/digital_twin.py:137-153 | a report made between operations encodes, and decodes to itself |
| `SimulationRuntime.ResetSucceeds` | src/rci/simulation/runtime.py:169-174 | from every state between operations the reset clears both sides |
| `SimulationRuntime.ResetAgreesExactly` | src/rci/simulation/runtime.py:169-174 | for any twin and supervisor the reset reports success and leaves nothing stopped if and only if both sides are stopped, with the watchdog armed and the physical stop released, or neither is |
| `SimulationRuntime.InterleavedResetStrandsTheLatch` | src/rci/simulation/runtime.py:159-174 | a reset between the two halves of a stop leaves an idle twin and a latched supervisor, which no later reset unlatches |
| `RuntimeStops.ServingNeverStops` | src/rci/simulation/digital_twin.py:62-135 | neither an accepted command nor a step takes the twin into the stopped state |
| `RuntimeStops.AgreeExactly` | src/rci/simulation/runtime.py:103-174 | in every run of behaviours, stops that are acknowledged or fail, and resets anywhere: whenever no stop is under way, twin and supervisor disagree if and only if the last stop was acknowledged with a reset between its halves (then the twin is free under a latched supervisor), or it failed under an unlatched supervisor and nothing has freed the twin since (then the twin is stopped under a supervisor that permits motion) |
| `RuntimeStops.ResetWorksExactly` | src/rci/simulation/runtime.py:159-174 | in every such run a reset then leaves nothing stopped, and says so, exactly under the same condition |
| `RuntimeStops.FailedStopIsUndone` | src/rci/simulation/runtime.py:103-167 | a concrete run: after a stop that fails, the next approved behaviour takes the twin out of the stopped state without any reset |
| `AuditChain.VerifyChain` | src/rci/audit/hash_chain.py:31-45 | accepts exactly the chains without a fault, and otherwise names the first one |
| `AuditChain.PrefixIsAccepted` | src/rci/audit/hash_chain.py:31-45 | every prefix of an accepted chain is accepted |
| `AuditChain.OnlyNextExtends` | src/rci/audit/logger.py:46-64 | an accepted chain stays accepted with an entry behind it exactly if that is the entry append makes for its content |
| `AuditChain.SameTipSameChain` | src/rci/audit/hash_chain.py:22-45 | two accepted chains with the same last hash are equal entry by entry, or two different field records with equal hashes are exhibited |
| `AuditChain.AuditLogger.Append` | src/rci/audit/logger.py:46-64 | adds one entry with this content and keeps the chain accepted |

## Left out

- HTTP API, WebSocket, dashboard, clients, CLI, YAML and JSON loading, file append and fsync: input and output.
- Forward and inverse kinematics and the sampled workspace estimate: the hand position of a pose is a parameter and the
  workspace check a box test on it.
- IEEE rounding: reals in trajectory and twin; the gateway's decimal conversion is exact arithmetic on the value.
- Task scheduling, wall-clock timeouts and locks as library objects: steps, timeout events and atomic calls stand for them.
- Event bus: its ordering is that of a library priority queue. State transition table, health aggregation, configuration
  models, gesture, voice and correlator: enumerations, thresholds and checks of single fields.
- The single-servo bench guard: a three-flag machine weaker than the controller runtime modelled here.
- Glove telemetry payload: fixed-width packing with nothing beyond the codecs modelled.
- Human-readable texts, UUID generation, timestamps and the latest-reason text: opaque or omitted; a violation keeps its
  code and subject.
- Payload validation of audit entries, their canonical JSON form and SHA-256: the hash is a parameter and the rest of an
  entry one string.
- Chunking.ChunkingDoesNotMatter: for chunks that do not overflow the buffer; an overflow discards everything buffered and
  is covered by Stream.FeedAccountsForEveryByte and FaultyTraffic.OverflowExactly.
- Link.LinkDeliversInOrder: clean traffic and no timed-out read, frames at most `largest` bytes with
  `largest - 1 + readSize` within the decoder's bound; a send is one whose bytes the channel took, and a read that times
  out is not modelled.
- LinkDamage.DamagedLinkDelivers: needs room for a largest frame and a whole read within the decoder's bound, which
  LinkLimits.RoomExactly shows to be needed already for clean traffic.
- Link.MemoryChannel.Write: a write that would wait reports so; who is woken first when space frees up is not modelled.
- FirmwareRuns.ConsecutiveMotionsDiffer: the controller remembers only the last accepted command id, so an older id can be
  accepted again under a fresh sequence number.
- Eligibility.AssessMotionEligibility: the order of the violations is not modelled.
- Eligibility.CheckTargets: the order of the violations is not modelled.
- Dynamics.AssessDynamicMotionEligibility: the order of the violations is not modelled.
- Dynamics.CheckRate: the order of the violations is not modelled, although missing samples come sorted by name.
- Link.ProtocolTransport.ReceiveFrame: a receive that times out is not modelled.
- Authorizations.EncodeAuthorization: of several joints without a wire form, which is named follows the dictionary.
- RuntimeStops.AgreeExactly: a request that fails is gone; one that stays on the link and is served in a later
  operation's turn is not modelled there.
- Settling.Settle: the reference profile and a step of 0.02 s; TwinRuns.TwinSettles is the general form.
- SimulationRuntime.SimulationRuntime.ExecuteBehavior: operations do not interleave and acknowledgements are delivered.
- Requests.EveryWorldIsSane: the link delivers frames whole or not at all; corrupted bytes are the subject of the stream
  and framing lemmas.
- SerialReceiver.SerialPort.SendAcknowledgement: Serial.write is an output sequence that accepts every byte.
