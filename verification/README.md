# beet-esp, verified

A Dafny model of the parts of the beet-esp firmware where bytes, queues and cells have to
agree: the ucPack serial codec and its CRC, the command and status messages of the Alvik
robot, the pipeline from the serial line to the robot's components, the request/reply bridge
between the two executors, the mDNS wire format, the WebSocket connection and the stack
high-water probe. `dafny verify dfyconfig.toml` checks all of it. Proofs that need a definition only
through its contract hide its body, which keeps each of them small; inductions are written out, none
is left to Dafny.

Code that changes state step by step is a class or a method with loops, proved equal to a
specification function; the theorems are lemmas about those functions and about runs built
from them. A specification function on its own has no row below: the row names the method
that computes it and the lemma that says what it means.

| files | what they hold |
|---|---|
| `Crc`, `ShiftRegister`, `CrcDetection`, `LengthErrors` | the checksum loop, the shift register it is, and exactly which corruptions it catches and which it does not cover |
| `UcPack`, `Resync`, `WireBytes` | encoder and streaming decoder over their buffers; resynchronisation; frames as the numbers on the wire |
| `Protocol`, `StatusLayout`, `CommandStream`, `StatusStream`, `MessageBytes` | commands and statuses on the wire, and byte by byte |
| `AsyncBridge`, `BridgeRuns`, `BridgeWorld` | cell, queue and request/reply bridge; every run of a bridge; the objects executing such runs |
| `Snapshot`, `Driver`, `Systems`, `Events`, `SensorRuns`, `ComponentRuns`, `CommandRuns`, `ResetRuns`, `EventWitnesses` | the driver and the ECS side by side: bytes to components and edge events, commands to bytes, whole runs of both from reset on, and runs in which the app sees less or more than it was told |
| `MdnsWire`, `MdnsParse`, `MdnsMessages`, `MdnsBuild` | readers, parsers, wire form and printers of mDNS |
| `SocketClient`, `SocketStream`, `ConnectionEnds` | the life of a WebSocket connection, and how it ends |
| `Health` | stack painting and the leak streak |

What the environment does is a parameter: the bytes a read returns, the order in which a
select finds its sides ready, which dial step fails, the masks a random source draws, the
interleaving of executors. Floats are the four bytes the wire carries; unit conversions are
left out. The frame parser and the header search under the WebSocket client are parameters
too, assumed only to be prefix-stable: once they see a frame or the end of the headers, bytes
behind it do not change their answer, and a frame takes at least one byte (`SocketClient.PrefixStable`).

## Where the code and its documentation part

- `src/esp32_utils/health.rs:60-61` says a stray sentinel only ever over-reports stack usage.
  The scan skips such a word, so the code under-reports: `Health.StraySentinelHides` says by how
  much, `Health.StraySentinelUnderReports` is an instance, and `Health.HighWaterIsExact` says
  exactly when the report is right.
- `src/alvik/driver.rs:4-8` calls the event queue lossless. It drops the newest when full
  (`Driver.OfferAllExactly` says exactly what is kept, `ComponentRuns.NothingIsDropped` when everything
  is, `EventWitnesses.TheThirtyThirdIsDropped` is a run in which a button that is still down is never
  shown), and a press that is over before the frame that would show it is overwritten in the component
  before the edge detector looks
  (`SensorRuns.PressNeedsTheLastTouch` says exactly when a press is due, `EventWitnesses.QuickPressIsMissed`
  is a run in which it is not).
- `src/alvik/types.rs:46-47` starts the edge detector with the upright bit so that a level robot does not
  report a tilt. The robot is spawned with a clear motion mask (`src/main.rs:149`), and frames run while
  bring-up waits, so the bit is gone after the first frame and the first upright reading is reported
  (`EventWitnesses.LevelStartIsReported`). `Events.TiltsAreBlocks` says exactly how often an axis is
  reported: the starting bit only helps a robot that is seen upright in the very first frame.
- `src/net/mdns.rs:505` treats length octets 64 to 191 as malformed, `src/net/mdns.rs:513-551`
  takes them for label lengths: `MdnsWire.WalkersPartOnReservedLengths` says exactly when the
  two walkers part, `MdnsWire.OversizedHostIsMatchedNotSkipped` which hosts are concerned. A responder
  with such a hostname takes queries for its own and never answers them (`MdnsBuild.OversizedHostIsNeverAnswered`).
- `src/alvik/ucpack.rs:153-156` says frames are popped once START, LEN, END and CRC line up. The
  CRC covers CODE and the payload only. Within CODE..CRC every corruption of up to three bits is
  caught if and only if the payload has at most 13 bytes (`CrcDetection.HammingDistance`); all
  commands are that short, the two longest status messages, `i` with 24 and `f` with 14 bytes, are
  not. An error in START is always caught. An error in LEN is not covered: it moves the place where
  the trailer is looked for, and passes if and only if END and a matching checksum stand there
  (`LengthErrors.LengthErrorVerdict`, `LengthErrors.ClearedLengthBit`, `LengthErrors.SetLengthBit`).
  `LengthErrors.FlippedGainsArePopped` is a command that one flipped bit of LEN turns into another
  valid frame; a payload without an END byte cannot be cut short that way
  (`LengthErrors.EndFreePayloadIsSafe`).

## Model

| member | source | states |
|---|---|---|
| Crc.Crc8 | src/alvik/ucpack.rs:25-39 | the nested loops compute the register that bit-serial division by the reflected polynomial 0x8C leaves |
| Crc.ClockIsBitIn | src/alvik/ucpack.rs:29-36 | the masked shift-and-xor of one inner turn is one clock of the register |
| Crc.ChecksumOfOneMore | src/alvik/ucpack.rs:27-37 | one more byte is eight more clocks of the register |
| Crc.FeedConcat | src/alvik/ucpack.rs:25-39 | feeding a message in two parts is feeding it whole |
| ShiftRegister.ChecksumKeepsParity | src/alvik/ucpack.rs:25-39 | parity law: a checksum has as many set bits as its data, modulo two |
| ShiftRegister.ShiftNInjective | src/alvik/ucpack.rs:30-34 | any number of zero steps is a bijection of the register |
| ShiftRegister.OneAfter120 | src/alvik/ucpack.rs:30-34 | 120 zero steps carry a lone 1 to the top of the register |
| ShiftRegister.OrderOfTheClock | src/alvik/ucpack.rs:30-34 | a lone 1 comes back after exactly the multiples of 127 zero steps |
| ShiftRegister.TwoOnesInvisible | src/alvik/ucpack.rs:25-39 | two flips leave no residue if and only if their distance is a multiple of 127 |
| ShiftRegister.ShortPatternsAreSeen | src/alvik/ucpack.rs:25-39 | up to 127 bits, one, two or three flips always leave a residue |
| ShiftRegister.BurstsAreSeen | src/alvik/ucpack.rs:25-39 | flips confined to eight consecutive bits leave a residue at any length |
| CrcDetection.FeedLinear | src/alvik/ucpack.rs:25-39 | the register is linear over exclusive or, for messages of any length |
| CrcDetection.ChecksumClosesTheRegister | src/alvik/ucpack.rs:219-221 | data followed by a byte leaves zero if and only if the byte is the data's checksum |
| CrcDetection.UndetectedExactly | src/alvik/ucpack.rs:219-225 | the END and CRC checks accept a corrupted window if and only if END is intact and the error leaves no residue |
| CrcDetection.OddFlipsAreCaught | src/alvik/ucpack.rs:219-225 | every odd number of flips in CODE..CRC fails the checks, at any payload length |
| CrcDetection.BurstsAreCaught | src/alvik/ucpack.rs:219-225 | every error confined to eight consecutive wire bits fails the checks, at any payload length |
| CrcDetection.DoubleFlips | src/alvik/ucpack.rs:219-225 | two flips slip through if and only if they miss END and lie a multiple of 127 codeword bits apart |
| CrcDetection.HammingDistance | src/alvik/ucpack.rs:25-39 | no error of one to three bits slips through if and only if the payload has at most 13 bytes |
| CrcDetection.LongFramesMissAPair | src/alvik/ucpack.rs:219-225 | for every longer payload, a frame and a two-bit error that is accepted |
| CrcDetection.CorruptedVerdict | src/alvik/ucpack.rs:219-225 | a sent frame with CODE..CRC corrupted is dropped at its START if and only if the checks fail |
| CrcDetection.CorruptedFrameIsDropped | src/alvik/ucpack.rs:219-225 | odd, burst and short-frame errors in CODE..CRC make the decoder drop that START whatever follows |
| LengthErrors.LengthDecides | src/alvik/ucpack.rs:206-236 | on any bytes behind START: LEN alone decides between dropping, waiting and where the trailer is looked for |
| LengthErrors.LengthErrorVerdict | src/alvik/ucpack.rs:209-225 | a sent frame whose LEN is corrupted is popped if and only if the length is plausible and END and the checksum stand where it puts them |
| LengthErrors.ShorterLengthExactly | src/alvik/ucpack.rs:214-225 | a LEN that arrives too small passes if and only if the payload holds a trailer of its own there |
| LengthErrors.EndFreePayloadIsSafe | src/alvik/ucpack.rs:219 | a payload without an END byte survives every LEN that arrives too small |
| LengthErrors.ClearedLengthBit | src/alvik/ucpack.rs:209-225 | one cleared bit of LEN passes exactly when the payload holds that trailer |
| LengthErrors.SetLengthBit | src/alvik/ucpack.rs:209-225 | one set bit of LEN is implausible, or passes exactly when the bytes behind the frame hold the trailer |
| LengthErrors.FlippedGainsArePopped | src/alvik/ucpack.rs:214-235 | an instance: one flipped bit of LEN turns a gains command into another frame that is popped |
| LengthErrors.StartErrorIsDropped | src/alvik/ucpack.rs:202-205 | a corrupted START is dropped |
| UcPack.Encoder.EncodeInto | src/alvik/ucpack.rs:94-103 | the scratch array holds START LEN CODE payload END CRC and the frame is that slice |
| UcPack.Encoder.C1B3F | src/alvik/ucpack.rs:135-142 | label byte and three little-endian floats, the largest packer |
| UcPack.Encoder.C2B1F | src/alvik/ucpack.rs:144-150 | label, sub-command and one float |
| UcPack.Encoder.C3F | src/alvik/ucpack.rs:127-133 | three floats in order |
| UcPack.Encoder.C2F | src/alvik/ucpack.rs:120-125 | two floats in order |
| UcPack.Encoder.C1F | src/alvik/ucpack.rs:116-118 | one float |
| UcPack.Encoder.C2B | src/alvik/ucpack.rs:108-110 | two bytes |
| UcPack.Encoder.C1B | src/alvik/ucpack.rs:106 | one byte |
| UcPack.EncodedFields | src/alvik/ucpack.rs:94-103 | an encoded frame has START, its length, its code and payload and a trailer the decoder accepts |
| UcPack.Decoder.DropFront | src/alvik/ucpack.rs:239-242 | the first bytes go, the rest moves to the front |
| UcPack.Decoder.Push | src/alvik/ucpack.rs:179-185 | the byte is appended; a full buffer loses its oldest |
| UcPack.Decoder.Extend | src/alvik/ucpack.rs:188-192 | the bytes are appended; the last 256 of all of them remain |
| UcPack.Decoder.Pop | src/alvik/ucpack.rs:196-237 | the next frame of the scan and the bytes behind it, or none and the bytes it waits on |
| UcPack.Decoder.Judge | src/alvik/ucpack.rs:198-225 | the checks in order decide between waiting, dropping a byte and popping a frame |
| UcPack.Decoder.TrailerHolds | src/alvik/ucpack.rs:218-225 | the two in-place comparisons decide between popping the frame and dropping the START |
| UcPack.ScanIsRepeatedNext | src/alvik/ucpack.rs:194-237 | popping until nothing comes yields exactly the scan of the buffer |
| Resync.HeadIsStable | src/alvik/ucpack.rs:196-237 | a decision other than waiting is not changed by bytes that arrive later |
| Resync.ScanConcat | src/alvik/ucpack.rs:153-156 | chunk independence: draining after each part yields the frames and the residue of the whole stream |
| Resync.ResidueWaits | src/alvik/ucpack.rs:206-217 | what is left is a suffix of the stream the decoder is waiting on |
| Resync.FramesAtStarts | src/alvik/ucpack.rs:226-235 | the frames popped are, in order, the ones the stream holds at the scan's positions |
| Resync.PoppedExactly | src/alvik/ucpack.rs:196-237 | a frame is popped at a position if and only if it is valid there, before the residue, and not inside an earlier popped frame |
| Resync.ResyncIsComplete | src/alvik/ucpack.rs:198-225 | no garbage hides a valid frame: 29 bytes from its start it was popped, or lies inside an earlier popped one |
| Resync.EncodedFrameIsValid | src/alvik/ucpack.rs:94-103 | an encoded frame at the front is popped as its own code and payload |
| Resync.AcceptedIsEncoded | src/alvik/ucpack.rs:209-235 | on any bytes, a popped frame is byte for byte the encoding of its code and payload |
| Resync.AcceptsExactlyEncoded | src/alvik/ucpack.rs:196-237 | a position holds a valid frame if and only if some encoded frame lies there: the decoder accepts exactly what the encoder makes |
| Resync.SentFrameArrives | src/alvik/ucpack.rs:153-156 | a frame sent behind any bytes arrives unless an earlier popped frame swallows its start |
| WireBytes.FrameBytes | src/alvik/ucpack.rs:94-103 | the numbers of every frame: 41, the length, the code, the payload, 23, the checksum |
| WireBytes.FrontDecides | src/alvik/ucpack.rs:196-237 | on any bytes the front is a frame, a beginning or neither by these numbers alone: 41, a length of 1 to 25, 23 and the checksum where it puts them |
| WireBytes.ScanExactly | src/alvik/ucpack.rs:194-237 | on any bytes: these frames and this residue come out if and only if the stream is garbage and those frames, in order, and then a beginning |
| WireBytes.OtherByteIsDropped | src/alvik/ucpack.rs:202-205 | a byte other than 41 in front is dropped |
| WireBytes.CheckValue | src/alvik/ucpack.rs:23-39 | the digits 1 to 9 have the check value of CRC-8/MAXIM, A1 |
| WireBytes.KnownSums | src/alvik/ucpack.rs:23-39 | the checksums of the startup ack and of the init commands, as numbers |
| Protocol.EncodeCommand | src/alvik/protocol.rs:67-103 | each command is packed as its code and payload |
| Protocol.CommandReadsBack | src/alvik/protocol.rs:67-103 | variant, wheel and every wire value can be read back, also among the three commands sharing `W` |
| Protocol.BatterySign | src/alvik/protocol.rs:205-211 | the level is never negative, charging is the sign of the wire value, and the wire value is recoverable |
| StatusLayout.StatusReadsBack | src/alvik/protocol.rs:172-247 | decoding undoes the layout: every status comes back field for field |
| StatusLayout.SayableExactly | src/alvik/protocol.rs:172-247 | a status is decoded from some frame if and only if it is no negative level and only a positive one is charging |
| CommandStream.StreamIsDecoded | src/alvik/ucpack.rs:196-237 | commands with START-free noise between them are popped exactly, in order, leaving an empty buffer |
| StatusStream.StatusesAreHeard | src/alvik/driver.rs:168-171 | every list of statuses a robot can say is heard exactly, in order, with nothing left over |
| CommandStream.WireDeterminesCommands | src/alvik/protocol.rs:67-103 | two command lists with the same bytes on the wire are the same list |
| MessageBytes.AckIsHeard | src/alvik/driver.rs:230-231 | an instance, as bytes: 41 02 78 00 23 C0 is the startup ack |
| MessageBytes.ByteCommands | src/alvik/protocol.rs:69-101 | the bytes of the commands of one or two bytes, as numbers |
| MessageBytes.FloatCommands | src/alvik/protocol.rs:70-90 | the bytes of the commands of one, two and three floats, as numbers |
| MessageBytes.WheelCommands | src/alvik/protocol.rs:91-99 | the bytes of the commands to one wheel: L is 4C, R is 52, with Z, V or P behind it |
| MessageBytes.GainsCommand | src/alvik/protocol.rs:100-102 | the bytes of a wheel's gains |
| MessageBytes.InitBytes | src/alvik/driver.rs:258-262 | the 25 bytes bring-up writes, as numbers |
| MessageBytes.FloatStatuses | src/alvik/protocol.rs:174-237 | what the frames of speeds, positions, velocity, orientation and pose say, byte by byte; what a short one lacks reads as zeros |
| MessageBytes.ImuStatus | src/alvik/protocol.rs:192-199 | the same of acceleration and turn rates |
| MessageBytes.CountStatuses | src/alvik/protocol.rs:182-225 | the same of line, colour and both range messages, low byte first |
| MessageBytes.ByteStatuses | src/alvik/protocol.rs:226-243 | the same of the discrete messages |
| MessageBytes.BatteryStatus | src/alvik/protocol.rs:205-211 | the same of the battery, with zeros and what is not a number told apart by their bytes |
| MessageBytes.UnknownCodesSayNothing | src/alvik/protocol.rs:244 | a frame on the wire says nothing if and only if its code is none of the sixteen |
| AsyncBridge.Signal.Raise | src/esp32_utils/async_bridge.rs:178 | signalling replaces the value |
| AsyncBridge.Latest.Send | src/esp32_utils/async_bridge.rs:55 | an unread value is replaced |
| AsyncBridge.Latest.TryRecv | src/esp32_utils/async_bridge.rs:61 | the pending value is taken once |
| AsyncBridge.Queue.Send | src/esp32_utils/async_bridge.rs:82-86 | a full queue hands the newest back and keeps its items |
| AsyncBridge.Queue.TryRecv | src/esp32_utils/async_bridge.rs:92 | the oldest item is taken, or none |
| AsyncBridge.DrainToObservers | src/esp32_utils/async_bridge.rs:288-296 | everything queued is triggered once, in order |
| AsyncBridge.AsyncBridge.Submit | src/esp32_utils/async_bridge.rs:139-147 | a call is queued behind a fresh empty reply cell, or its own input comes back |
| AsyncBridge.AsyncBridge.ServeNext | src/esp32_utils/async_bridge.rs:246-249 | the oldest call's own cell gets the worker's output for its own input, or there was none |
| AsyncBridge.AsyncBridge.DrainToTasks | src/esp32_utils/async_bridge.rs:327-332 | every pending call becomes a task with its own reply |
| BridgeRuns.NextKeepsInv | src/esp32_utils/async_bridge.rs:127-179 | every step keeps each accepted call in exactly one place and each answer its caller's own |
| BridgeRuns.EveryRunKeepsInv | src/esp32_utils/async_bridge.rs:127-179 | so does every run, with any number of callers and responders |
| BridgeRuns.Conservation | src/esp32_utils/async_bridge.rs:127-179 | accepted calls are queued, in service or answered, none twice; the queue is bounded; a rejected caller has its input, a resolved one an answer to its own |
| BridgeRuns.HandedBackExactly | src/esp32_utils/async_bridge.rs:139-147 | over any run a caller has its input handed back, for good, if and only if the queue was full when it called |
| BridgeRuns.TheAnswerGiven | src/esp32_utils/async_bridge.rs:176-179 | the answer a caller holds is the very one a responder gave to its call |
| BridgeRuns.OneWorkerIsFifo | src/esp32_utils/async_bridge.rs:240-251 | under one worker answers come in acceptance order and at most N+1 calls are outstanding |
| BridgeWorld.World.Call | src/esp32_utils/async_bridge.rs:139-147 | on the heap, a call is the state machine's call |
| BridgeWorld.World.Receive | src/esp32_utils/async_bridge.rs:151-157 | on the heap, receiving is the state machine's, and happens exactly when a call is queued |
| BridgeWorld.World.ServeAtOnce | src/esp32_utils/async_bridge.rs:246-249 | a turn of the worker loop without suspension is a receive and the reply to that call |
| BridgeWorld.World.ReceiveAll | src/esp32_utils/async_bridge.rs:327-332 | the drain moves every queued call into service, in order |
| BridgeWorld.DrainIsReceives | src/esp32_utils/async_bridge.rs:327-332 | which is a run of receives, one for each queued call |
| BridgeWorld.World.Reply | src/esp32_utils/async_bridge.rs:176-179 | a reply reaches the cell its exchange carries and no other |
| BridgeWorld.World.Resolve | src/esp32_utils/async_bridge.rs:147 | a waiting caller takes the answer out of its own cell, exactly when there is one |
| BridgeWorld.World.Abandon | src/esp32_utils/async_bridge.rs:139-147 | a caller whose future is dropped leaves its call on its way |
| BridgeWorld.EnabledExactly | src/esp32_utils/async_bridge.rs:127-179 | a step can happen if and only if the machine has a state to go to |
| BridgeWorld.Execute | src/esp32_utils/async_bridge.rs:318-333 | whatever interleaving the objects execute is a run that takes every wanted step that can happen, so its conservation holds of them |
| BridgeWorld.RunWorker | src/esp32_utils/async_bridge.rs:240-251 | one worker loop among any callers makes a run with one worker: answers in acceptance order, at most N+1 calls outstanding, on the heap |
| Snapshot.StatusSnapshot.Apply | src/alvik/driver.rs:83-141 | a continuous status is folded in, a discrete one handed back and nothing changed |
| Snapshot.StatusSnapshot.ApplyRange | src/alvik/driver.rs:108-133 | both range messages are folded in, the short one leaves the matrix-only fields alone |
| Snapshot.StatusSnapshot.constructor | src/alvik/driver.rs:58-78 | every field starts at zero |
| Snapshot.FoldShowsLatest | src/alvik/driver.rs:83-141 | after any history every field holds the latest reading of its kind, or the default |
| Snapshot.LatestIsLast | src/alvik/driver.rs:168-180 | the latest of some kinds is the one nothing of these kinds follows |
| Snapshot.FoldAllConcat | src/alvik/driver.rs:161-180 | folding a history in two parts is folding it whole |
| Driver.OfferAllExactly | src/alvik/driver.rs:174-176 | a queue offered a list of statuses keeps what it had and the first discrete ones that fit |
| Driver.HeardConcat | src/alvik/driver.rs:168-180 | what a stream says does not depend on where it is cut |
| Driver.AbsorbAllIs | src/alvik/driver.rs:171-177 | the published cell is the fold of everything heard, the queue the bounded list of discrete ones |
| Driver.AlvikDriver.Dispatch | src/alvik/driver.rs:172-177 | one status goes to the snapshot and its cell, or to the queue |
| Driver.AlvikDriver.OnRead | src/alvik/driver.rs:168-180 | a read of up to 128 bytes is absorbed without the buffer ever dropping a byte, and leaves a waiting decoder |
| Driver.AlvikDriver.Pump | src/alvik/driver.rs:162-200 | over many reads the outcome depends only on the bytes joined together |
| Driver.AlvikDriver.Transmit | src/alvik/driver.rs:276-281 | a command goes out as its bytes, or the first part of them that the UART takes when the write fails, and the decoder is untouched |
| Driver.AlvikDriver.TransmitInit | src/alvik/driver.rs:258-262 | the four init commands, in order, each as far as the UART takes it |
| Driver.AlvikDriver.FlushUart | src/alvik/driver.rs:284-292 | the receive buffer is emptied 64 bytes at a time up to a read that fails, and the decoder is fresh and empty |
| Driver.AlvikDriver.BringUp | src/alvik/driver.rs:215-272 | from any decoder: flushed, then ack and last version of the bytes heard, the init commands, the version on the event queue, and the residue kept |
| Driver.AlvikDriver.AwaitStartup | src/alvik/driver.rs:217-242 | the waiting loop stops early only with both facts heard |
| Driver.StartupExactly | src/alvik/driver.rs:229-240 | by positions: the ack is any ack with byte 00, the version the last version message |
| Driver.AlvikDriver.FinishBringUp | src/alvik/driver.rs:258-271 | the init commands on the wire and the version, if heard, in the queue |
| Driver.AlvikDriver.SendNext | src/alvik/driver.rs:195-199 | the oldest queued command goes out, or none is there |
| Systems.Robot.ShowOnRoot | src/alvik/systems.rs:133-181 | each component that exists takes its reading, the others stay absent |
| Systems.Robot.ShowOnWheels | src/alvik/systems.rs:182-193 | every wheel takes the readings of its side |
| Systems.Robot.HandleOne | src/alvik/systems.rs:197-228 | one discrete status on the link components |
| Systems.Robot.DrainEvents | src/alvik/systems.rs:196-229 | every queued status in order, leaving the queue empty |
| Systems.Robot.ApplyStatus | src/alvik/systems.rs:121-230 | one frame: the pending snapshot marks the link connected and is shown, then the queue is drained |
| Events.EdgeState.DetectEvents | src/alvik/events.rs:68-113 | exactly the due events in their order, and the masks remembered |
| Events.EdgeState.constructor | src/alvik/types.rs:53-60 | nothing touched, lying level |
| Events.EventsOfAFrame | src/alvik/events.rs:17-109 | the whole list a frame triggers, by the single bits of the four mask bytes, in order; bit 0 of touch triggers nothing |
| Events.FiresOncePerDueFrame | src/alvik/events.rs:75-109 | over any run an event fires once for every frame it is due in |
| Events.PressesAreBlocks | src/alvik/events.rs:75-87 | a button's presses number the maximal blocks of frames with its bit set |
| Events.LiftsAlternate | src/alvik/events.rs:92-97 | lifts and drops strictly alternate, a lift first |
| Events.LiftBalance | src/alvik/events.rs:92-97 | lifts minus drops is the current lift bit |
| Events.TiltsAreBlocks | src/alvik/events.rs:98-109 | over any run an axis is reported once per maximal block of frames tilted onto it, but for an upright block that begins with the very first frame |
| Events.ShakesAreBlocks | src/alvik/events.rs:89-91 | shaking is reported once per maximal block of shaken frames |
| Events.LevelStartIsQuiet | src/alvik/types.rs:53-60 | a single first frame never reports the upright tilt, reports every other tilt it sees, and nothing at all if it already sees an upright, untouched robot |
| ComponentRuns.NoReadingIsLost | src/alvik/driver.rs:161-180 | in every interleaving, after a frame every component of the root that exists holds the fields of the last message heard of its kind, although snapshots were overwritten |
| ComponentRuns.WheelsShowTheLast | src/alvik/systems.rs:182-193 | and every wheel its own side of the last speeds and positions heard |
| ComponentRuns.RangesAreTheLast | src/alvik/driver.rs:108-133 | and the ranges come from the last range message of either form, four of them from the last matrix |
| ComponentRuns.UnheardIsZero | src/alvik/driver.rs:58-78 | components are untouched before the first reading; from then on one that never came shows zeros |
| ComponentRuns.UnheardWheelsAndRanges | src/alvik/driver.rs:58-78 | likewise wheels and ranges |
| ComponentRuns.ShapeIsKept | src/alvik/systems.rs:133-193 | no run adds or removes a component or turns a wheel round |
| SensorRuns.HeardIsOfTheBytes | src/alvik/driver.rs:168-180 | what was heard in a run is what the bytes joined together say |
| ResetRuns.BringUpIsQuiet | src/alvik/driver.rs:205-242 | frames that run while bring-up waits show and change nothing, and compare the masks the robot was spawned with |
| ResetRuns.BringUpAmongFrames | src/alvik/driver.rs:203-273 | bring-up of the objects with frames and queued commands in between ends in the state runs start from, with exactly the events of the frames so far |
| ResetRuns.RunFromReset | src/alvik/driver.rs:159-201 | from reset on, frames during bring-up included: the objects end where the run ends, fire exactly the events of all frames, hear what all the bytes say, and put the init commands and then the sent ones on the wire |
| CommandRuns.CommandsKeepOrder | src/alvik/driver.rs:48-49 | the commands sent and those queued are together the accepted ones, in order |
| CommandRuns.OneStepOfCommands | src/alvik/driver.rs:48-49 | a command is refused if and only if 16 are waiting, and reads and frames leave the commands alone |
| CommandRuns.WireCarriesTheSent | src/alvik/driver.rs:195-199 | with whole writes the wire carries the sent commands and nothing else |
| CommandRuns.CommandsReachTheRobot | src/alvik/driver.rs:258-281 | a decoder at the robot's end pops exactly the init commands and then the sent ones, over any run with whole writes |
| ComponentRuns.LastAcceptedIsShown | src/alvik/systems.rs:196-229 | after a frame touch, motion, behaviour and firmware hold the last accepted message of their kind |
| ComponentRuns.UnacceptedIsKept | src/alvik/systems.rs:196-229 | and what they held before, if none was accepted |
| ComponentRuns.NothingIsDropped | src/alvik/driver.rs:174-176 | while the queue stays below 32, every discrete message heard is accepted, in order |
| ComponentRuns.ConnectedExactly | src/alvik/systems.rs:126-132 | over any run the robot counts as connected if and only if it did before, a version was accepted or any reading was heard |
| SensorRuns.FrameConnects | src/alvik/systems.rs:126-132 | a frame connects the robot if and only if it finds a snapshot or a firmware version |
| SensorRuns.ConnectedForever | src/alvik/systems.rs:126-132 | once connected, connected after any further run |
| SensorRuns.PressNeedsTheLastTouch | src/alvik/systems.rs:196-202 | a press is due if and only if the last touch message a frame drains has the bit and the frame before had not |
| EventWitnesses.TheThirtyThirdIsDropped | src/alvik/driver.rs:53 | an instance: of 33 touches read between two frames the last is heard and lost, and the component never shows its button |
| EventWitnesses.QuickPressIsMissed | src/alvik/systems.rs:196-202 | an instance for every button: a press and its release read between two frames are accepted and trigger no press |
| EventWitnesses.LevelStartIsReported | src/alvik/types.rs:46-47 | an instance: a robot spawned with a clear motion mask reports the upright tilt at its first motion message |
| SensorRuns.ExecuteRead | src/alvik/driver.rs:168-180 | the driver object does what the run's read step says |
| SensorRuns.ExecuteFrame | src/alvik/systems.rs:121-230 | driver, robot and edge detector do what the run's frame step says and fire the events it adds |
| SensorRuns.ExecuteCommand | src/alvik/driver.rs:195-199 | queueing and writing a command are the run's steps |
| SensorRuns.Execute | src/alvik/driver.rs:157-201 | every run of the objects ends where the run of steps ends and fires exactly the events it adds, wherever the detector stood |
| MdnsWire.TopBits | src/net/mdns.rs:489-505 | the two comparisons used are the masks with 0xC0 |
| MdnsWire.WalkersAgree | src/net/mdns.rs:486-551 | wherever a name is skipped, matching stops at the same place |
| MdnsWire.WalkersPartOnReservedLengths | src/net/mdns.rs:505 | a walked name is skipped if and only if it has no reserved length octet |
| MdnsWire.MatchesExactly | src/net/mdns.rs:513-551 | on any bytes, octet by octet: a name matches if and only if it is the length, the host up to ASCII case, 5, `local` in either case and 0 |
| MdnsWire.SameTextExactly | src/net/mdns.rs:536-541 | two labels compare equal if and only if they have the same length and differ, octet by octet, at most in the case of an ASCII letter |
| MdnsWire.OversizedHostIsMatchedNotSkipped | src/net/mdns.rs:486-551 | a matched name is refused by skipping if and only if the host has 64 octets or more |
| MdnsParse.Reader.U8 | src/net/mdns.rs:461-465 | one octet, or none at the end |
| MdnsParse.Reader.U16 | src/net/mdns.rs:466-468 | two octets big endian, or none |
| MdnsParse.Reader.Skip | src/net/mdns.rs:477-483 | the cursor moves even past the end |
| MdnsParse.Reader.SkipOverName | src/net/mdns.rs:486-508 | skips as specified, on any bytes |
| MdnsParse.Reader.MatchName | src/net/mdns.rs:513-551 | matches as specified, leaving the cursor behind the name |
| MdnsParse.Reader.ScanQuestions | src/net/mdns.rs:349-359 | whether some question asks for us, on any bytes |
| MdnsParse.Reader.SkipAllQuestions | src/net/mdns.rs:371-375 | ends behind the question section, or fails |
| MdnsParse.Reader.ScanAnswers | src/net/mdns.rs:377-392 | the first hit of the answer section |
| MdnsParse.CheckQuery | src/net/mdns.rs:335-360 | the query test as specified, on any bytes |
| MdnsParse.FindAnswer | src/net/mdns.rs:364-393 | the answer parser as specified, on any bytes |
| MdnsMessages.SkipsWholeName | src/net/mdns.rs:486-508 | the wire form of any name is skipped whole |
| MdnsMessages.WalksWholeName | src/net/mdns.rs:513-551 | the wire form of any name is walked whole |
| MdnsMessages.SaysExactly | src/net/mdns.rs:517-549 | a name says host.local if and only if it is these two labels, octet by octet up to ASCII case, and the root |
| MdnsMessages.QueryIsRecognised | src/net/mdns.rs:335-360 | for any message: a query for us if and only if QR is clear and some question asks for our name, type A, class IN |
| MdnsMessages.AnswerIsTheFirst | src/net/mdns.rs:364-393 | for any message: with QR set the address of the first matching record, otherwise none |
| MdnsMessages.FirstAddressExactly | src/net/mdns.rs:377-392 | by positions: the address of a record that answers with none in front of it that does |
| MdnsMessages.AnswerIsSound | src/net/mdns.rs:364-393 | whatever the bytes, an address comes from a response that holds an address record for the name |
| MdnsMessages.QueryIsSound | src/net/mdns.rs:335-360 | whatever the bytes, only a packet with QR clear that holds an address question for the name is taken for a query |
| MdnsMessages.RunOffEndsTheScan | src/net/mdns.rs:349-391 | a name that runs off the packet ends both scans without a hit |
| MdnsBuild.Writer.WriteName | src/net/mdns.rs:419-431 | succeeds if and only if the label has 1 to 63 octets and fits |
| MdnsBuild.BuildQuery | src/net/mdns.rs:296-309 | succeeds if and only if the label is 1 to 63 octets and 24 more fit, and writes exactly the query |
| MdnsBuild.BuildAnswer | src/net/mdns.rs:314-332 | succeeds if and only if the label is 1 to 63 octets and 34 more fit, and writes exactly the answer |
| MdnsBuild.QueryWireIs | src/net/mdns.rs:296-309 | what is written is the wire form of the query meant |
| MdnsBuild.AnswerWireIs | src/net/mdns.rs:314-332 | what is written is the wire form of the answer meant |
| MdnsBuild.QueryOctets | src/net/mdns.rs:296-309 | every octet of a query, as numbers |
| MdnsBuild.AnswerOctets | src/net/mdns.rs:314-332 | every octet of an answer, as numbers |
| MdnsBuild.QueryRoundTrip | src/net/mdns.rs:559-597 | a query is recognised by exactly the hosts that spell its label up to case, and is no answer |
| MdnsBuild.AnswerRoundTrip | src/net/mdns.rs:566-597 | an answer gives its address to exactly those names, and is no query |
| MdnsBuild.HandleInbound | src/net/mdns.rs:250-272 | a reply is sent if and only if the packet asks for us, we have an address and our hostname has 1 to 63 octets; and then the packet has QR clear and holds the question |
| MdnsBuild.OnlyAskersAreAnswered | src/net/mdns.rs:250-272 | for any message: our answer, if and only if some question asks for us and we can answer |
| MdnsBuild.NoQuestionNoReply | src/net/mdns.rs:258-260 | whatever the bytes: with QR set, or without an address question for us, nothing is sent |
| MdnsBuild.OversizedHostIsNeverAnswered | src/net/mdns.rs:258-265 | for every hostname of 64 to 191 octets a query is taken for our own and not answered |
| MdnsBuild.AwaitAnswer | src/net/mdns.rs:215-245 | the first packet that answers ends the wait; queries before it are served |
| MdnsBuild.ServedExactly | src/net/mdns.rs:220-238 | by positions: the first packet that answers gives the address, and our answer goes out once for every query for us in front of it and for nothing else |
| MdnsBuild.ResolverMeetsResponder | src/net/mdns.rs:193-272 | a responder takes a query for its own if and only if the resolver takes its answer |
| SocketClient.LaterBytes | src/net/socket_client.rs:304-312 | bytes that arrive later only add messages, and none behind a Close |
| SocketClient.DrainFrames | src/net/socket_client.rs:304-312 | every complete frame of the buffer is delivered once, in order |
| SocketClient.OnRead | src/net/socket_client.rs:314-322 | new bytes join the undrained rest, or the connection ends |
| SocketClient.OnSend | src/net/socket_client.rs:324-337 | the queued message goes out as one frame, or the connection ends |
| SocketClient.RunDuplex | src/net/socket_client.rs:296-341 | under any chunking and interleaving: delivered is what the bytes say, sent is the queue in order, and the first ending event is the last |
| SocketClient.ReadHandshakeResponse | src/net/socket_client.rs:272-292 | the headers are judged and the bytes behind them returned |
| SocketClient.ShakeHands | src/net/socket_client.rs:249-260 | request, flush and response in order, with the first failure |
| SocketClient.RunSocket | src/net/socket_client.rs:244-268 | the reply is used the moment the handshake is accepted and not otherwise; then the pump takes reads and queued messages in order and goes on while its next choice is ready |
| SocketClient.HandleConnection | src/net/socket_client.rs:203-240 | lookup, connect and TLS in order, with the first failure, then the socket as it runs |
| SocketClient.DriveConnection | src/net/socket_client.rs:180-198 | exactly one reply, Ok if and only if the handshake was accepted; a later failure is the last inbound item, once; what was sent and what is queued are the outbound queue; the success-without-reply arm is dead |
| SocketStream.HandshakeIgnoresChunking | src/net/socket_client.rs:278-291 | the handshake's outcome depends on the bytes and not on how they were cut into reads |
| SocketStream.HandshakeSplitsTheStream | src/net/socket_client.rs:286-290 | leftover and unread bytes are together exactly what follows the headers |
| SocketStream.ReaderHearsTheStream | src/net/socket_client.rs:262-312 | the messages delivered are the parse of the bytes behind the headers up to the first Close, or a prefix of it |
| SocketStream.CloseIsLast | src/net/socket_client.rs:307-311 | a Close is the last message delivered, and ends the connection |
| SocketStream.NothingFollowsTheEnd | src/net/socket_client.rs:313-338 | nothing happens behind a Close sent or heard, an end of stream or an error |
| SocketStream.FramesKeepQueueOrder | src/net/socket_client.rs:324-334 | the wire carries whole frames in queue order; only the last can be cut short, and then the connection fails |
| ConnectionEnds.ParseExactly | src/net/socket_client.rs:304-312 | what a stream delivers, by the parser alone: the frames in it one after another, no Close but a last one, up to where the parser wants more or fails |
| ConnectionEnds.ResultExactly | src/net/socket_client.rs:296-341 | for every possible run the result, by what happened last and what was delivered: Ok on an empty read, a Close sent or a Close heard, and each error on exactly its own failure |
| ConnectionEnds.ErrorItemExactly | src/net/socket_client.rs:186-197 | the error item the reader gets; none after a server that only hangs up |
| ConnectionEnds.HandshakeExactly | src/net/socket_client.rs:278-291 | for any reads: the first that fails, is empty or completes the headers decides, each in its own way |
| ConnectionEnds.DialExactly | src/net/socket_client.rs:203-260 | the first step of dial and request that fails gives its own error |
| ConnectionEnds.WireExactly | src/net/socket_client.rs:324-334 | the wire carries whole frames and of the last one the part that was written |
| Health.PaintStack | src/esp32_utils/health.rs:87-109 | exactly the words from 256 bytes above the bottom to 1024 below the stack pointer become 5A5A5A5A |
| Health.StackUsage | src/esp32_utils/health.rs:115-140 | the mark is the first word from 256 bytes above the bottom on that is not 5A5A5A5A; total, peak and headroom are measured from it |
| Health.UsageAddsUp | src/esp32_utils/health.rs:116-139 | peak and headroom add up to the region if and only if the region is as large as the guard gap, and ends on a word or holds a word that is no sentinel |
| Health.HighWaterIsExact | src/esp32_utils/health.rs:111-114 | after any run the mark is the deepest word written if and only if it is no sentinel, and never below it |
| Health.ShallowRunsLookUnpainted | src/esp32_utils/health.rs:69-72 | a run that stays above the painted part leaves the mark at its end or above |
| Health.StraySentinelHides | src/esp32_utils/health.rs:128-130 | a sentinel at the deepest word puts the mark one word too high |
| Health.StraySentinelUnderReports | src/esp32_utils/health.rs:60-62 | an instance on a stack painted at boot where 7600 bytes were used and 7596 are reported |
| Health.Measure | src/esp32_utils/health.rs:87-140 | painting, any run and the scan together: never more than was used, and exactly that with exactly the free margin if and only if the deepest word is no sentinel |
| Health.PeakNeverFalls | src/esp32_utils/health.rs:111-114 | the peak does not fall if and only if some word up to the earlier mark is still no sentinel |
| Health.PeakNeverFallsInARun | src/esp32_utils/health.rs:111-114 | it never falls while no sentinel is written |
| Health.HealthState.Report | src/esp32_utils/health.rs:298-329 | a leak is reported if and only if each of the last three reports rose by more than 256 bytes, low headroom below 2048 |
| Health.StreakIsARise | src/esp32_utils/health.rs:308-314 | the streak is at least k if and only if each of the last k reports rose by more than noise |

## Left out

- Liveness and time: timeouts, redial backoff, the report interval and the 5 s bring-up deadline decide when a step happens, and only which steps can happen is modelled.
- Unit conversions, colour classification, quaternions and poses built from wire values: components hold the wire values.
- `Encoder::c3b` (src/alvik/ucpack.rs:112-114): no command uses it, and it is one more packer of the same shape.
- The `flush_*` systems (src/alvik/systems.rs:17-116) and the drive-step expiry: last-sent comparisons, easy members; runs let any command be queued at any time.
- Resolving the target URL (src/net/socket_client.rs:154-174) and stripping the `.local` suffix (src/net/mdns.rs:95-102): string plumbing.
- The depth of the outbound channel (src/net/socket_client.rs:71): senders wait while it is full, so only its order matters here.
- The random source: masks and keys are arbitrary inputs, their quality is not modelled.
- Resizing of buffers and the 512-byte read size of the socket: reads of any size are covered.
- Hardware bring-up, GPIO, PSRAM, LEDs, HTTP and TLS internals, routes, scripting and scenes: peripheral I/O or upstream logic.
- AsyncBridge.AsyncBridge.ServeNext: the worker is a function of its input here; `BridgeRuns` covers workers that may answer in several ways.
- MdnsBuild.AwaitAnswer: a failed send or receive on the socket only logs in the source and is not modelled.
- Driver.AlvikDriver.BringUp: waiting for power and toggling the reset pin are left out; a read that fails or times out is one that does not appear in the list of reads, and bytes that a failed flush leaves behind come with the reads that follow.
- Health.PaintStack: memory is an array of 32-bit words from address zero, so an address outside it is not modelled.
