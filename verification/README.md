# Verified models of the watch firmware's state machines

The project models the parts of the firmware that carry state and arithmetic, and proves what
they promise over all inputs and all runs. `dafny verify dfyconfig.toml` verifies everything.

For each component there is a specification on values, in which the whole-run theorems are stated,
and, because the firmware works by updating records and arrays in place, a class or method with the
source's own fields and loops that is proved to do what the specification says.

| component | specification and theorems | code in place |
|---|---|---|
| CRC-32 | `Crc32` (serial shift register, burst detection) | `Crc32.Crc32Le` |
| BLE link | `PacketTx`, `PacketRx`, `PacketResync`, `PacketLink` | `PacketHandler`, `RingBuffer` |
| multi-chunk messages | `Multichunk` (grammar of the wire format, soundness, completeness) | `MultichunkHandler` |
| UART firmware update | `Ota` (both sides and the line) | `OtaDevices` |
| alarms | `Alarms`, `AlarmLedger` | `AlarmManager` |
| work windows | `Lanes`, `Runtime` (timed transition system) | `RuntimeManager`, `WorkQueues`, `PhaseShift` |
| focus navigation | `Navigation` (pruned pre-order list) | methods of `Navigation` |
| step counting | `Periodicity`, `Peaks`, `StepGate` | their methods, `MotionHistory`, `Stage1` |

`Basics`, `Bytes`, `Seqs` and `BleTypes` hold shared definitions. `PacketHandler.Relay`,
`OtaDevices.Update` and `RuntimeManager.Drive` run the code in place through whole runs and promise
what the theorems say of them.

## What the theorems found

- The fragmenter writes a header again when it ended flush with a packet: the header counts as
  unsent while the payload offset is 0, although the comment there says that it is written once per
  message. The message concerned arrives corrupted unless its payload is a prefix of its own wire form,
  that is, repeats its own header over and over (`PacketLink.FlushedSurvivesIff`). For queues without
  such payloads `PacketLink.DeliveredIffNoFlush` says exactly when they arrive intact, in terms of
  message lengths and MTUs; `PacketLink.FlushExample` gives an input that is corrupted, and
  `PacketLink.FlushMayGoUnnoticed` one outside the restriction that is not. For queues with such
  payloads only `PacketLink.RoundTrip` and the fate of the flushed message itself are stated: the
  bytes behind it are read by the peer as the next packets happen to cut them.
- With an MTU of 5 a message with a payload is never sent (`PacketLink.EmptiesIff`).
- The size field of an update is not protected: `Ota.InstalledIffSizeUnderstood`,
  `Ota.TruncatedUpdateExample`.
- Alarms are at most 19 s late as long as no two share an epoch, which creation guarantees, and that
  bound is reached (`Alarms.WorstDelayReached`).
- A failed edit loses the old alarm when that one is due within 5 s or more than a year ahead
  (`Alarms.EditRollsBackIff`, `Alarms.EditLosesExample`).
- When a watchdog kills the last busy worker, nothing arms settlement until a worker takes another item
  or the next window opens; in every other case an idle machine has settlement armed
  (`Runtime.IdleSettlesIff`, `Runtime.StrandedExample`).
- The assertion that a motion window is shorter than the history fails for a first window of 63 or
  more samples (`Stage1.WindowFitsIff`).

## Assumptions

- Locks are always granted. Each API call, timer callback and worker phase is one atomic step.
- Timers go off exactly at their deadline; time does not pass a deadline that has not been served.
- Allocation succeeds or visibly fails; the outcome is an input.
- Update protocol: replies arrive, unaltered and in time. The line may lose data bytes and alter
  them, but an altered frame of full length fails its checksum; `Ota.BurstIsDelivery` shows that every
  damage within 32 consecutive bits is of this kind. Bytes of one frame arrive before the verdict on
  it. The `zlib.crc32` of the sender is taken to be the same CRC-32.
- Alarms: the clock advances with the timer between resynchronisations, each of which is followed by a
  revalidation; readings stay below 2^32 - 5, so sums do not wrap.
- A work-tick shift lies within one interval, which `PhaseShift.Calculator.Sync` guarantees.
- Motion samples, means and correlations are reals; the square root is any function that satisfies
  `Periodicity.IsSqrt`. A minimum of minus infinity is an absent side.
- Interface objects are numbered so that a parent precedes its children.

## Model

| member | source | states |
|---|---|---|
| `Crc32.Crc32Le` | tests/host/mocks/esp_rom_crc/esp_rom_crc.c:3-19 | the nested byte and bit loops leave the register of the serial, bit-at-a-time shift register that serves as the specification |
| `Crc32.ByteIn` | tests/host/mocks/esp_rom_crc/esp_rom_crc.c:8-15 | folding a byte in whole and shifting eight times equals entering its bits one at a time |
| `Crc32.FeedAllAtOnce` | tests/host/mocks/esp_rom_crc/esp_rom_crc.c:8-15 | for up to 32 bits, entering all at once and shifting afterwards equals entering them singly |
| `Crc32.CrcOfConcat` | tests/host/mocks/esp_rom_crc/esp_rom_crc.c:3-19 | the checksum of a concatenation is the checksum of the second part continued from that of the first |
| `Crc32.BitStepInjective` | tests/host/mocks/esp_rom_crc/esp_rom_crc.c:10-14 | one shift loses nothing: equal results come from equal registers |
| `Crc32.PolynomialIs` | tests/host/mocks/esp_rom_crc/esp_rom_crc.c:11-11 | the polynomial, from the low byte, is 20 83 B8 ED, that is 0xEDB88320 |
| `Crc32.BitBurstDetected` | tests/host/mocks/esp_rom_crc/esp_rom_crc.c:3-19 | buffers of one length that differ only within 32 consecutive bits, aligned or not, never share a checksum |
| `Crc32.BurstDetected` | tests/host/mocks/esp_rom_crc/esp_rom_crc.c:3-19 | buffers that differ only within four consecutive bytes never share a checksum |
| `Crc32.FrameOkIffResidue` | components/uart_maintainence/src/uart_ota.c:131-139 | a block passes the receiver's test if and only if one pass over the whole frame ends in a fixed residue |
| `Crc32.DamagedFrameRejected` | components/uart_maintainence/src/uart_ota.c:131-139 | a frame damaged within 32 consecutive bits, checksum field included, never passes |
| `Crc32.FrameAccepted` | ota_flasher.py:79-81 | the frame the sender builds passes the receiver's test |
| `RingBuffer.Ring.Init` | components/common/src/ring_buffer.c:24-48 | a capacity of 0 is refused; otherwise the buffer starts empty |
| `RingBuffer.Ring.Push` | components/common/src/ring_buffer.c:120-146 | the contents become the old ones with the new element behind; when full, the policy drops the oldest or refuses |
| `RingBuffer.Ring.Pop` | components/common/src/ring_buffer.c:101-118 | the oldest element comes out and the rest stays, or nothing happens on an empty buffer |
| `RingBuffer.Ring.Clear` | components/common/src/ring_buffer.c:87-99 | the contents become empty |
| `RingBuffer.Ring.Next` | components/common/src/ring_buffer.c:4-7 | the index moves on by one and wraps to 0 |
| `RingBuffer.ContentsAreLatestPushes` | components/common/src/ring_buffer.c:87-146 | for every interleaving of push, pop and clear on a drop-oldest buffer: the contents are a suffix of the pushes since the last clear, pops come out in push order and once each, and an element is lost unpopped only after a capacity of newer ones |
| `PacketTx.FillConserves` | components/ble_manager/src/ble_packet_handler.c:101-160 | completed messages, the one being sent and the queue together are what was there before, in order |
| `PacketTx.LastPiece` | components/ble_manager/src/ble_packet_handler.c:121-153 | the turn that finishes a message writes all that remained of it |
| `PacketTx.BuildFlushesIff` | components/ble_manager/src/ble_packet_handler.c:121-156 | a full packet ends right behind the header of a non-empty message if and only if the lengths of the queued messages make it so |
| `PacketTx.BuildProgress` | components/ble_manager/src/ble_packet_handler.c:101-160 | with an MTU of at least 6 each packet reduces the work left, and with no work the packet is only its flag |
| `PacketTx.FillIsGreedy` | components/ble_manager/src/ble_packet_handler.c:110-157 | a packet ends short of the MTU only when nothing is left to send or the next header does not fit |
| `PacketRx.ReceiveAllConcat` | components/ble_manager/src/ble_packet_handler.c:225-360 | receiving packets in two batches is receiving them in one |
| `PacketRx.ScanIdleSound` | components/ble_manager/src/ble_packet_handler.c:254-359 | within one packet, every message found is a stretch of the packet's own bytes, header included, in order and without overlap |
| `PacketRx.ReceivedIsInStream` | components/ble_manager/src/ble_packet_handler.c:225-360 | for every packet sequence whatever, each enqueued message is header and payload read off the byte stream in order and without overlap, spliced only across continuation packets that start behind its header |
| `PacketResync.ScanIffReads` | components/ble_manager/src/ble_packet_handler.c:254-359 | for all bytes: the parser, from rest, yields certain messages and a certain rest if and only if those are what one reads by taking the first place that can be a header, then the first behind that message, and so on |
| `PacketResync.ReadsIsScan` | components/ble_manager/src/ble_packet_handler.c:254-359 | completeness from any place in the bytes: every message so read is enqueued |
| `PacketResync.ScanReads` | components/ble_manager/src/ble_packet_handler.c:254-359 | and nothing else is |
| `PacketResync.SkipTo` | components/ble_manager/src/ble_packet_handler.c:259-280 | bytes at which no header can start are skipped |
| `PacketResync.FoundBehindGarbage` | components/ble_manager/src/ble_packet_handler.c:259-264 | a message behind any bytes at which no header can start is the first one enqueued by an idle receiver |
| `PacketResync.ReceiveReads` | components/ble_manager/src/ble_packet_handler.c:225-360 | a packet in any state of the receiver: read from its first byte, or first completing the message under way |
| `PacketLink.PacketReceived` | components/ble_manager/src/ble_packet_handler.c:101-360 | one packet received by a peer in the mirrored state yields exactly the completed messages and mirrors the sender again, unless the header ended flush |
| `PacketLink.RoundTrip` | components/ble_manager/src/ble_packet_handler.c:101-360 | for every interleaving of queueing and sending and all MTUs, the peer receives exactly the completed messages, byte-identical and in order, if no header of a non-empty message ended flush with a packet |
| `PacketLink.Conservation` | components/ble_manager/src/ble_packet_handler.c:101-160 | completed, current and queued messages are at all times the original queue in order |
| `PacketLink.Drains` | components/ble_manager/src/ble_packet_handler.c:101-160 | with MTUs of at least 6 the queue empties within as many packets as unsent payload bytes and messages |
| `PacketLink.FlushCorrupts` | components/ble_manager/src/ble_packet_handler.c:129-149 | a flush header, once everything is sent, makes what arrived differ from what was sent, unless a payload repeats its own header |
| `PacketLink.DeliveredIffNoFlush` | components/ble_manager/src/ble_packet_handler.c:101-360 | a drained queue none of whose payloads repeats its own header over and over arrives intact if and only if no header ended flush |
| `PacketLink.FlushedSurvivesIff` | components/ble_manager/src/ble_packet_handler.c:129-149 | for every message whose header ended flush: the peer completes it correctly if and only if its payload repeats that header |
| `PacketLink.FlushExample` | components/ble_manager/src/ble_packet_handler.c:129-149 | two messages and 9-byte packets for which the peer gets the magic byte instead of the payload |
| `PacketLink.FlushMayGoUnnoticed` | components/ble_manager/src/ble_packet_handler.c:129-149 | a payload that repeats its own header may survive a flush, so the restriction above is needed |
| `PacketLink.EmptiesIff` | components/ble_manager/src/ble_packet_handler.c:101-160 | with a fixed MTU a queue empties if and only if it is empty, the MTU is at least 6, or it is 5 and all messages are header-only |
| `PacketLink.StuckForever` | components/ble_manager/src/ble_packet_handler.c:101-160 | otherwise no number of packets ever gets past the message |
| `PacketHandler.TxContext.BuildNextPacket` | components/ble_manager/src/ble_packet_handler.c:101-160 | the buffer, length, remaining queue and context are those of the recursive fragmenter |
| `PacketHandler.TxContext.WritePiece` | components/ble_manager/src/ble_packet_handler.c:121-153 | one turn writes header and payload piece at the right place and advances the offset |
| `PacketHandler.TxContext.LoadNext` | components/ble_manager/src/ble_packet_handler.c:112-120 | the next message is popped from the ring buffer, or the queue was empty |
| `PacketHandler.RxContext.RetrievePacket` | components/ble_manager/src/ble_packet_handler.c:225-360 | the state machine with its rewind enqueues what the recursive parser yields, terminates, and between calls is waiting for a magic byte or inside a payload with offset < len <= 250 |
| `PacketHandler.RxContext.TurnHeader` | components/ble_manager/src/ble_packet_handler.c:283-320 | a header with too long a length is given up and parsing resumes right behind its magic byte |
| `PacketHandler.RxContext.TurnPayload` | components/ble_manager/src/ble_packet_handler.c:323-353 | as much payload as the packet holds is taken, and a complete message comes out |
| `PacketHandler.RxContext.Enqueue` | components/ble_manager/src/ble_packet_handler.c:310-317 | a complete message goes to the receiving ring buffer, dropping the oldest when full |
| `PacketHandler.RxContext.Reset` | components/ble_manager/src/ble_packet_handler.c:32-37 | the receiving side is idle |
| `PacketHandler.TxContext.Reset` | components/ble_manager/src/ble_packet_handler.c:39-42 | the sending side is idle and the queue untouched |
| `PacketHandler.AddMsg` | components/ble_manager/src/ble_fifo.c:47-63 | a message longer than 250 bytes is refused; another goes to the ring buffer of the chosen direction, dropping the oldest when full, and the other is untouched |
| `PacketHandler.PushAllConcat` | components/ble_manager/src/ble_fifo.c:47-63 | enqueueing two batches one after the other is enqueueing their concatenation |
| `PacketHandler.Relay` | components/ble_manager/src/ble_packet_handler.c:101-360 | two devices at the level of contexts, buffers and ring buffers: for every sequence of submissions and packets in which no header ends flush, the peer's queue receives exactly the completed messages and both stay in step |
| `PacketHandler.RelayOne` | components/ble_manager/src/ble_packet_handler.c:101-360 | the same for one packet |
| `Multichunk.HandlerSound` | components/ble_manager/src/ble_multichunk_handler.c:63-206 | for every message sequence, when the handler is called the messages since the parser was last at rest are a complete transfer: chunks 0..n-1 in order, matching size, matching big-endian checksum |
| `Multichunk.Explained` | components/ble_manager/src/ble_multichunk_handler.c:84-206 | every state in the middle of a transfer is explained by the messages since the parser was last at rest |
| `Multichunk.TransferDelivered` | components/ble_manager/src/ble_multichunk_handler.c:63-206 | every transfer, however the data is chunked and the checksum split, causes exactly one call with the same bytes, opcode and requesting app and leaves the parser at rest |
| `Multichunk.ChunksParsed` | components/ble_manager/src/ble_multichunk_handler.c:114-170 | after k chunks the parser holds their concatenation and expects chunk k |
| `Multichunk.PiecesParsed` | components/ble_manager/src/ble_multichunk_handler.c:171-205 | after the j-th piece of the checksum the parser holds the pieces so far, or has made the call |
| `Multichunk.RunConcat` | components/ble_manager/src/ble_multichunk_handler.c:84-206 | a run can be cut anywhere |
| `MultichunkHandler.Handler.ParseNewChunk` | components/ble_manager/src/ble_multichunk_handler.c:84-206 | the record, heap buffer and call are those of the value-level parser; every buffer ever allocated is owned, freed once or handed over once; every read stays inside the payload |
| `MultichunkHandler.Handler.BeginTransfer` | components/ble_manager/src/ble_multichunk_handler.c:63-113 | header fields are taken from the payload, or everything is reset |
| `MultichunkHandler.Handler.ResetParser` | components/ble_manager/src/ble_multichunk_handler.c:38-43 | the parser is at rest and a buffer it owned is freed |
| `MultichunkHandler.Handler.TakeChunkBytes` | components/ble_manager/src/ble_multichunk_handler.c:114-170 | a chunk is copied behind the others or the transfer is dropped |
| `MultichunkHandler.Handler.TakeCrcBytes` | components/ble_manager/src/ble_multichunk_handler.c:171-205 | the checksum decides between hand-over and reset |
| `MultichunkHandler.Handler.CollectCrc` | components/ble_manager/src/ble_multichunk_handler.c:174-178 | the register holds the checksum bytes so far, high byte first |
| `MultichunkHandler.PartialGrows` | components/ble_manager/src/ble_multichunk_handler.c:174-178 | or-ing the shifted byte puts it in its place |
| `MultichunkHandler.PartialComplete` | components/ble_manager/src/ble_multichunk_handler.c:174-178 | four bytes give the big-endian word |
| `MultichunkHandler.OneOwner` | components/ble_manager/src/ble_multichunk_handler.c:38-43 | the balance of buffers says of each one that it has exactly one fate |
| `Ota.ReadBlockIsAll` | components/uart_maintainence/src/uart_ota.c:98-117 | when no more bytes arrive than needed, a full block is all that arrived, in order |
| `Ota.GoodBlockIff` | components/uart_maintainence/src/uart_ota.c:98-117 | without a driver error a block is good if and only if reads that all bring something bring all of it |
| `Ota.VerdictIff` | components/uart_maintainence/src/uart_ota.c:92-165 | from the line alone: without a driver error a block is refused if and only if it came short, interrupted or with a wrong checksum; otherwise it is acknowledged if flash takes it |
| `Ota.FrameVerdict` | components/uart_maintainence/src/uart_ota.c:92-165 | between two sides in step, refused if and only if the frame did not come through intact and without a pause |
| `Ota.RebootsOnlyFor` | components/uart_maintainence/src/uart_ota.c:107-165 | the receiver gives up only on the third refusal, a driver error or a failed write |
| `Ota.BurstIsDelivery` | components/uart_maintainence/src/uart_ota.c:131-139 | damage within 32 consecutive bits satisfies the assumption made of the line |
| `Ota.RoundInStep` | components/uart_maintainence/src/uart_ota.c:92-165 | one frame, whatever the line does to it, leaves both sides in step |
| `Ota.TransferSafe` | components/uart_maintainence/src/uart_ota.c:92-183 | over every run: flash is a prefix of the file, both sides agree on position and retry count, success means the whole file, and the sender awaits the end exactly when the receiver is complete |
| `Ota.AlwaysInStep` | ota_flasher.py:74-107 | sender and receiver stay in step over every run |
| `Ota.ThirdNackAborts` | ota_flasher.py:84-107 | a frame that is shortened, altered or interrupted costs both sides a retry, and the third in a row ends the update on both |
| `Ota.RetriesWereDamaged` | components/uart_maintainence/src/uart_ota.c:119-155 | over every run a retry count is the number of damaged frames just before |
| `Ota.IntactFrameAccepted` | components/uart_maintainence/src/uart_ota.c:131-155 | a frame that arrives intact, in however many reads, moves both sides on by one block, to completion if it was the last |
| `Ota.ReadClean` | components/uart_maintainence/src/uart_ota.c:98-117 | reads that bring enough without a pause are collected in order |
| `Ota.CompleteHasAnnouncedSize` | components/uart_maintainence/src/uart_ota.c:92-172 | whatever happens on the line, a complete image has the announced size |
| `Ota.InstalledIffSizeUnderstood` | components/uart_maintainence/src/uart_ota.c:84-90 | a completed update installed the file if and only if the unprotected size field arrived unaltered |
| `Ota.TruncatedUpdateExample` | components/uart_maintainence/src/uart_ota.c:84-90 | a size misread as one block installs only the start of a longer file |
| `Ota.RoundsRunOut` | ota_flasher.py:74-107 | no refusal goes unpaid: the rounds still needed shrink with each attempt |
| `Ota.UpdateCompletes` | ota_flasher.py:74-116 | if driver and flash work and the line never damages three frames in a row, the whole file gets across within three rounds per block |
| `OtaDevices.Device.ReadUart` | components/uart_maintainence/src/uart_ota.c:98-117 | the reading loop collects what the value-level reader collects, pauses counted |
| `OtaDevices.Device.ReceiveBlock` | components/uart_maintainence/src/uart_ota.c:92-165 | one turn of the outer loop is one step of the receiver |
| `OtaDevices.Device.Judge` | components/uart_maintainence/src/uart_ota.c:131-155 | a full block is written and acknowledged if its checksum holds, and refused otherwise |
| `OtaDevices.Device.Refuse` | components/uart_maintainence/src/uart_ota.c:119-129 | a refusal counts, and the third in a row reboots |
| `OtaDevices.Flasher.WriteFrame` | ota_flasher.py:75-81 | the frame is the next 2048 bytes, or what is left, with their checksum low byte first |
| `OtaDevices.Flasher.HandleResponse` | ota_flasher.py:90-105 | position and retry count move as the sender machine says; no reply changes nothing |
| `OtaDevices.Update` | ota_flasher.py:74-116 | the two programs against each other: flash is a prefix of the file and an installed image is the file |
| `Alarms.RunSafe` | components/state_manager/src/alarm_manager.c:21-300 | over every run of creations, deletions, edits, firings and clock changes: list sorted, at most five long and duplicate-free if it started so; timer armed exactly when it is not empty; no alarm early, none more than 19 s late (20 s if equal epochs were restored at start-up), none out of order between clock changes |
| `Alarms.WorstDelayReached` | components/state_manager/src/alarm_manager.c:43-59 | a run in which an alarm fires 19 s late |
| `Alarms.CreateKeeps` | components/state_manager/src/alarm_manager.c:113-173 | creating keeps the invariant, including the bound on every delay to come |
| `Alarms.DeleteKeeps` | components/state_manager/src/alarm_manager.c:175-205 | deleting keeps the invariant |
| `Alarms.EditKeeps` | components/state_manager/src/alarm_manager.c:207-237 | editing keeps the invariant, rolled back or not |
| `Alarms.FireKeeps` | components/state_manager/src/alarm_manager.c:247-274 | firing keeps the invariant |
| `Alarms.RevalidateKeeps` | components/state_manager/src/alarm_manager.c:61-85 | revalidation establishes the invariant from any sorted list, whatever the clock did |
| `Alarms.DiscardKeeps` | components/state_manager/src/alarm_manager.c:21-41 | what is discarded is exactly the front that is due within five seconds |
| `Alarms.FullListEvictsLatest` | components/state_manager/src/alarm_manager.c:144-165 | creating in a full list costs exactly the latest alarm |
| `Alarms.EditRollsBackIff` | components/state_manager/src/alarm_manager.c:207-237 | a refused edit restores list and timer if and only if the old epoch is more than 5 s and at most 31536000 s ahead |
| `Alarms.EditLosesExample` | components/state_manager/src/alarm_manager.c:207-237 | a run in which a refused edit, three seconds before its time, loses the alarm |
| `AlarmLedger.Conserved` | components/state_manager/src/alarm_manager.c:21-300 | over every run: the alarms present at start-up and accepted since are, as a multiset, those listed, fired, deleted or replaced, evicted as the latest of a full list, discarded as due within five seconds at a resynchronisation, and lost in a refused edit |
| `AlarmLedger.FiresInTime` | components/state_manager/src/alarm_manager.c:43-59 | an alarm accepted and not deleted, replaced, evicted, discarded or lost has fired by its epoch plus the worst delay, as often as it was accepted and not early |
| `AlarmLedger.FireTakesHead` | components/state_manager/src/alarm_manager.c:247-274 | firing takes exactly the head from the list |
| `AlarmLedger.EditReplaces` | components/state_manager/src/alarm_manager.c:207-237 | a successful edit replaces the alarm and leaves the others; a refused one leaves all, or all but the one edited |
| `AlarmLedger.CreateAdds` | components/state_manager/src/alarm_manager.c:113-173 | creating adds the alarm and takes the latest of a full list, and nothing else |
| `AlarmLedger.DiscardTakesDue` | components/state_manager/src/alarm_manager.c:21-41 | discarding takes exactly the alarms due within five seconds |
| `AlarmManager.Manager.CreateAlarm` | components/state_manager/src/alarm_manager.c:113-173 | array, count and timer become those of the value-level operation, and the result says whether it was accepted |
| `AlarmManager.Manager.Accepts` | components/state_manager/src/alarm_manager.c:123-153 | the conditions tried in order accept exactly the alarms that may be created |
| `AlarmManager.Manager.InsertAt` | components/state_manager/src/alarm_manager.c:154-160 | the shifting loop inserts at the place the order demands and moves the rest up |
| `AlarmManager.Manager.DeleteAlarm` | components/state_manager/src/alarm_manager.c:175-205 | the entry is closed up, and the timer follows a deleted head |
| `AlarmManager.Manager.EditAlarm` | components/state_manager/src/alarm_manager.c:207-237 | delete, create, and on refusal create the old one again |
| `AlarmManager.Manager.Fired` | components/state_manager/src/alarm_manager.c:247-274 | the head is reported and removed and the next one scheduled |
| `AlarmManager.Manager.RevalidateAll` | components/state_manager/src/alarm_manager.c:61-85 | expired alarms are discarded and the timer set for what is left |
| `AlarmManager.Manager.DiscardExpired` | components/state_manager/src/alarm_manager.c:21-41 | the array is closed up over the expired front |
| `AlarmManager.Manager.ScheduleNext` | components/state_manager/src/alarm_manager.c:43-59 | the timer is set to the head's epoch, or five seconds ahead if that is too near |
| `Runtime.StepKeeps` | components/runtime_manager/src/runtime_manager.c:60-228 | every step of the scheduler keeps timers, ticks, counters, queues and settlement consistent |
| `Runtime.WindowsAreBounded` | components/runtime_manager/src/runtime_manager.c:60-222 | in every execution: which timers run in which state, settlement within the phase, awake periods of at most 900 ms or 360 ms, and every work tick finds SLEEP and wakes |
| `Runtime.TickFindsSleep` | components/tick_manager/src/tick_manager.c:69-90 | a work tick, shifted or not, never comes while a window or its grace period lasts |
| `Runtime.AwakeIsShort` | components/runtime_manager/src/runtime_manager.c:60-159 | an awake period lasts at most its window and the grace period |
| `Runtime.IdleSettlesIff` | components/runtime_manager/src/runtime_manager.c:165-228 | in every execution the active counter equals the number of busy workers, and an awake machine without work before the end of its phase has settlement armed if and only if it is not stranded, that is, unless the last busy worker was killed by its watchdog and since then no item was taken and no window opened |
| `Runtime.SettlingThroughout` | components/runtime_manager/src/runtime_worker_pool.c:22-59 | the invariant behind it over whole executions: a stranded machine has no busy worker and no settlement |
| `Runtime.StrandedExample` | components/runtime_manager/src/runtime_watchdog.c:24-33 | an execution from start-up that ends awake, idle and stranded |
| `Runtime.WorkIsAccounted` | components/runtime_manager/src/runtime_manager.c:353-397 | each accepted item is in exactly one of taken, dropped, queued and pending; what was not dropped is in order of acceptance; pending only in GRACE |
| `Runtime.DropsOnlyAtGraceEnd` | components/runtime_manager/src/runtime_manager.c:148-159 | only grace expiry drops work: queued user work but never pending user work, and system work if and only if queue and pending exceed ten, then only the latest |
| `Runtime.ScheduledWhere` | components/runtime_manager/src/runtime_manager.c:353-397 | in every execution work scheduled in GRACE leaves the main queue alone and is held back unless five are; outside GRACE it goes to the end of the main queue unless that holds ten |
| `Runtime.GraceWorkSurvives` | components/runtime_manager/src/runtime_manager.c:148-180 | user work accepted in a grace period is not dropped by the end of it: it stays pending while the period lasts and is queued when it ends |
| `Runtime.HeldBackStep` | components/runtime_manager/src/runtime_manager.c:84-98 | the same for one step |
| `Runtime.TickOpensWindow` | components/runtime_manager/src/runtime_manager.c:60-83 | every work tick opens the window last asked for, 700 ms or 160 ms from that moment |
| `Runtime.AskedIsKept` | components/runtime_manager/src/runtime_manager.c:321-326 | which window is next is what was last asked for |
| `Runtime.PhaseEndsIn` | components/runtime_manager/src/runtime_manager.c:112-180 | a window that ends gives a grace period of 200 ms exactly if there is work or a hook, a settled one exactly if there is a hook, with the hooks submitted as far as there is room; a grace period ends in SLEEP; settlement does nothing while there is work |
| `Runtime.SettlementArmedFor` | components/runtime_manager/src/runtime_manager.c:182-222 | settlement is armed for ten milliseconds or what is left of the phase |
| `Runtime.ShiftMovesTick` | components/tick_manager/src/tick_manager.c:69-90 | a shift puts the next tick one interval and the shift behind the last, or at once if that is past |
| `Runtime.BusyUpdate` | components/runtime_manager/src/runtime_worker_pool.c:22-59 | the count of busy workers changes by one with the worker that changes |
| `Lanes.DrainKeeps` | components/runtime_manager/src/runtime_manager.c:43-58 | a drain loses items if and only if they exceed the capacity, and then the latest |
| `Lanes.ClearDrainKeeps` | components/runtime_manager/src/runtime_manager.c:84-98 | a reset followed by a drain keeps everything pending |
| `WorkQueues.WorkLane.DrainAll` | components/runtime_manager/src/runtime_manager.c:43-58 | the loop from the pending ring buffer to the main one moves what fits in order and loses the rest |
| `WorkQueues.WorkLane.Send` | components/runtime_manager/src/runtime_manager.c:366-372 | an item goes behind the others under the next number, or is refused when the queue is full |
| `WorkQueues.WorkLane.SendPending` | components/runtime_manager/src/runtime_manager.c:366-372 | the same for the pending queue |
| `WorkQueues.WorkLane.Receive` | components/runtime_manager/src/runtime_worker_pool.c:31-32 | the worker gets the very item accepted under the number at the front |
| `WorkQueues.WorkLane.Reset` | components/runtime_manager/src/runtime_manager.c:154-156 | everything queued is dropped |
| `RuntimeManager.Manager.EvaluateEarlyCurfew` | components/runtime_manager/src/runtime_manager.c:182-222 | settlement is armed as the scheduler says |
| `RuntimeManager.Manager.SetSleep` | components/runtime_manager/src/runtime_manager.c:84-98 | timers off, pending work released, busy workers replaced |
| `RuntimeManager.Manager.OpenWindow` | components/runtime_manager/src/runtime_manager.c:60-83 | a window opens only from SLEEP |
| `RuntimeManager.Manager.AbortAll` | components/runtime_manager/src/runtime_watchdog.c:52-64 | every busy worker is replaced and uncounted |
| `RuntimeManager.Manager.BeginCurfewUnsafe` | components/runtime_manager/src/runtime_manager.c:112-137 | GRACE with the hooks submitted, or straight to SLEEP |
| `RuntimeManager.Manager.SubmitHooks` | components/runtime_manager/src/runtime_manager.c:122-133 | the hooks go to the system queue in order as far as there is room, each item carrying its hook |
| `RuntimeManager.Manager.WindowExpiry` | components/runtime_manager/src/runtime_manager.c:139-146 | the window callback is the scheduler's step |
| `RuntimeManager.Manager.GraceExpiry` | components/runtime_manager/src/runtime_manager.c:148-159 | the grace callback is the scheduler's step |
| `RuntimeManager.Manager.SettlementExpiry` | components/runtime_manager/src/runtime_manager.c:165-180 | the settlement callback is the scheduler's step |
| `RuntimeManager.Manager.ScheduleUserWork` | components/runtime_manager/src/runtime_manager.c:353-374 | the item goes to the main or, in GRACE, the pending ring buffer; it is recorded as accepted exactly if the result says so |
| `RuntimeManager.Manager.ScheduleSystemWork` | components/runtime_manager/src/runtime_manager.c:376-397 | the same for system work |
| `RuntimeManager.Manager.WorkerTake` | components/runtime_manager/src/runtime_worker_pool.c:32-36 | the worker receives the item at the front of its class, is counted and stops settlement |
| `RuntimeManager.Manager.WorkerFinish` | components/runtime_manager/src/runtime_worker_pool.c:45-55 | the last worker to finish evaluates the curfew |
| `RuntimeManager.Manager.WatchdogKill` | components/runtime_manager/src/runtime_worker_pool.c:83-116 | the worker is replaced and uncounted, and nothing is evaluated |
| `RuntimeManager.Manager.RegisterCurfewHook` | components/runtime_manager/src/runtime_manager.c:399-420 | a hook is added unless there are four |
| `RuntimeManager.Manager.UnregisterCurfewHook` | components/runtime_manager/src/runtime_manager.c:422-441 | the first occurrence is removed and the others keep their order |
| `RuntimeManager.Manager.WorkTickEvent` | components/tick_manager/src/tick_manager.c:18-42 | a tick is recorded and opens a window |
| `RuntimeManager.Manager.ShiftWorkTick` | components/tick_manager/src/tick_manager.c:69-90 | the next tick lies one interval and the shift after the last |
| `RuntimeManager.Dispatch` | components/runtime_manager/src/runtime_manager.c:60-441 | each event is served by the call or callback it stands for, as the scheduler's step |
| `RuntimeManager.Drive` | components/runtime_manager/src/runtime_manager.c:60-441 | a manager driven from start-up through any events that can happen passes through the states of the execution: timers as its mode demands, never awake for more than 900 ms, every accepted item in exactly one place, settlement exactly when idle and not stranded |
| `PhaseShift.Calculator.Sync` | components/power_manager/src/power_manager.c:144-193 | after five usable delays in a row, and only then, the tick is shifted by what their running mean and the overlap leave of the interval, if anything; the shift is one the scheduler allows and the mean lies among the delays; an unusable delay starts over |
| `PhaseShift.MeanAmong` | components/power_manager/src/power_manager.c:160-163 | the running mean stays among the delays it was taken over |
| `PhaseShift.SteadyMean` | components/power_manager/src/power_manager.c:159-161 | the mean of equal delays is that delay |
| `Navigation.FirstChild` | components/ui_base/src/navigation.c:7-36 | the first of the nearest navigable descendants in pre-order, or none |
| `Navigation.FirstParent` | components/ui_base/src/navigation.c:38-47 | the nearest navigable ancestor, or none |
| `Navigation.Scan` | components/ui_base/src/navigation.c:49-88 | with its two accumulators, the scan finds the stop after or before the origin in the pruned pre-order list |
| `Navigation.FindNext` | components/ui_base/src/navigation.c:90-100 | the successor in the pre-order list of nearest navigable descendants of the nearest navigable ancestor |
| `Navigation.FindPrev` | components/ui_base/src/navigation.c:102-112 | the predecessor in that list |
| `Navigation.ScanConcat` | components/ui_base/src/navigation.c:49-88 | a scan can be cut anywhere, its accumulators carried across |
| `Navigation.NextAndPrevUndo` | components/ui_base/src/navigation.c:90-112 | y follows x if and only if x precedes y |
| `Navigation.Neighbours` | components/ui_base/src/navigation.c:90-112 | adjacent stops are each other's next and previous |
| `Navigation.NavigableIsStop` | components/ui_base/src/navigation.c:49-88 | a navigable object under a navigable ancestor is in that ancestor's list |
| `Navigation.StopsDistinct` | components/ui_base/src/navigation.c:49-88 | no object occurs twice in the list |
| `Navigation.StopsInOrder` | components/ui_base/src/navigation.c:49-88 | the list stands in pre-order: of two entries the earlier lies under an earlier child at the place where their branches part |
| `Navigation.StopFacts` | components/ui_base/src/navigation.c:7-47 | every object in the list is navigable and has the list's owner as its nearest navigable ancestor |
| `Navigation.OnlyStopsMove` | components/ui_base/src/navigation.c:90-112 | an object that is not navigable has no next and no previous |
| `Navigation.ParentOfFirstChild` | components/ui_base/src/navigation.c:7-47 | the parent of the first child of a navigable object is that object |
| `MotionHistory.History.Insert` | components/motion_stage1_engine/src/utils.c:27-39 | the history is the last max_size of the old contents and the new sample; a full ring reads where it writes |
| `MotionHistory.History.At` | components/motion_stage1_engine/src/utils.c:41-46 | logical index i is element i of the contents, oldest first |
| `MotionHistory.HistoryIsLatest` | components/motion_stage1_engine/src/utils.c:27-39 | after any number of insertions the history is the last max_size of everything inserted |
| `Periodicity.CauchySchwarz` | components/motion_stage1_engine/src/step_detection_algo.c:105-117 | the squared inner product never exceeds the product of the energies |
| `Periodicity.CorrelationBounded` | components/motion_stage1_engine/src/step_detection_algo.c:119-131 | every correlation that is computed lies between -1 and 1, so the clamps change nothing |
| `Periodicity.CorrelationIs` | components/motion_stage1_engine/src/step_detection_algo.c:96-133 | every correlation, sign included, times the geometric mean of the two energies is the sum of the products of deviations, all stated over the samples; with a mean of at most 0.00001 it is marked as skipped |
| `Periodicity.Correlate` | components/motion_stage1_engine/src/step_detection_algo.c:96-133 | the sums, the skip and the clamps give the normalised correlation |
| `Periodicity.CorrelateAll` | components/motion_stage1_engine/src/step_detection_algo.c:96-142 | all correlations are stored and the first greatest is remembered |
| `Periodicity.FirstNearBest` | components/motion_stage1_engine/src/step_detection_algo.c:149-176 | the first local maximum within 0.05 of the best, which always exists |
| `Periodicity.Find` | components/motion_stage1_engine/src/step_detection_algo.c:61-187 | the period lies in range; it is confident if and only if some correlation exceeds 0.7, and then the smallest lag that is a local maximum within 0.05 of the best; otherwise the first best lag, or the middle if all were skipped |
| `Periodicity.ChosenUnique` | components/motion_stage1_engine/src/step_detection_algo.c:147-186 | the correlations decide period and confidence |
| `Periodicity.OffsetIgnored` | components/motion_stage1_engine/src/step_detection_algo.c:86-133 | a constant added to every sample changes no correlation |
| `Periodicity.PeriodicIsConfident` | components/motion_stage1_engine/src/step_detection_algo.c:96-186 | a signal of enough energy that repeats with a period in range is recognised with confidence, at a lag of correlation at least 0.95 |
| `Periodicity.HalfPeriodCorrelation` | components/motion_stage1_engine/src/step_detection_algo.c:119-133 | a signal that changes sign every p samples has correlation -1 at lag p |
| `Periodicity.HalfPeriodNotChosen` | components/motion_stage1_engine/src/step_detection_algo.c:147-186 | a half period is never taken for the period while the whole one is in range |
| `Periodicity.PeriodFound` | components/motion_stage1_engine/src/step_detection_algo.c:147-186 | a signal of period p that correlates below 0.95 at every other lag gets the period p |
| `Peaks.Prominence` | components/motion_stage1_engine/src/step_detection_algo.c:231-276 | the loops over both sides give the height above the higher of the two minima, of the sides that reach a full radius |
| `Peaks.ProminenceMeaning` | components/motion_stage1_engine/src/step_detection_algo.c:231-276 | a prominence of at least q > 0 means exactly that some side reaches a full radius and each that does holds a sample lower by q |
| `Peaks.LocalMaximumProminence` | components/motion_stage1_engine/src/step_detection_algo.c:445-456 | a local maximum never has negative prominence |
| `Peaks.AppendPeak` | components/motion_stage1_engine/src/step_detection_algo.c:352-390 | the array prefix becomes the merged candidate list |
| `Peaks.AppendSpaced` | components/motion_stage1_engine/src/step_detection_algo.c:352-390 | merging keeps candidates at least min_interval apart |
| `Peaks.AppendRepresents` | components/motion_stage1_engine/src/step_detection_algo.c:357-379 | merging loses a peak only to one at least as prominent that is not min_interval or more before it |
| `Peaks.TieKeepsFirst` | components/motion_stage1_engine/src/step_detection_algo.c:368-377 | of two close, equally prominent peaks the earlier stays |
| `Peaks.FindCandidates` | components/motion_stage1_engine/src/step_detection_algo.c:441-470 | the array holds the merged candidates of the whole history, within its size |
| `Peaks.CandidatesMerged` | components/motion_stage1_engine/src/step_detection_algo.c:445-470 | candidates are spaced, each is a prominent local maximum, and every prominent local maximum is represented |
| `Peaks.RhythmicNeighbour` | components/motion_stage1_engine/src/step_detection_algo.c:297-337 | a neighbour is reported if and only if there is one at an acceptable interval, with the least distance from the period |
| `Peaks.IsStep` | components/motion_stage1_engine/src/step_detection_algo.c:484-574 | the tests accept a candidate if and only if it lies in the window among enough activity and is in time, or clear with a neighbour while there is no period, or the clear opening of a walk |
| `Peaks.ActivityIs` | components/motion_stage1_engine/src/step_detection_algo.c:499-503 | the variance around a peak is the mean of squares less the square of the mean over its neighbourhood |
| `Peaks.NeighbourhoodIs` | components/motion_stage1_engine/src/step_detection_algo.c:196-214 | the neighbourhood holds exactly the samples within the radius |
| `Peaks.RadiusIs` | components/motion_stage1_engine/src/step_detection_algo.c:189-194 | the radius is 45 percent of the period to the nearest sample |
| `Peaks.WindowsAbut` | components/motion_stage1_engine/src/step_detection_algo.c:480-482 | consecutive windows abut, so every sample is looked at in exactly one |
| `Stage1.StepIff` | components/motion_stage1_engine/src/step_detection_algo.c:484-574 | what a step is with the tuning of the device, in numbers |
| `Peaks.StepBound` | components/motion_stage1_engine/src/step_detection_algo.c:482-574 | a window of w samples yields at most (w-1)/min_interval + 1 steps |
| `Peaks.Detect` | components/motion_stage1_engine/src/step_detection_algo.c:392-580 | no steps without window or history; otherwise the steps accepted among the candidates for the period found, within the bound |
| `Peaks.ReportedUnique` | components/motion_stage1_engine/src/step_detection_algo.c:392-580 | history, window and gate decide the number of steps |
| `StepGate.Conservation` | components/motion_stage1_engine/src/step_detection_algo.c:582-659 | over every run of windows: released, pending, timed-out and clipped steps make up the detected ones; walking has nothing pending and fewer than 42 quiet samples, not walking at most three pending |
| `StepGate.NothingClipped` | components/motion_stage1_engine/src/step_detection_algo.c:634-639 | windows of at most 252 steps lose none to the 8-bit counter |
| `StepGate.ClippedExample` | components/motion_stage1_engine/src/step_detection_algo.c:634-639 | a window of 253 steps may lose one |
| `StepGate.ReleasedAreBouts` | components/motion_stage1_engine/src/step_detection_algo.c:582-659 | the released steps are exactly those of the bouts, ended by 42 quiet samples, that reach four steps |
| `StepGate.BoutsPartition` | components/motion_stage1_engine/src/step_detection_algo.c:582-659 | every detected step is in exactly one bout |
| `Stage1.WindowFitsIff` | components/motion_stage1_engine/src/step_detection_algo.c:419-420 | the assertion on the window length holds exactly for windows under 63 samples, or under 126 once there is history |
| `Stage1.Engine.Accept` | components/motion_stage1_engine/src/step_detection_algo.c:582-659 | the context fields and the result are those of the gate |
| `Stage1.Engine.Process` | components/motion_stage1_engine/src/motion_detection_engine_stage1.c:94-101 | samples enter the history, the search reports on it, the gate lets through what it should, and the total count grows by what is returned |
| `Stage1.Engine.CountIsTrue` | components/motion_stage1_engine/src/motion_detection_engine_stage1.c:100-101 | the sum of everything Process has returned is the steps of the bouts that count; with pending and timed-out steps it makes up the detected ones, at most one per eleven samples of a window and one over |
| `Stage1.CountedSteps` | components/motion_stage1_engine/src/motion_detection_engine_stage1.c:100-101 | the same for any list of windows within bounds |

## Left out

- Screens, watch faces, apps and the mock display layer: user interface.
- Bluetooth stack callbacks and SPI, I2C, RMT, ADC, LEDC, GPIO and NVS drivers: foreign calls.
- Pressure compensation and calendar conversion: the first is decided by calibration data, the second by the C library.
- Event manager, notification list, display state machine, wakelock counter, battery filter, infrared symbols: they would only add easy members.
- Boot, shutdown and deinitialisation of all managers, and mutex time-outs.
- Races inside worker recovery, and between stopping a timer and its callback already under way: outside the atomic-step assumption.
- Watchdog time-outs as clocks: a kill may happen at any moment a user worker is busy; cooperative abort flags are not modelled.
- Lost or altered replies of the update protocol: without sequence numbers no safety claim holds. When no reply comes the sender repeats the frame without counting, so no claim of termination is made for that case.
- The size handshake's time-out, partition selection and boot-partition switch of the update.
- The packet dump for logging in the packet handler, and payload bytes of a message beyond its length.
- Library sorting at start-up of the alarm manager: `Alarms.RunSafe` starts from a sorted list.
- Gravity estimation, smoothing of the vertical acceleration and the no-motion detector: float tuning.
- Rounding of floats, NaN and infinities in step detection.
- RingBuffer.Ring.Init: refusals for null arguments, a zero element size or a mutex that cannot be created are not modelled.
- RuntimeManager.Manager.WatchdogKill: a replacement task that cannot be created is not modelled; the worker is always there again.
- RuntimeManager.Manager.WorkTickEvent: the counters of dependent ticks and the events they publish are left out; they do not touch the scheduler.
- Stage1.Engine.Process: only the accelerometer mode, which start-up selects and nothing changes, is modelled; in the gyroscope mode no sample would enter the history.
