# Motor gateway: a verified model

The repository is the firmware of a two-core robot gateway. Core 0 receives UDP
packets and passes motor commands through a lock-free ring in shared memory;
Core 1 drains the ring a thousand times a second, keeps one command slot for
each of 23 motors, and sends CAN frames on eight buses. Core 0 also logs through
a byte queue of variable-length records. This project models that path in Dafny
and proves what it promises:

| file | what it models |
|---|---|
| `Bits.dfy`, `ByteWords.dfy`, `Float32.dfy`, `Memory.dfy`, `Options.dfy` | 32-bit arithmetic and masks, packed fields, IEEE 754 single-precision values, `memcpy`, optional values |
| `RingIndex.dfy`, `RingProtocol.dfy`, `RingBuffer.dfy`, `RingRefinement.dfy` | the ring: index arithmetic, every interleaving of the two cores, the object updated in place, and the object as the steps of the interleavings |
| `MotorCommand.dfy`, `CommandStream.dfy` | the 24-byte command and its framing in the ring |
| `Crc32Table.dfy`, `Gf2.dfy`, `Crc32.dfy`, `XgwProtocol.dfy` | CRC-32 as a polynomial remainder over GF(2), the table-driven loop, packet sealing |
| `UdpInterface.dfy`, `PacketCommands.dfy`, `WireFormat.dfy` | packet checks and conversion, what the checks promise about the commands let through, and both in raw bytes |
| `LogRecord.dfy`, `LogQueueSpec.dfy`, `LogQueue.dfy`, `LogHistory.dfy`, `LogRuns.dfy` | the log queue: framing, eviction, the object in place, whole runs, and whole runs of the object |
| `Quantiser.dfy`, `MotorMapping.dfy`, `CanFrames.dfy`, `CanInterface.dfy` | float scaling, motor table and lookup, CAN frames, Tx slot rotation |
| `Core1Spec.dfy`, `Core1Runs.dfy`, `Delivery.dfy`, `MotionRuns.dfy`, `Feed.dfy`, `Core1.dfy` | the command table and mask of Core 1, whole runs of its cycle, what the CAN controllers take of them, motion commands, what Core 0 sends meanwhile, the code in place |
| `EndToEnd.dfy` | start-up of both cores, and from a sealed packet to the frame the motor's CAN controller takes |

The central results are these.

* **Ring.** Each operation is split into its steps (load each index, copy byte
  by byte, publish). Under every schedule of both cores and across any number of
  2^32 wraps the bytes retired are a prefix of the bytes published, a writer
  with a stale `read_index` never touches an unread slot, and every step refines
  an atomic queue.
* **CRC.** The literal table is eight shift steps per entry; the loop computes
  the bit-serial CRC of section 3.2.9 of IEEE 802.3 for every byte string, and
  that CRC is the remainder of the message polynomial. Any non-zero change within 32
  consecutive bits changes it, so a sealed packet damaged within four bytes,
  outside its crc32 and payload_len fields, is never accepted.
* **Log queue.** Over every run of pushes and pops, with any outcome of the mutex
  and semaphore, the queue is a concatenation of whole records; what left is the
  oldest prefix; eviction takes the fewest records that make room; the recovery
  branches are never taken; and bytes and records balance.
* **One-time commands.** The code relies on an invariant it never states: a slot
  that holds enable, disable or zero has its bit in the update mask. From it:
  over every run a received one-time command is handed to the CAN driver in
  exactly one frame on its motor's bus, unless a later command took its slot
  first; while the stop flag is set nothing is sent and nothing is lost; after
  the flag clears each pending command is handed over once.
* **Delivery.** Handed over is not delivered: the code ignores what the driver
  returns and resets the table (`ccu_ti_multi_core_realtime/main.c:677-684`,
  `693-783`). At a clear transmission the controller takes exactly one frame for
  a selected motor if and only if its bus started and the request at the motor's
  place is taken (`Delivery.TakenExactly`; `Core1.FrameInTxSlot` says in which Tx
  slot). Over every run: pending + received = taken + lost on a bus that never
  started + lost to a refusal + overwritten + pending (`Delivery.DeliveryLedger`).
  So "a received disable reaches its motor" is false of the code: one whose frame
  is not taken is lost, and nothing more is sent for it (`Delivery.DisableLost`).
* **Motion commands.** They have no such guarantee. Over every run each one is
  handed over in a first frame, superseded by a later command, dropped by a
  disable, or still waiting (`MotionRuns.MotionLedger`), and the first frames are
  those taken and those lost (`FirstFramesDelivered`). When the next frame comes
  is characterised exactly: after a clear transmission, a motor that the next
  drain does not address is sent its frame if and only if that drain takes no
  command for any motor of the table (`NextCycleSends`), because the mask restarts
  empty and an empty mask alone selects every motor
  (`ccu_ti_multi_core_realtime/main.c:554-556`, `783`). So "a motion command held
  back by a one-time command goes out one cycle later" is false of the code: a
  motion command that arrives with an enable for another motor is not sent for as
  long as every cycle brings one command for that other motor (`MotionNeverSent`,
  for every number of cycles), and over a run that never addresses a motor its
  frames are exactly the cycles that drained nothing for the table
  (`FramesWhileUnaddressed`).
* **Main loop.** `Core1.Pipeline.MainLoop` runs the code of any number of cycles,
  with Core 0 sending at every point in between, and ends in the state, with the
  frames handed over and with the frames taken, of a run to which those theorems
  apply. What Core 0 adds to the ring meanwhile is some of its packets in their
  order, each whole.
* **End to end.** Core 0 handles a sealed UDP packet and Core 1 runs three cycles
  or more (fewer if they take what is waiting) on the same ring, with other
  commands waiting before the packet and more sent after it. If the ring takes
  the packet, the last command of the packet for a motor, unless one for the same
  motor comes later still, is found in its slot by the first clear transmission
  after its drain. What comes later is the first of what Core 0 sends in those
  cycles: nothing if it is quiet, and nothing for a motor that none of its
  packets addresses. Then, if the motor's bus started and its controller takes
  the request, a mode change is taken as the only frame to that motor, from which
  the mode can be told, up to the two mechanical zero modes, which share a frame;
  and if no one-time command is in the table, so is a motion command, each of its
  floats clamped and rounded down by less than one quantisation step, unless it
  is a NaN. In all other cases the controller takes no frame for the motor in
  that transmission. `EndToEnd.FirstModes` starts both cores, serves a first
  packet and goes on with the main loop, all as one run from the defaults.
* **In bytes and numbers.** What the constants and conversions mean is stated
  apart from them. A packet is accepted exactly if its raw bytes say so, and which
  byte of it ends up where in the ring is given (`WireFormat.JudgeOnBytes`,
  `MotionPacketBytes`). The value of a float word is fixed by order, spacing,
  doubling, sign and one value (`Float32`). A frame is given by the type, level and
  data bytes of the CAN protocol (`CanFrames.FrameInNumbers`, `MotionBits`). After a
  disable every motor reads 0 for torque, motion and stiffness and 2 for damping
  from its next frame, whatever it was commanded before
  (`Core1Spec.RestsAfterTransmission`, `Delivery.QuietAfterDisable`).
* **Two conditions on packets.** The checks are defined exactly for headers whose
  payload length is at most 2^32 - 36 (`UdpInterface.DefinedExactly`): for a
  larger one the 32-bit size wraps, passes the size test, and the copy that
  follows leaves its buffer, before any CRC is compared. And no check looks at a
  float: a sealed record with any five words is delivered
  (`MotionCommandsDelivered`), so what is said of values holds of just the words
  that are not a NaN, which `Float32.NaNBytes` lists byte by byte.

The ring is modelled twice on purpose: `RingProtocol` as interleaved steps, and
`RingBuffer` as the object one core updates between two steps of the other.
`RingRefinement` proves that each operation on the object is the sequence of its
steps: same data, indices, history and return code.

## Model

| member | source | states |
|---|---|---|
| RingProtocol.AnyInterleavingIsFifo | ccu_ti_multi_core_freertos/gateway_shared.c:865-968 | after any schedule of the steps of both cores, bytes retired are a prefix of bytes published, at most `mask` are in flight, raw indices are the unbounded counts mod 2^32, every peek showed the next bytes |
| RingProtocol.StaleWriterMissesUnread | ccu_ti_multi_core_freertos/gateway_shared.c:865-900 | whatever index snapshot a writer decided on, no byte it copies lands in a slot still unread |
| RingProtocol.CheckedCallsAreNotRefused | ccu_ti_multi_core_freertos/gateway_shared.c:821-885 | a read within the last availability answer, or a write within the last free-space answer, is not refused whatever happened in between |
| RingProtocol.RefusedExactly | ccu_ti_multi_core_freertos/gateway_shared.c:865-942 | FULL and EMPTY are returned exactly when the bytes do not fit, or are not all published, at the index load |
| RingProtocol.StepsRefineQueue | ccu_ti_multi_core_freertos/gateway_shared.c:886-968 | every step keeps the invariant and refines an atomic queue: only publishing changes it, by appending the source or removing what was delivered |
| RingProtocol.RunInv | ccu_ti_multi_core_realtime/gateway_shared.c:848-951 | the ring invariant holds after every schedule |
| RingProtocol.PeekThenSkipIsRead | ccu_ti_multi_core_freertos/gateway_shared.c:973-1046 | peek then skip of n bytes equals read of n: code, bytes, final state, for every n including 0 and too many |
| RingIndex.SizeTestIsPowerOfTwo | ccu_ti_multi_core_freertos/gateway_shared.c:781-785 | the bit test accepts exactly the powers of two, and 0 |
| RingIndex.FreePlusAvailable | ccu_ti_multi_core_freertos/gateway_shared.c:821-860 | for every pair of 32-bit indices free + available = mask |
| RingIndex.FreeIsExact | ccu_ti_multi_core_freertos/gateway_shared.c:830-836 | the masked difference is the free space in terms of the unbounded counts |
| RingIndex.AvailableIsExact | ccu_ti_multi_core_freertos/gateway_shared.c:852-858 | the masked difference is the number of unread bytes |
| RingIndex.SlotIsMod | ccu_ti_multi_core_freertos/gateway_shared.c:891-900 | the split copy puts stream byte X + k at (X + k) mod size, also across an index wrap |
| RingBuffer.Init | ccu_ti_multi_core_freertos/gateway_shared.c:781-800 | success exactly for the sizes the bit test accepts: powers of two, whose ring is empty, and 0, which makes no usable ring |
| RingBuffer.RingBuf.GetFree | ccu_ti_multi_core_freertos/gateway_shared.c:821-838 | returns mask minus the unread bytes |
| RingBuffer.RingBuf.GetAvailable | ccu_ti_multi_core_realtime/gateway_shared.c:826-843 | returns the number of unread bytes |
| RingBuffer.RingBuf.Write | ccu_ti_multi_core_freertos/gateway_shared.c:865-914 | appends the whole source or changes nothing; the three return codes |
| RingBuffer.RingBuf.Read | ccu_ti_multi_core_realtime/gateway_shared.c:902-951 | delivers and removes the oldest n bytes or changes nothing; the three return codes |
| RingBuffer.RingBuf.Peek | ccu_ti_multi_core_freertos/gateway_shared.c:973-1015 | delivers the oldest n bytes and leaves the ring as it was |
| RingBuffer.RingBuf.Skip | ccu_ti_multi_core_freertos/gateway_shared.c:1020-1046 | removes exactly the oldest n bytes or changes nothing |
| RingRefinement.ReadSteps | ccu_ti_multi_core_realtime/gateway_shared.c:902-951 | a read on the object leaves the shared memory, history and code of its protocol steps run with none of the other core between, and delivers the bytes they retire |
| RingRefinement.PeekSteps | ccu_ti_multi_core_freertos/gateway_shared.c:973-1015 | the same for a peek, whose bytes are those the steps note |
| RingRefinement.SkipSteps | ccu_ti_multi_core_freertos/gateway_shared.c:1020-1046 | the same for a skip |
| RingRefinement.WriteSteps | ccu_ti_multi_core_freertos/gateway_shared.c:865-914 | the same for a write, byte by byte against the one or two block copies |
| RingRefinement.PlacedIsWrapped | ccu_ti_multi_core_freertos/gateway_shared.c:891-900 | for every position and source, the byte steps leave the buffer the block copies leave |
| RingRefinement.AvailableSteps | ccu_ti_multi_core_freertos/gateway_shared.c:843-860 | the same for the availability check |
| RingRefinement.FreeSteps | ccu_ti_multi_core_freertos/gateway_shared.c:821-838 | the same for the free-space check |
| MotorCommand.DecodeEncode | gateway_shared.h:192-202 | a command survives the 24-byte layout |
| MotorCommand.EncodeDecode | gateway_shared.h:192-202 | every 24-byte string is the layout of exactly one command |
| ByteWords.ValueBytes | common/xgw_protocol.h:117-121 | a word field has a given value exactly if its bytes are the four bytes of the value, the low one first |
| MotorCommand.ReadIsPrefix | ccu_ti_multi_core_realtime/main.c:398-459 | whole commands read off a stream are the first commands written to it |
| CommandStream.CommandsArriveWholeAndInOrder | ccu_ti_multi_core_realtime/main.c:398-459 | in every interleaving of checked reads and whole-command writes, commands received are a prefix of commands sent and no read returns EMPTY |
| CommandStream.RawIndexAlignment | ccu_ti_multi_core_realtime/main.c:413-429 | a raw index of whole commands is a multiple of 24 exactly when the number of wraps is a multiple of 3 |
| Crc32Table.TableIsEightSteps | common/crc32.c:21-65 | each of the 256 literals is eight shift-and-XOR steps of its index |
| Crc32.Crc32Core | common/crc32.c:71-82 | for every byte string the table loop computes the bit-serial CRC |
| Crc32.TableStep | common/crc32.c:75-77 | one table step equals eight serial steps with the byte's bits |
| Crc32.CrcIsPolynomialRemainder | common/crc32.c:71-82 | the CRC is the complemented remainder, modulo the generator polynomial, of the message with its first 32 bits complemented |
| Crc32.KnownCrcs | common/crc32.c:71-82 | the CRC of no bytes is 0 and that of the one byte 0x31 is 0x83DCEFB7 |
| Gf2.FeedIsRemainder | common/crc32.c:75-77 | feeding bits through the shift register is polynomial division |
| Gf2.FeedInjective | common/crc32.c:75-77 | the register step is a bijection: same bits, different registers stay different |
| Crc32.CrcDetectsBurst | common/crc32.c:71-82 | two messages that differ only within 32 consecutive bits have different CRCs |
| Crc32.CrcDetectsFourBytes | common/crc32.c:71-82 | so do two that differ only within four adjacent bytes |
| XgwProtocol.ParseBytes | common/xgw_protocol.h:110-122 | the packed header layout can be read back |
| XgwProtocol.CopyStaysInside | common/xgw_protocol.c:110-128 | for every 32-bit payload length, the copy behind the size test stays inside its buffer if and only if the length is at most 2^32 - 36 |
| XgwProtocol.WrappedSize | common/xgw_protocol.c:110-114 | length 0xFFFFFFE0 passes the size test although the packet is larger than the buffer |
| XgwProtocol.Crc32Calculate | common/xgw_protocol.c:101-138 | up to a payload length of 2^32 - 36: the CRC of the packet with its crc32 field zeroed, or 0 beyond the buffer |
| XgwProtocol.Crc32Validate | common/xgw_protocol.c:147-167 | for the same lengths, true exactly when the recomputed CRC equals the field |
| XgwProtocol.SealedValidates | common/xgw_protocol.c:101-167 | a packet sealed with the calculated CRC validates |
| XgwProtocol.ValidMeans | common/xgw_protocol.c:147-167 | up to 1024 bytes, validity says the field is the CRC of all other bytes |
| XgwProtocol.BurstIsRejected | common/xgw_protocol.c:101-167 | any change within four adjacent bytes outside crc32 and payload_len makes a valid packet invalid |
| XgwProtocol.CrcChangeIsRejected | common/xgw_protocol.c:147-157 | so does any change of the crc32 field alone |
| XgwProtocol.OversizeIsNotCovered | common/xgw_protocol.c:114-122 | beyond 1024 bytes, up to those lengths, a packet validates exactly when its crc32 field is 0 |
| WireFormat.NewHeaderBytes | common/xgw_protocol.c:73-83 | the 32 bytes of a new header: 5A 5A 00 00 02, type, count, 00, sequence number and length with the low byte first, and zeros |
| WireFormat.SealedBytes | common/xgw_protocol.c:101-138 | sealing writes the CRC of the packet, low byte first, into bytes 24 to 27 (0 beyond 1024 bytes) and changes no other byte |
| UdpInterface.DefinedExactly | ccu_ti_multi_core_freertos/enet/xgw_udp_interface.c:617-638 | the checks are defined on an item exactly when, should it get as far as the CRC, the size test keeps its copy inside the buffer |
| WireFormat.DefinedOnBytes | ccu_ti_multi_core_freertos/enet/xgw_udp_interface.c:617-638 | in bytes: exactly if a packet of at least 32 bytes that begins with 5A 5A announces at most 0xFFFFFFDC bytes, as the little-endian number in bytes 12 to 15 |
| UdpInterface.Udp.Check | ccu_ti_multi_core_freertos/enet/xgw_udp_interface.c:617-656 | on every defined item, the verdict of the five checks in their order, and by how much each error counter moves, mod 2^32 |
| WireFormat.JudgeOnBytes | ccu_ti_multi_core_freertos/enet/xgw_udp_interface.c:617-656 | the verdict in bytes, in both directions: accepted exactly if 32 bytes arrived, bytes 0 and 1 are 5A, bytes 24 to 27 hold the CRC of the announced packet with them zeroed (0 beyond 1024 bytes), byte 5 is the type and byte 6, the count, is at most 23; else which check refuses it |
| WireFormat.MotionPacketBytes | ccu_ti_multi_core_freertos/enet/xgw_udp_interface.c:658-678 | an accepted packet of type 2 becomes, for each record, its number, the bus and reserve of the slot, mode 255 and bytes 4 to 23 of the record, 24 bytes each in their order |
| WireFormat.ModePacketBytes | ccu_ti_multi_core_freertos/enet/xgw_udp_interface.c:750-769 | one of type 7 becomes number and mode of each record in bytes 0 and 2 of 24, the rest zero |
| WireFormat.CommandBytes | gateway_shared.h:192-202 | number, bus, mode and reserve, then position, velocity, torque, kp and kd with the low byte first |
| WireFormat.CmdRecordBytes | common/xgw_protocol.h:156-165 | number, mode and padding of a motion record, then the same five words |
| WireFormat.SetRecordBytes | common/xgw_protocol.h:266-270 | number, mode and padding of a mode record |
| UdpInterface.Udp.ProcessMotorCmd | ccu_ti_multi_core_freertos/enet/xgw_udp_interface.c:617-697 | on every defined item: an accepted packet whose commands fit puts exactly those commands, in MIT mode, into the ring and notifies; otherwise the ring is untouched; all counters |
| UdpInterface.Udp.ProcessMotorSet | ccu_ti_multi_core_freertos/enet/xgw_udp_interface.c:699-787 | the same for mode changes, whose other fields are zero |
| UdpInterface.Udp.Send | ccu_ti_multi_core_freertos/enet/xgw_udp_interface.c:680-696 | all commands in one write or none; an empty packet fails |
| UdpInterface.Udp.Core0Send | ccu_ti_multi_core_freertos/gateway_shared.c:1089-1108 | the free-space check is for the log only; the write decides |
| PacketCommands.InitAnnounces | common/xgw_protocol.c:63-84 | a header initialised with a count and a length announces them, so what follows applies to it once sealed |
| PacketCommands.SealedAccepted | ccu_ti_multi_core_freertos/enet/xgw_udp_interface.c:617-656 | every sealed packet that fits an item passes all checks, whatever follows it in the buffer |
| PacketCommands.MotionCommandsDelivered | ccu_ti_multi_core_freertos/enet/xgw_udp_interface.c:658-678 | up to 23 motion commands in a sealed packet come out as those commands, mode forced to 255 |
| PacketCommands.ModeChangesDelivered | ccu_ti_multi_core_freertos/enet/xgw_udp_interface.c:750-769 | up to 23 mode changes come out as those modes |
| PacketCommands.DamagedNotAccepted | ccu_ti_multi_core_freertos/enet/xgw_udp_interface.c:627-638 | a sealed packet damaged within four adjacent bytes outside crc32 and payload_len is accepted as neither kind |
| PacketCommands.CommandsAreCovered | ccu_ti_multi_core_freertos/enet/xgw_udp_interface.c:648-658 | the motion commands taken from an accepted packet are determined by what the checks looked at if and only if that reaches to the end of the last command; of a packet beyond 1024 bytes they look at the header only |
| PacketCommands.ModeChangesAreCovered | ccu_ti_multi_core_freertos/enet/xgw_udp_interface.c:722-769 | the same for mode changes, except that the two padding bytes of the last record need not be covered |
| PacketCommands.EmptyPacketAccepted | ccu_ti_multi_core_freertos/enet/xgw_udp_interface.c:648-658 | a sealed packet with count 23 and no payload is accepted, nothing after its header having been looked at, and its 23 commands are what the receive buffer holds |
| LogRecord.HeaderChecksum | ccu_ti_multi_core_freertos/ccu_log.c:192-202 | the loop sums the first six header bytes mod 2^16 |
| LogRecord.ChecksumIsSum | ccu_ti_multi_core_freertos/ccu_log.c:192-202 | the sum is exact: it cannot reach 2^16 |
| LogRecord.ByteChangesSum | ccu_ti_multi_core_freertos/ccu_log.c:192-202 | any change of one of the first six header bytes changes the checksum |
| LogRecord.FrameInBytes | ccu_ti_multi_core_freertos/ccu_log.c:739-773 | the eight header bytes of a frame in numbers, and the two payloads after them |
| LogRecord.FrameParses | ccu_ti_multi_core_freertos/ccu_log.c:739-773 | a framed record, whatever follows it, parses back to itself and passes the checksum |
| LogRecord.FramesInjective | ccu_ti_multi_core_freertos/ccu_log.c:739-773 | a concatenation of framed records determines the records |
| LogQueue.LogQueue.QueueWrite | ccu_ti_multi_core_freertos/ccu_log.c:443-466 | appends all bytes around the wrap, or refuses and changes nothing |
| LogQueue.LogQueue.QueueRead | ccu_ti_multi_core_freertos/ccu_log.c:471-493 | removes and delivers the oldest bytes, or refuses and changes nothing |
| LogQueue.LogQueue.GetAvailable | ccu_ti_multi_core_freertos/ccu_log.c:420-430 | capacity minus the bytes in use |
| LogQueue.LogQueue.SkipPayload | ccu_ti_multi_core_freertos/ccu_log.c:695-718 | the 64-byte chunk loop computes the specified skip |
| LogQueue.LogQueue.MakeRoom | ccu_ti_multi_core_freertos/ccu_log.c:651-730 | the eviction loop with all its recovery branches computes the specified eviction and terminates |
| LogQueue.LogQueue.Push | ccu_ti_multi_core_freertos/ccu_log.c:609-787 | selection by output mode, mutex failure, eviction and storing: the whole new queue state and counters |
| LogQueue.LogQueue.Take | ccu_ti_multi_core_freertos/ccu_log.c:798-871 | every exit of the pop, with the record delivered and the whole new state |
| LogQueue.SelectPayloads | ccu_ti_multi_core_freertos/ccu_log.c:609-641 | in UART, SYSLOG and BOTH mode a record of exactly the texts of that mode if each has 1 to 447 bytes, whatever the other text is; else, and always in mode NONE, refused |
| LogQueueSpec.SkipIsAdvance | ccu_ti_multi_core_freertos/ccu_log.c:691-718 | the chunked skip equals one tail advance |
| LogQueueSpec.SkipStopsShort | ccu_ti_multi_core_freertos/ccu_log.c:695-718 | one that runs out of bytes leaves the last piece shorter than 64 |
| LogQueueSpec.DamageIsNoticed | ccu_ti_multi_core_freertos/ccu_log.c:672-681 | on whole records of which one of the first six bytes has changed, both a pop and an eviction empty the queue, deliver nothing and count one drop |
| LogQueueSpec.Recovery | ccu_ti_multi_core_freertos/ccu_log.c:659-690 | what the other recovery branches do: fewer than 8 bytes, and lengths of 512 or more |
| LogQueueSpec.EvictedIsShortest | ccu_ti_multi_core_freertos/ccu_log.c:655-730 | eviction removes the fewest oldest records that make room |
| LogQueueSpec.EvictOne | ccu_ti_multi_core_freertos/ccu_log.c:655-729 | each eviction pass that goes on frees at least the 8 header bytes |
| LogQueueSpec.PushKeepsFraming | ccu_ti_multi_core_freertos/ccu_log.c:643-787 | on whole records a push keeps the suffix eviction left plus the new record, and never takes a checksum, length or still-full branch |
| LogQueueSpec.PopTakesOldest | ccu_ti_multi_core_freertos/ccu_log.c:798-871 | a pop delivers the oldest record unchanged and removes exactly its bytes |
| LogHistory.EveryRunConservesRecords | ccu_ti_multi_core_freertos/ccu_log.c:643-871 | over every run: queue content, removed prefix, delivery order, byte and record balance, and the counters pushed, popped, overruns and dropped mod 2^32 |
| LogHistory.SizeCounters | ccu_ti_multi_core_freertos/ccu_log.c:775-779 | after every run current_bytes is the number of bytes in use and peak_bytes the largest use so far |
| LogRuns.RunQueue | ccu_ti_multi_core_freertos/ccu_log.c:609-871 | after any sequence of log and flush calls on a new queue object, its state is that of the run above, and the records handed out are that run's deliveries in order |
| LogRuns.LogThenFlush | ccu_ti_multi_core_freertos/ccu_log.c:609-871 | on an empty queue object with both locks: what is logged in each mode is handed out again, whole and with its level, exactly if the texts of that mode have 1 to 447 bytes; else the call returns -1 and nothing is handed out |
| Quantiser.ResultInRange | ccu_ti_multi_core_realtime/motor_mapping.c:384-391 | the level is within 0..2^bits-1 for every real input |
| Quantiser.Monotone | ccu_ti_multi_core_realtime/motor_mapping.c:384-391 | a larger input never gives a smaller level |
| Quantiser.LevelInNumbers | ccu_ti_multi_core_realtime/motor_mapping.c:384-391 | for 16 bits: 0 up to the lower limit, 65535 from the upper one on, and in between the last of 65535 equal parts that the value has reached |
| Quantiser.ValueInNumbers | ccu_ti_multi_core_realtime/motor_mapping.c:366-371 | the value of a 16-bit level, and the step between two |
| Quantiser.LevelRoundTrip | ccu_ti_multi_core_realtime/motor_mapping.c:366-391 | level to value to level is the identity |
| Quantiser.ValueRoundTrip | ccu_ti_multi_core_realtime/motor_mapping.c:366-391 | value to level to value is at most the clamped value and less than one step below it |
| MotorMapping.RobotTable | ccu_ti_multi_core_realtime/motor_mapping.c:175-216 | the 23 entries have distinct (id, bus) pairs in range and ordered limits |
| MotorMapping.RobotByNumber | ccu_ti_multi_core_realtime/motor_mapping.c:175-216 | bus and type of each motor by the digits of its CAN number: limb, half of the limb and joint |
| MotorMapping.RobotNumbers | ccu_ti_multi_core_realtime/motor_mapping.c:175-216 | the CAN numbers in the order of the table |
| MotorMapping.RobotIsSymmetric | ccu_ti_multi_core_realtime/motor_mapping.c:175-216 | the right side has the types of the left, ten numbers lower |
| MotorMapping.LimitsInNumbers | ccu_ti_multi_core_realtime/motor_mapping.c:230-247 | the ranges of each type, symmetric about 0 but for the gains, which start at 0 |
| MotorMapping.BuildLookup | ccu_ti_multi_core_realtime/motor_mapping.c:283-298 | each cell holds the last motor with its pair, 0xFF if none |
| MotorMapping.GetIndex | ccu_ti_multi_core_realtime/motor_mapping.h:93-102 | on a lookup built from a table, the last motor with the pair, 0xFF for none or for a pair out of range |
| MotorMapping.LookupIsSearch | ccu_ti_multi_core_realtime/motor_mapping.h:93-102 | for distinct in-range pairs every query agrees with linear search: a motor with the pair if there is one, else 255 |
| MotorMapping.LookupInvertsTable | ccu_ti_multi_core_realtime/motor_mapping.h:93-102 | and the lookup inverts the table |
| MotorMapping.LookupDiffersExactly | ccu_ti_multi_core_realtime/motor_mapping.c:290-298 | for any table it agrees with linear search exactly on pairs that do not repeat |
| CanFrames.IdFields | ccu_ti_multi_core_realtime/main.c:611-641 | the OR of shifted fields is a 29-bit identifier from which type, level and motor can be read |
| CanFrames.FrameIsAddressed | ccu_ti_multi_core_realtime/main.c:604-667 | every frame is an 8-byte extended frame for its motor, and its type tells one-time from motion |
| CanFrames.FrameInNumbers | ccu_ti_multi_core_realtime/main.c:580-618 | the identifier in numbers: type 3 for mode 1, 4 for mode 0, 6 for modes 2 to 4 and 1 for all others; of a one-time frame the level is 0 and the first byte is 1 exactly for modes 2 and 4 |
| CanFrames.LevelsOfWords | ccu_ti_multi_core_realtime/main.c:636-655 | each level of a motion frame is that of the value of its word between its limits, turned with the motor but for the gains |
| CanFrames.TurnedMeans | ccu_ti_multi_core_realtime/main.c:636-651 | direction 1 keeps a value and -1 negates it |
| CanFrames.MotionBits | ccu_ti_multi_core_realtime/main.c:636-666 | the identifier of a motion frame carries type 1, the torque level and the motor; its data are position, velocity, kp and kd with the high byte first |
| CanFrames.MotionFrameValues | ccu_ti_multi_core_realtime/main.c:630-667 | for every word but a NaN, what a motor reads from its frame is the commanded quantity, clamped and rounded down by less than one step |
| CanFrames.ReadMeans | ccu_ti_multi_core_realtime/motor_mapping.c:366-391 | in values: the one read is below the clamped one by less than a step, and two that fit the same frame differ by less than a step once clamped |
| CanFrames.OneTimeFrameTellsMode | ccu_ti_multi_core_realtime/main.c:580-618 | the modes a receiver infers from type and first byte are exactly those with this frame; only the two mechanical zero modes share one |
| Float32.NaNBytes | ccu_ti_multi_core_realtime/motor_mapping.c:384-391 | the words that are a NaN, for which both clamp tests are false and the cast is undefined |
| Float32.InfinityIsHuge | ccu_ti_multi_core_realtime/motor_mapping.c:384-391 | the infinities count as values of 2^128 in size |
| Float32.Constants | ccu_ti_multi_core_realtime/main.c:853-860 | the stored words are 0 and 2.0 |
| Float32.SignNegates | ccu_ti_multi_core_realtime/main.c:636-655 | flipping the sign bit of a word negates its value |
| Float32.StrictlyIncreasing | ccu_ti_multi_core_realtime/main.c:636-655 | of two words without a sign that are no NaN the larger number has the larger value, and conversely |
| Float32.ExponentDoubles | ccu_ti_multi_core_realtime/main.c:636-655 | one more in a normal exponent doubles the value |
| Float32.EquallySpaced | ccu_ti_multi_core_realtime/main.c:636-655 | three words in a row have equally spaced values as long as the first two share their exponent |
| Float32.OneIsOne | ccu_ti_multi_core_realtime/main.c:636-655 | 0x3F800000 is 1 |
| CanInterface.Bus.constructor | ccu_ti_multi_core_realtime/can_interface.c:456-511 | a started bus is valid: rotation index 0, 32 slots, nothing submitted or taken, initialised or not as its controller came up |
| CanInterface.Bus.TransmitBatch | ccu_ti_multi_core_realtime/can_interface.c:637-717 | return value, rotation index, counters, slots and the frames taken, for every batch and every answer of the hardware |
| CanInterface.EveryRequestCounted | ccu_ti_multi_core_realtime/can_interface.c:652-695 | successes plus errors are the frames with dlc <= 8 |
| CanInterface.RequestKeepsSlots | ccu_ti_multi_core_realtime/can_interface.c:684-695 | one request, accepted or refused, spoils no accepted frame within 32 requests of it |
| CanInterface.SmallBatchIntact | ccu_ti_multi_core_realtime/can_interface.c:637-717 | in a batch of at most 32, accepted frames lie in consecutive slots mod 32 in order, none overwritten |
| CanInterface.Bus.Fill | ccu_ti_multi_core_realtime/can_interface.c:659-684 | the element carries the frame's identifier (a standard one in bits 18 to 28), flags, length and data; bytes beyond the length may be stale |
| Core1Spec.TakeInBatches | ccu_ti_multi_core_realtime/main.c:1063-1081 | however commands are split into batches, the resulting table and mask are the same |
| Core1Spec.TakeAllMeans | ccu_ti_multi_core_realtime/main.c:469-485 | each slot holds the last valid command for it or is unchanged; the mask gains exactly the valid motors |
| Core1Spec.TakeAllInv | ccu_ti_multi_core_realtime/main.c:469-485 | taking commands keeps motor_id == i and one-time slots marked |
| Core1Spec.FrameInList | ccu_ti_multi_core_realtime/main.c:552-671 | a selected motor's frame stands in its bus's list right after those of earlier selected motors |
| Core1Spec.PlaceHasMotor | ccu_ti_multi_core_realtime/main.c:552-671 | every place of a list belongs to a selected motor of that bus |
| Core1Spec.PlacesAscend | ccu_ti_multi_core_realtime/main.c:552-671 | a later motor has a later place, so no two share one and lists follow the table |
| Core1Spec.CountsSum | ccu_ti_multi_core_realtime/main.c:543-687 | the eight lists together have as many frames as motors are selected |
| Core1Spec.FramesToMotor | ccu_ti_multi_core_realtime/main.c:552-671 | read off the wire, a motor gets exactly one frame on its bus if selected and none otherwise, and a one-time frame exactly if its command is one |
| Core1Spec.TransmitInv | ccu_ti_multi_core_realtime/main.c:693-783 | after a transmission the invariant holds and no slot holds a one-time mode |
| Core1Spec.PendingIsSelected | ccu_ti_multi_core_realtime/main.c:525-565 | with a one-time command present a slot is selected exactly if its mode is at most 4, or below 255 and its motor is marked |
| Core1Spec.UnmaskedFindsNothing | ccu_ti_multi_core_realtime/main.c:738-780 | with an empty mask the unmasked clean-up pass has nothing to find |
| Core1Spec.NothingNewSendsAll | ccu_ti_multi_core_realtime/main.c:541-556 | a cycle with an empty mask sends a motion frame to every motor |
| Core1Spec.MotionHeldBack | ccu_ti_multi_core_realtime/main.c:561-565 | a motion command in mode 255 beside a one-time command is not sent in that cycle, stays in its slot (reset byte for byte if a disable was present), and is selected while the mask stays empty |
| Core1Spec.CleanupClears | ccu_ti_multi_core_realtime/main.c:693-780 | slot by slot: all slots are reset if one held a disable, else those that held a one-time command; a slot reset has mode 255, four zero words and 0x40000000 as damping, and keeps number, bus and reserve |
| Core1Spec.RestsAfterTransmission | ccu_ti_multi_core_realtime/main.c:704-780 | off the wire: after a disable for any motor, and for a slot that held a one-time command, every quantity read from the next frame is 0 but for a damping of 2 |
| Core1Spec.RestFrameBytes | ccu_ti_multi_core_realtime/main.c:630-667 | that frame bit for bit on the robot's ranges: levels in the middle, no stiffness, and 2 on the damping scale of 5 or 100 |
| Core1Spec.DefaultFrames | ccu_ti_multi_core_realtime/main.c:851-865 | so are all first frames after start-up |
| MotionRuns.SelectedAfterDrain | ccu_ti_multi_core_realtime/main.c:554-565 | from any state, exactly when a motor is selected after a drain |
| MotionRuns.NextCycleSends | ccu_ti_multi_core_realtime/main.c:541-565 | in the cycle after a clear transmission a motor not addressed is handed exactly one frame if no command for the table was drained and none otherwise; an addressed one none if its last command is in MIT mode and a one-time command was left, and one otherwise |
| MotionRuns.MotionLedger | ccu_ti_multi_core_realtime/main.c:498-783 | over every run: waiting before + motion commands received = first frames handed over + superseded + dropped by a disable + waiting after, for each motor |
| MotionRuns.MotionCounts | ccu_ti_multi_core_realtime/main.c:469-485 | of its counts: received are the commands of the run for the motor with a mode above 4; nothing is superseded for a motor not addressed, and nothing dropped without a disable |
| MotionRuns.FirstByBus | ccu_ti_multi_core_realtime/main.c:673-687 | no first frame is taken on a bus that never started, and none is lost on one that did if its controller takes every request |
| MotionRuns.FirstFramesDelivered | ccu_ti_multi_core_realtime/main.c:673-687 | over every run the first frames handed over are those the controller takes and those lost on a dead bus or to a refusal |
| MotionRuns.FirstFrameCarries | ccu_ti_multi_core_realtime/main.c:552-671 | a first frame stands at its motor's place, is the only one to it, and is made from the waiting command |
| MotionRuns.FramesWhileUnaddressed | ccu_ti_multi_core_realtime/main.c:541-556 | over any run of clear cycles that never addresses a motor, it is handed exactly one frame for each cycle that drained no command for the table |
| MotionRuns.MotionNeverSent | ccu_ti_multi_core_realtime/main.c:554-565 | a motion command that arrives with an enable for another motor is sent in none of any number of cycles that each bring a motion command for that motor, and is still in its slot |
| Core1Spec.DefaultsInv | ccu_ti_multi_core_realtime/main.c:851-869 | the start-up defaults establish the invariant and select all motors |
| Core1Runs.RunInv | ccu_ti_multi_core_realtime/main.c:1049-1105 | the invariant holds after every run of drains and transmissions |
| Core1Runs.OneTimeLedger | ccu_ti_multi_core_realtime/main.c:498-783 | over every run: pending before + received = frames handed to the driver + overwritten + pending after, for each motor |
| Core1Runs.LedgerCounts | ccu_ti_multi_core_realtime/main.c:469-687 | of its counts: received are the commands of the run for the motor with a mode of at most 4, handed over are the frames for it of a type other than 1 in the lists given to its bus, and nothing is overwritten for a motor not addressed |
| Core1Runs.TransmitLedger | ccu_ti_multi_core_realtime/main.c:525-783 | a transmission hands a pending one-time command over in exactly one frame and leaves none |
| Core1Runs.StopHoldsEverything | ccu_ti_multi_core_realtime/main.c:507-518 | while the stop flag is set no frame is sent, and table and mask are as if all commands had been drained at once |
| Core1Runs.PendingSurvivesStop | ccu_ti_multi_core_realtime/main.c:507-518 | a command pending at the stop and not overwritten is the frame at its place in the first transmission after it, and no further one-time frame is handed over in any later run until a new one-time command arrives |
| Delivery.TakenExactly | ccu_ti_multi_core_realtime/main.c:673-687 | of a clear transmission the controller takes exactly one frame for a motor if it is selected, its bus started and the request at its place is taken, and none otherwise; a one-time frame exactly if its command is one |
| Delivery.TakenFrame | ccu_ti_multi_core_realtime/can_interface.c:652-695 | that frame is made from the motor's slot, and its number among those taken is that of the requests taken before it |
| Delivery.DeliveryLedger | ccu_ti_multi_core_realtime/main.c:677-783 | over every run: pending before + received = taken by the controller + lost on a bus that never started + lost to a refusal + overwritten + pending after, for each motor |
| Delivery.LossesByBus | ccu_ti_multi_core_realtime/main.c:677-684 | of its losses: none counts as one of a dead bus on a bus that started; on one that did not nothing is taken or refused; and nothing is refused by a controller that takes every request |
| Delivery.HandedIsTakenOrLost | ccu_ti_multi_core_realtime/main.c:677-684 | over every run the one-time frames handed over are those taken and those lost in the two ways |
| Delivery.TakenIsAccepted | ccu_ti_multi_core_realtime/can_interface.c:637-717 | the frames counted as taken are read off the frames the bus accepted over the run |
| Delivery.DisableLost | ccu_ti_multi_core_realtime/main.c:677-783 | a disable whose bus never started or whose request is refused is reset at once, byte for byte, and no one-time frame for the motor is taken in any later run until a new one-time command arrives |
| Delivery.QuietAfterDisable | ccu_ti_multi_core_realtime/main.c:704-783 | in the cycle after a disable for any motor, if nothing was drained meanwhile, every controller that takes the request takes one frame of type 1 for the motor, from which it reads 0 for all quantities but a damping of 2 |
| Delivery.FoundInSlot | ccu_ti_multi_core_realtime/main.c:1049-1105 | the last command of a run for its motor is still in its slot, and marked, at the first clear transmission after its drain |
| Delivery.HeldIsDelivered | ccu_ti_multi_core_realtime/main.c:552-687 | from there it is taken in exactly one frame made from it, unless it is a motion command beside a one-time command, its bus never started or its request is refused |
| Core1.SetDefaults | ccu_ti_multi_core_realtime/main.c:851-865 | both arrays hold the idle command of each motor: its number, mode 255, four zero words and 0x40000000 as damping, other fields kept |
| Core1.Pipeline.constructor | ccu_ti_multi_core_realtime/main.c:851-869 | on arrays with the defaults, a ring Core 0 has set up and started buses: every motor selected, no one-time command, and everything the main loop requires but the ring flag |
| Core1.Pipeline.StartRing | ccu_ti_multi_core_realtime/main.c:924-935 | the ring flag is set and nothing else changes |
| Core1.Boot | ccu_ti_multi_core_realtime/main.c:851-935 | setting the defaults, starting the buses and setting the ring flag reach, on the given arrays and new buses, the state of the defaults with the mask 0xFFFFFFFF, from which the main loop can run; all motors read 0 from their first frames but a damping of 2 |
| Feed.SomeOfBoth | ccu_ti_multi_core_freertos/gateway_shared.c:1089-1108 | what a sender puts into the ring of two groups of packets is some of both, each whole, in order |
| Feed.ReadIsFrom | ccu_ti_multi_core_realtime/main.c:398-459 | what a reader has read of a stream that grew by some of the packets is the first of their commands |
| Feed.SparedIsNotRead | ccu_ti_multi_core_realtime/main.c:398-459 | so no command read is for a motor that none of the packets addresses |
| Core1.Pipeline.Arrive | ccu_ti_multi_core_freertos/gateway_shared.c:865-914 | a packet goes into the ring whole exactly if it holds a command and fits, and leaves no trace otherwise |
| Core1.Pipeline.CheckAvailable | ccu_ti_multi_core_realtime/main.c:380-388 | true exactly when the ring is ready and a command is waiting |
| Core1.Pipeline.Receive | ccu_ti_multi_core_realtime/main.c:398-459 | whatever Core 0 sends between check and read, the next min(waiting, 23) commands arrive in order and the read is never refused |
| Core1.Pipeline.CopyToWorking | ccu_ti_multi_core_realtime/main.c:469-485 | table and mask become those of taking the batch one command at a time |
| Core1.BuildFrame | ccu_ti_multi_core_realtime/main.c:580-667 | the branches build the specified frame |
| Core1.Pipeline.BuildFrames | ccu_ti_multi_core_realtime/main.c:541-671 | every row, count and bus pointer after the build loop, a pointer set wherever its count is positive |
| Core1.FrameInTxSlot | ccu_ti_multi_core_realtime/can_interface.c:652-695 | after a transmission the element in the Tx slot, mod 32, as many after the old rotation index as requests of the batch were taken before it, is the frame of the motor: extended, its identifier, 8 bytes, its data |
| Core1.Pipeline.SendBatches | ccu_ti_multi_core_realtime/main.c:673-687 | each bus is given exactly its list, takes exactly the frames its controller answered for, and these are in its Tx slots |
| Core1.Pipeline.Cleanup | ccu_ti_multi_core_realtime/main.c:689-780 | if any slot held disable all slots and the receive buffer are reset, byte for byte, else exactly the one-time slots are and the rest is unchanged |
| Core1.Pipeline.TransmitFrames | ccu_ti_multi_core_realtime/main.c:498-790 | table, mask, frames handed to every bus and frames taken by it, with the stop flag set or clear and for every answer of the controllers |
| Core1.Pipeline.Drain | ccu_ti_multi_core_realtime/main.c:1049-1091 | terminates; the table is that of the commands consumed; at most 5520 bytes are taken, and all that were waiting or that many; what Core 0 added is some of its packets, each whole; g_commands_ready is cleared exactly if something was taken |
| Core1.Pipeline.Cycle | ccu_ti_multi_core_realtime/main.c:1044-1105 | one drain followed by one transmission, with Core 0 sending in between: state, frames handed over, frames taken and the Tx slots they are in |
| Core1.Pipeline.MainLoop | ccu_ti_multi_core_realtime/main.c:1009-1105 | any number of cycles is a run of drains and transmissions that consumes the retired commands in order; each bus is handed and takes exactly that run's frames; and what Core 0 added to the ring is some of its packets in order, each whole |
| Core1.Pipeline.ThreeCycles | ccu_ti_multi_core_realtime/main.c:1049-1091 | a backlog of at most 682 commands is consumed within three cycles whatever the notifications, the producer and the stop flag do; with a quiet producer the ring is then empty |
| EndToEnd.PowerUp | ccu_ti_multi_core_realtime/main.c:851-935 | after the ring is set up and Core 1 has booted on the given arrays, the cores share an empty ring, the table holds the defaults, the buses are new and as started, and all that follows can be called |
| EndToEnd.SetThenCycles | ccu_ti_multi_core_realtime/main.c:1044-1105 | Core 0 handles a packet of mode changes, Core 1 runs three cycles or as many as take the backlog: what was waiting is consumed, then the packet whole if the ring took it, then the first of the packets sent meanwhile, nothing if there were none, as one run with its state, frames handed over and frames taken |
| EndToEnd.CmdThenCycles | ccu_ti_multi_core_realtime/main.c:1044-1105 | the same for a packet of motion commands |
| EndToEnd.PacketCommandGoes | ccu_ti_multi_core_realtime/main.c:552-687 | a command of the packet with none for its motor after it goes into the first clear transmission after its drain: taken as the only frame for its motor exactly under the conditions of `Delivery.HeldIsDelivered`, else no frame for it is taken |
| EndToEnd.ModeIsTold | ccu_ti_multi_core_realtime/main.c:580-618 | and from the frame of a mode change, whose identifier and data are given in numbers, the motor infers its mode, up to the two mechanical zero modes |
| EndToEnd.ModeChangeReachesMotor | ccu_ti_multi_core_freertos/enet/xgw_udp_interface.c:699-787 | on the objects of both cores, for any backlog: if the ring took the sealed packet and the last cycle is clear, the last mode for each motor, unless one of the packets sent meanwhile brought a command for it, is told by the frame its controller takes in the first clear transmission after its drain if the bus started and the request is taken, and no frame for it is taken there otherwise; a quiet Core 0 leaves every motor's last mode standing |
| EndToEnd.MotionReachesMotor | ccu_ti_multi_core_freertos/enet/xgw_udp_interface.c:617-697 | the same for motion commands, which are taken only if no one-time command is in the table: one motion frame, from which the motor reads the record |
| EndToEnd.GoOn | ccu_ti_multi_core_realtime/main.c:1009-1105 | cycles after a run make one longer run of state, consumption, frames handed over and frames taken |
| EndToEnd.ServeModes | ccu_ti_multi_core_realtime/main.c:1009-1105 | on an empty ring a packet of mode changes is always taken and goes to its motors as above, and the cycles that follow continue the same run |
| EndToEnd.FirstModes | ccu_ti_multi_core_realtime/main.c:851-1105 | both cores start, a first packet of mode changes arrives and the main loop runs on: since the defaults everything is one run that consumes the packet first and gives the state, the frames handed to each bus and the frames it took; each motor that no later packet of the first cycles addresses is told its last mode in it if its bus started and the request is taken, and gets no frame there otherwise |
| EndToEnd.FloatsReachMotor | ccu_ti_multi_core_realtime/main.c:630-667 | each quantity read from that frame is the packet's float, clamped and rounded down by less than one step, for every word but a NaN: the value of the word itself for a gain and for direction 1, turned for a set point else |

## Where the code and its documentation disagree

The model follows the code.

* `ccu_ti_multi_core_realtime/main.c:868` says only updated motors are sent
  after the first cycle. An empty mask selects all motors, so every cycle
  without new commands sends to all 23 (`NothingNewSendsAll`).
* `ccu_ti_multi_core_realtime/main.c:561-563` says that without a one-time
  command all motors are sent, and with one only modes up to 4. The mask test
  before it leaves out every motor not addressed, and modes 5 to 254 pass the
  second test (`SelectedAfterDrain`).
* `gateway_shared.h:188-195` says mode 0 is MIT and that one-shot commands are
  not stored. The code treats 0 as disable and stores every command until the
  next transmission. Line 193 gives the id range 1-127; the code indexes the
  table with it, 0-22.
* `common/xgw_protocol.c:136` speaks of padding. The CRC is over exactly the
  bytes of the packet.
* `common/xgw_protocol.h:159` describes a mode in a motion packet. It is ignored
  and replaced by 255.

## Left out

- Core1.Pipeline.TransmitFrames: what becomes of a frame in a Tx slot (arbitration, bus-off, a slot rewritten before it was sent) is the controller's matter; the model ends at the accepted request.
- Core1.Pipeline.Receive: the check and the read are steps of one core on a sequentially consistent ring; finer interleavings inside a ring operation are in RingProtocol.
- Core1.Pipeline.ReadCommands: the bytes read are unpacked from a separate byte array instead of being viewed in place as an array of structures.
- Core1.Pipeline.Cycle: an IPC notification arrives at the start of a cycle; since the drain is proved for every value of g_commands_ready, one that arrives later or is lost changes nothing proved.
- XgwProtocol.Crc32Calculate: a payload length above 2^32 - 36 is not covered, because the copy of the source then leaves its buffer and nothing can be said of the call; `CopyStaysInside` proves that these are exactly the lengths, and `UdpInterface.Defined` excludes just the items that reach it.
- UdpInterface.Udp.ProcessMotorCmd: the bytes of the uninitialised local array are an arbitrary input; NULL data is not modelled, the one caller passes the address of a local.
- Float32.FloatOf: rounding of float operations; arithmetic is over the reals, and the infinities count as values of 2^128, which clamp as they do.
- CanFrames.MotionFrameValues: what a frame built from a NaN carries, because the cast of the source is undefined for it; and the products with `direction` are exact, the robot's table having only 1.0.
- RingBuffer.Init: NULL arguments; for size 0, which the code accepts, no ring object is made, as no operation on it is of use.
- Ring memory layout: control fields and data are disjoint objects, as the per-core copies use them; the overlap of the root copy and the end of the reserved array are not modelled.
- Memory barriers: published indices are sequentially consistent steps; weak memory order is not modelled. `gateway_ringbuf_reset` is not part of this model.
- The mailboxes for motor and IMU state, the ping-pong buffers, the start-up handshake and shared-memory clear, and `gateway_core1_emergency_stop_handler`, which nothing calls.
- Log text formatting, the logger's wake-up semaphore as a liveness matter, and output to UART and syslog: payloads are byte strings with the lengths the code checks.
- CAN reception, the remaining CAN transmit calls, PHY drivers, the IMU UART ring, GPIO, RTOS and lwIP calls, the packet dispatcher's own counters and all debug counters.
