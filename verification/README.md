# Verified model of the AoC and battery-management algorithms

This project models, in Dafny, the algorithmic core of a Linux driver tree for a phone's
always-on compute processor (AoC) and its battery management (BMS), and proves what that code
is for. Check everything with `dafny verify dfyconfig.toml`.

| file | what it models |
|---|---|
| `ByteStream.dfy` | the promise of a lossy byte ring: a growing stream, a reader's position, and an account of every byte |
| `RingRegion.dfy` | the shared-memory byte ring: wrapping u32 counters, pointers modulo an arbitrary size, split copies, overrun resync, flush, reset |
| `RingRuns.dfy` | whole runs of calls on a ring, and what they read out of its buffer |
| `RingProtocol.dfy` | the same ring between two processors, one memory access at a time, in every interleaving, with a producer that respects the reported space |
| `RingOverrun.dfy` | the same with the producer as the code has it, which overwrites bytes while they are being copied |
| `QueueRegion.dfy` | the shared-memory message queue: counter-indexed slots, length headers |
| `QueueProtocol.dfy` | the same queue between two processors that copy byte by byte, in every interleaving |
| `DrainProtocol.dfy` | taking the services offline while any number of clients use them |
| `ChannelDemux.dfy` | the channel multiplexer: routing, flow control, index allocation |
| `StorageRegistry.dfy`, `Storage.dfy` | the storage provider registry and its tag cache |
| `PpsModel.dfy`, `PpsAdapter.dfy` | the PPS adapter: detection stages and the keep-alive schedule |
| `TierStats.dfy` | charging statistics per voltage tier |
| `ChargeProfile.dfy` | capacity fade, tier choice, float-voltage rounding |
| `LogSplit.dfy` | cutting a text into log entries |
| `InterfaceCheck.dfy` | matching the driver's interface table against the firmware's |
| `CycleCount.dfy` | printing and parsing binned cycle counts |
| `Machine.dfy`, `Errno.dfy` | C integer widths and remainders, error numbers |

How the parts fit together. Code that updates a record in place is a class; each method is
proved against a specification on values, and what the code promises is then proved about the
specification over whole runs. For example every ring method moves the ghost field `stream` as
`ByteStream.After` says, `ByteStream.RunRefinesStream` holds of every sequence of such moves, and
`RingRuns.Drive` ties the two: the bytes that any sequence of calls reads out of a ring's buffer are
those that the stream's account delivers. Concurrent code is a state machine: one event is one atomic access or one mutex-protected
section, a run is any sequence of events, and the theorems quantify over all of them.
Integers are unbounded in Dafny, so every truncation the C code relies on is written out.

Promises that do not hold without a condition are stated with the exact condition, as an
if-and-only-if:

- Flushing a ring keeps the read pointer right exactly when a u32 sum does not wrap or the ring's
  size divides 2^32 (`Ring.FlushReadData`, counterexample `FlushCanMisplaceReader`).
- The counters show the reader's lag exactly while it is below 2^32 (`ReadWriteDeltaIsLag`). Of a
  reader further behind they hide a multiple of 2^32 bytes; its read pointer still agrees with what
  the counters show exactly when the hidden bytes are whole rounds of the ring (`ShownPositionIff`).
- A ring write publishes a counter and then a pointer. A reader that samples between the two stores
  derives the right byte count exactly when the ring was not empty (`TornSampleIff`). In the
  interleaving model of a producer that respects the reported space and a consumer, everything after
  a sample stays exact exactly when the sample does not set out to copy more than the counters report
  (`RingProtocol.SampleSafeIff`), which only a half-published write can bring about
  (`OverreadsIff`). A run to a wrong delivery exists for every ring of two bytes or more
  (`OverreadIsReachable`); a consumer that asks for no more than the counters report is safe in every
  interleaving (`ModestConsumerIsExact`).
- The code's own producer does not look at the space. Then a copied byte is the one written at its
  position, whatever else was written, exactly when the producer had stored that position and not yet
  the one a round later (`CopyExactIff`, over every interleaving `EveryReadIsTraced`); in a ring of any
  size a read can come too late (`OverwriteIsReachable`).
- Outstanding queue messages never share a slot exactly when the slot count divides 2^32
  (`CollisionFreeIff`). In every interleaving the queue is a FIFO for the first 2^32 - 1 messages
  (`EveryInterleavingIsFifo`), and for good exactly when the slot count divides 2^32
  (`FifoForGoodIff`, with a run that loses a message for every other slot count). A message survives its 16-bit length field exactly when it is shorter than
  2^16 bytes (`StoredIsMessageIff`); a write stays in its slot exactly when a slot holds a header
  (`WriteStaysInSlotIff`).
- A read through the tag cache equals an uncached scan exactly when the tag is not cached at a
  provider without a read callback, and a write likewise (`ReadTransparentIff`,
  `WriteTransparentIff`). With the documented rule that write implies read, reads are always
  transparent; writes are not, since a cached read-only provider answers -EACCES.
- The driver does not initialise a channel's blocked flag. The first command it sends is BLOCK
  exactly when the flag happened to be clear (`CommandsSeen`).
- The watchdog restarts the processor under a client, in any run, exactly when it at some moment
  looked at a state other than online or the crash it had published while a client was inside
  (`RestartUnderClientIff`). Without a late overwrite of the crash that never happens
  (`RestartIsQuiet`); one late mailbox callback is enough for it (`LateWriteSkipsDrain`).
- A failed keep-alive leaves the stage Active exactly when the next `pps_work` finds the supply
  present but cannot read ONLINE (`FailedKeepAliveDemotesIff`).
- A printed average lies between the printed extremes, whatever the samples were, exactly when the
  tier lasted less than 2^31 seconds, because the divisor is a signed 32-bit number
  (`AverageHoldsIff`).
- The capacity fade is the line's value exactly when a product and the result fit an int
  (`Fade10`). Every tier but the last leaves three steps of headroom exactly when the tiers are that
  far apart (`HeadroomIff`). Direct charging rounds no request above the last tier exactly when there is
  a bound, or an int has no room for such a request; the bound is missing when tier and current give 0,
  or reach a last tier of a single step (`RoundBelowLastIff`, `NoBoundExamples`).
- The interface check decides presence for all tables exactly when no expected entry repeats
  (`ExactIffNoDuplicates`); the log is exact exactly for texts without NUL (`LogExactIff`); printing
  and parsing restores ten cycle counts exactly when each is below 65535 or was there before
  (`PrintThenParse`).

Where code and comment differ the model follows the code. In `aoc/aoc-interface-gs101.h` the
comment bases the moving start on sorted tables; the proof needs only that no expected entry
repeats. `pps_prog_check_online` returns true, not an error, without a power supply.

## Model

| member | source | states |
|---|---|---|
| Machine.ReadWriteDelta | aoc_ipc/aoc_ipc_core.c:87-100 | the distance of the two counters is their difference modulo 2^32, in the wrapped branch too |
| Machine.ReadWriteDeltaIsLag | aoc_ipc/aoc_ipc_core.c:87-100 | for all unbounded positions: the counter distance is the true lag if and only if the lag is below 2^32 |
| ByteStream.StepTiles | aoc_ipc/aoc_ipc_core.c:115-210 | one ring operation only appends to the stream, and its deliveries and losses cover exactly the positions the reader passed |
| ByteStream.RunRefinesStream | aoc_ipc/aoc_ipc_core.c:613-689 | over every run of puts, takes, drops and flushes: every delivered byte is the byte written at its position; deliveries and losses tile what the reader passed, in order, without gap or repeat |
| ByteStream.RunAppends | aoc_ipc/aoc_ipc_core.c:654-689 | over every run the stream grows by exactly the bytes put in, in order |
| ByteStream.DeliveredPlusLost | aoc_ipc/aoc_ipc_core.c:115-183 | conservation: delivered plus lost bytes equal the positions passed |
| ByteStream.LosslessIsExact | aoc_ipc/aoc_ipc_core.c:131-183 | an account without losses delivered exactly the slice of the stream |
| ByteStream.RunWithoutOverrun | aoc_ipc/aoc_ipc_core.c:131-210 | in every run of puts and takes alone whose takes never find more than the ring's size waiting, the reads concatenate to the written stream |
| ByteStream.Stream.ReadStart | aoc_ipc/aoc_ipc_core.c:145-149 | bytes are skipped only on overrun, and then up to exactly one ring's size behind the writer |
| RingRegion.WindowIsSlice | aoc_ipc/aoc_ipc_core.c:172-179 | a wrapped window of the ring at a position the ring still holds is the slice of the stream at that position |
| RingRegion.PublishWindow | aoc_ipc/aoc_ipc_core.c:185-210 | overwriting only the window at the write pointer and publishing it keeps the newest bytes of the extended stream in place |
| RingRegion.PointersGiveLag | aoc_ipc/aoc_ipc_core.c:151-165 | the byte count derived from the two pointers is the lag, full and empty included, for sizes that need not divide 2^32 |
| RingRegion.PointersGiveRemainder | aoc_ipc/aoc_ipc_core.c:151-165 | for every distance of reader and writer the pointer-derived count is the lag's remainder by the size, and for whole rounds the size unless the counters agree |
| RingRegion.NewestIff | aoc_ipc/aoc_ipc_core.c:172-179 | the newest position that shares a cell with position i is i itself if and only if i has been reached and the position a round later has not |
| RingRegion.WindowIsNewest | aoc_ipc/aoc_ipc_core.c:172-179 | a window at any unread position, overwritten or not, holds the newest bytes of its cells |
| RingRegion.TornSampleIff | aoc_ipc/aoc_ipc_core.c:60-64 | sampled between a write's two stores, the pointer-derived count is the lag before the write if and only if the ring was not empty; an empty ring looks full |
| RingRegion.PointerAdvanceExact | aoc_ipc/aoc_ipc_core.c:53-79 | advancing a pointer through a u32 sum is right if and only if the sum stays below 2^32 or the size divides 2^32 |
| RingRegion.CounterAdvance | aoc_ipc/aoc_ipc_core.c:53-79 | the wrapped counter follows the unbounded position |
| RingRegion.FlushCanMisplaceReader | aoc_ipc/aoc_ipc_core.c:115-129 | a concrete ring and lag for which the advanced read pointer is wrong |
| RingRegion.ShownPositionIff | aoc_ipc/aoc_ipc_core.c:87-100 | for a reader any distance behind: the read counter also stands for the position the counters show; the read pointer does if and only if the hidden bytes are whole rounds of the ring |
| RingRegion.PointersGiveShown | aoc_ipc/aoc_ipc_core.c:151-165 | the pointer-derived count is what the counters show whenever the hidden bytes are whole rounds |
| RingRegion.WindowIsOldestHeld | aoc_ipc/aoc_ipc_core.c:172-179 | and the window at the read pointer is then the oldest bytes the ring holds |
| RingRegion.ReadIsTake | aoc_ipc/aoc_ipc_core.c:131-183 | with a lag below 2^32 a read is a take of the stream |
| RingRegion.Ring.AdvanceTx | aoc_ipc/aoc_ipc_core.c:53-65 | from fields that stand for a position, the write counter comes to stand for the position further on, and the write pointer does if and only if the u32 sum is safe |
| RingRegion.Ring.AdvanceRx | aoc_ipc/aoc_ipc_core.c:67-79 | the same for the read counter and the read pointer |
| RingRegion.Ring.ReaderSyncOffset | aoc_ipc/aoc_ipc_core.c:115-129 | for every lag keeps the newest bytes asked for of those the counters show; the ring stays valid if and only if the pointer sum is safe |
| RingRegion.Ring.FlushReadData | aoc_ipc/aoc_ipc_core.c:559-571 | leaves the newest bytes asked for, at most the size and the lag, unread; valid whenever the lag is at most 2^32 minus the size, and exactly when the pointer sum is safe |
| RingRegion.Ring.PointerCount | aoc_ipc/aoc_ipc_core.c:151-165 | for every lag the lag's remainder by the size or a full ring; once overrun is resolved, and if the hidden bytes are whole rounds, what the counters show |
| RingRegion.Ring.CopyOut | aoc_ipc/aoc_ipc_core.c:172-179 | the one or two copies yield the window at the read pointer and touch nothing else |
| RingRegion.Ring.ReadBuffer | aoc_ipc/aoc_ipc_core.c:131-183 | for every lag drops exactly what was overrun as far as the counters show it, then copies as many bytes as the pointers tell and fit, each the newest in its cell; if the hidden bytes are whole rounds these are the oldest bytes the ring holds |
| RingRegion.Ring.WriteBuffer | aoc_ipc/aoc_ipc_core.c:185-210 | stores at most one ring's worth at the write pointer; every other cell is unchanged |
| RingRegion.Ring.AdvanceWriteIndex | aoc_ipc/aoc_ipc_core.c:507-529 | publishes the bytes at the write pointer, or refuses more than a ring's worth and changes nothing |
| RingRegion.Ring.ResetWritePointer | aoc_ipc/aoc_ipc_core.c:575-600 | moves the write pointer to cell 0 by publishing what the rest of the ring holds, with the int edge case of a 2^31 byte ring |
| RingRegion.Ring.BytesAvailableToRead | aoc_ipc/aoc_ipc_core.c:332-347 | is the smaller of the size and what the counters show of the lag, which below 2^32 is the lag |
| RingRegion.Ring.BytesAvailableToWrite | aoc_ipc/aoc_ipc_core.c:350-364 | readable plus writable is always the size |
| RingRegion.Ring.AdvanceReadIndex | aoc_ipc/aoc_ipc_core.c:532-556 | skips what is readable of the amount and reports whether that was all |
| RingRegion.Ring.CanReadMessage | aoc_ipc/aoc_ipc_core.c:367-387 | true exactly when there is a slot and the counters show something unread |
| RingRegion.Ring.ReadMessage | aoc_ipc/aoc_ipc_core.c:613-652 | one take of the stream: right bytes, right count, rest of the buffer untouched; false changes nothing; from a reader 2^32 bytes or more behind the newest bytes in the cells after its pointer, which are the oldest the ring holds if the hidden bytes are whole rounds |
| RingRegion.Ring.WriteMessage | aoc_ipc/aoc_ipc_core.c:654-689 | appends exactly the bytes given to the stream and leaves the reader where it is; refuses exactly what could never fit, or without a slot, and then changes nothing |
| RingRegion.Ring.DidOverflow | aoc_ipc/aoc_ipc_core.c:274-285 | true exactly when the counters show more than the size, below 2^32 exactly when the next read will lose bytes |
| RingRuns.Perform | aoc_ipc/aoc_ipc_core.c:532-689 | one write, read, skip or flush on a ring moves the stream as specified and reads out exactly the bytes the stream delivers |
| RingRuns.Refused | aoc_ipc/aoc_ipc_core.c:613-672 | a read or write that the ring refuses changes nothing |
| RingRuns.Drive | aoc_ipc/aoc_ipc_core.c:532-689 | every sequence of calls, refused ones included, keeps the ring valid, and the bytes its reads took out of the buffer are the stream's deliveries, given a lag below 2^32 at each look and a safe sum at each flush |
| RingRuns.DriveAndAccount | aoc_ipc/aoc_ipc_core.c:532-689 | over every such sequence the stream grows by exactly the bytes of the writes that fit, bytes read plus bytes lost are the positions passed, and without drops, flushes and overrun the reads are the written stream byte for byte |
| RingProtocol.StepKeepsInv | aoc_ipc/aoc_ipc_core.c:53-79 | every single access of producer or consumer, but a sample that overreads, keeps: counters and pointers at their positions, every unread byte in its cell, the consumer's copy a slice of the stream |
| RingProtocol.StoreKeepsInv | aoc_ipc/aoc_ipc_core.c:200-207 | a stored byte never lands on an unread one |
| RingProtocol.CountSampled | aoc_ipc/aoc_ipc_core.c:151-165 | what the consumer derives from the pointers at any point of any interleaving, also when it has read ahead of the published pointer |
| RingProtocol.OverreadsIff | aoc_ipc/aoc_ipc_core.c:151-170 | a sample sets out to copy more than the counters report if and only if a write is half published, everything before it is read, and there is room for more than is unread |
| RingProtocol.SampleKeepsInv | aoc_ipc/aoc_ipc_core.c:151-170 | a sample that does not overread, torn or not, counts no byte that was not published |
| RingProtocol.EveryInterleavingIsExact | aoc_ipc/aoc_ipc_core.c:613-689 | in every interleaving without an overreading sample the consumer has received exactly the front of what the producer wrote, for every size and across counter wrap |
| RingProtocol.ModestConsumerIsExact | aoc_ipc/aoc_ipc_core.c:332-347 | the same in every interleaving in which the consumer asks for no more than the counters report |
| RingProtocol.OverreadDeliversTooMuch | aoc_ipc/aoc_ipc_core.c:166-183 | every sample that overreads has a continuation in which more is delivered than was written |
| RingProtocol.SampleSafeIff | aoc_ipc/aoc_ipc_core.c:131-183 | from every reachable state all continuations of a sample are exact if and only if it does not overread |
| RingProtocol.OverreadIsReachable | aoc_ipc/aoc_ipc_core.c:60-64 | for every size from two bytes on a run of one written byte that ends in a wrong delivery |
| RingProtocol.UnreadIsDeliverable | aoc_ipc/aoc_ipc_core.c:613-634 | from every reachable state, a write half published included, the consumer left alone delivers every published byte |
| RingProtocol.WriteIsPublishedIff | aoc_ipc/aoc_ipc_core.c:185-210 | from every reachable state with the producer at rest a message is published whole by the producer alone if and only if there is space for it, and otherwise not begun |
| RingOverrun.WriterKeepsCells | aoc_ipc/aoc_ipc_core.c:185-210 | every store, publication or start of a write leaves in each cell the newest byte stored there |
| RingOverrun.CopyExactIff | aoc_ipc/aoc_ipc_core.c:172-207 | a byte copied for position i once t bytes are stored is the one written at i, whatever was written, if and only if i < t <= i + size |
| RingOverrun.InTimeIsExact | aoc_ipc/aoc_ipc_core.c:131-183 | a read whose bytes were all copied in time is the stream at its position |
| RingOverrun.StepKeepsInv | aoc_ipc/aoc_ipc_core.c:53-210 | every single access of the unchecked producer and of the consumer, its resync included, keeps: counters and pointers at their positions, each cell its newest byte, every copied byte traced to where it came from |
| RingOverrun.EveryReadIsTraced | aoc_ipc/aoc_ipc_core.c:613-689 | in every interleaving, however far the producer runs ahead, each byte of each read is the newest stored in its cell when it was copied, and a read copied in time is the stream |
| RingOverrun.ReadAloneIsExact | aoc_ipc/aoc_ipc_core.c:131-183 | from every reachable state with fewer than 2^32 unread bytes, in every run of the consumer while the producer rests, the first read to end starts at the later of its position and one size behind the writer, and delivers the stream from there, as many bytes as there are and fit, each in time |
| RingOverrun.ReadAloneEnds | aoc_ipc/aoc_ipc_core.c:613-634 | and the consumer alone gets such a read done, whatever room it has |
| RingOverrun.NothingToRead | aoc_ipc/aoc_ipc_core.c:367-387 | with nothing unread no access of the consumer changes anything |
| RingOverrun.WriteAlone | aoc_ipc/aoc_ipc_core.c:654-689 | from every reachable state with the producer at rest it can publish any message that fits the ring, and leaves the consumer alone |
| RingOverrun.TooLongIsRefused | aoc_ipc/aoc_ipc_core.c:669-670 | a message longer than the ring is not begun |
| RingOverrun.OverwriteIsReachable | aoc_ipc/aoc_ipc_core.c:185-210 | for every size a run in which the producer comes round during a read and the consumer delivers a byte that was not written there |
| QueueRegion.SlotsDistinct | aoc_ipc/aoc_ipc_core.c:440-465 | messages less than a round apart get different slots, across counter wrap when the slot count divides 2^32 |
| QueueRegion.CollisionFreeIff | aoc_ipc/aoc_ipc_core.c:440-465 | outstanding messages never share a slot if and only if the slot count divides 2^32 |
| QueueRegion.WrapCollides | aoc_ipc/aoc_ipc_core.c:440-465 | for every slot count that does not divide 2^32 two messages at the wrap, less than a round apart, that share a slot |
| QueueRegion.StoredIsMessageIff | aoc_ipc/aoc_ipc_core.c:102-113 | the stored length is the message's length modulo 2^16; the message survives if and only if it is shorter than 2^16 bytes |
| QueueRegion.WriteStaysInSlotIff | aoc_ipc/aoc_ipc_core.c:299-304 | a payload that passes the size check stays in its slot if and only if the slot can hold a header |
| QueueRegion.OutstandingKept | aoc_ipc/aoc_ipc_core.c:654-689 | changing the next free slot leaves every outstanding message whole |
| QueueRegion.OutstandingIff | aoc_ipc/aoc_ipc_core.c:654-689 | a write, before or after a wrap, leaves an outstanding message whole if and only if the new message has another slot or is the same message |
| QueueRegion.Queue.SlotCounts | aoc_ipc/aoc_ipc_core.c:367-422 | slots to read and slots to write split the slots; the unsigned difference never underflows |
| QueueRegion.Queue.CurrentReadPointer | aoc_ipc/aoc_ipc_core.c:424-445 | the offset of the oldest outstanding message's slot |
| QueueRegion.Queue.CurrentWritePointer | aoc_ipc/aoc_ipc_core.c:447-468 | the offset of the next message's slot |
| QueueRegion.Queue.CurrentMessageSize | aoc_ipc/aoc_ipc_core.c:470-480 | the length of the oldest outstanding message, 0 without one |
| QueueRegion.Queue.AdvanceReadIndex | aoc_ipc/aoc_ipc_core.c:532-556 | skips that many outstanding messages or none |
| QueueRegion.Queue.FlushReadData | aoc/aoc_service_core.c:389-410 | forgets every outstanding message and reports whether there was one |
| QueueRegion.Queue.ReadMessage | aoc_ipc/aoc_ipc_core.c:613-652 | delivers the oldest message byte for byte and once; with none, or too small a buffer, changes nothing |
| QueueRegion.Queue.FillSlot | aoc_ipc/aoc_ipc_core.c:102-113 | header and payload form the stored message; no other byte changes |
| QueueRegion.Queue.WriteMessage | aoc_ipc/aoc_ipc_core.c:654-689 | appends exactly one message when a slot is free and it fits, touching only its own slot; otherwise changes nothing; an outstanding message stays whole if and only if the new one has another slot or is the same, which is always so before the wrap and for slot counts that divide 2^32 |
| QueueProtocol.StepKeepsInv | aoc_ipc/aoc_ipc_core.c:635-686 | every single access of writer or reader, up to the wrap and for slot counts that divide 2^32 past it, keeps: outstanding messages whole, the writer's slot free and part-filled, the reader's copy a prefix of the oldest message |
| QueueProtocol.EveryInterleavingIsFifo | aoc_ipc/aoc_ipc_core.c:613-689 | in every interleaving of byte-wise writer and reader that publishes fewer than 2^32 messages, and in every one if the slot count divides 2^32, what was delivered is a prefix of what was published, and at most the slot count is outstanding |
| QueueProtocol.TooSmallChangesNothing | aoc_ipc/aoc_ipc_core.c:640-643 | a read with too little room for the oldest message changes nothing |
| QueueProtocol.OutstandingIsDeliverable | aoc_ipc/aoc_ipc_core.c:635-649 | from every reachable state, whatever the reader was doing, a reader left alone with room for the messages delivers every outstanding one |
| QueueProtocol.WrapLosesMessage | aoc_ipc/aoc_ipc_core.c:440-465 | for every slot count that does not divide 2^32 a run past the wrap in which the reader gets a later message in place of an older one |
| QueueProtocol.FifoForGoodIff | aoc_ipc/aoc_ipc_core.c:613-689 | with slots that can hold a payload byte, interleavings of any length deliver a prefix of what was published if and only if the slot count divides 2^32 |
| DrainProtocol.EveryRunIsSafe | aoc/aoc_service_core.c:413-517 | for any number of clients and any interleaving the active counter counts the clients between enter and leave, and a client past its state check finds the services allocated |
| DrainProtocol.ClientKeepsInv | aoc/aoc_service_core.c:39-95 | each step of a client's enter, check, wait, recheck and leave keeps the invariant |
| DrainProtocol.WatchdogKeepsInv | aoc/aoc.c:1754-1977 | each state step of the watchdog keeps the invariant |
| DrainProtocol.DrainLoopKeepsInv | aoc/aoc.c:1587-1605 | the drain loop, when it ends, has left no client inside |
| DrainProtocol.OnlyOnlineAdmits | aoc/aoc.c:1650-1653 | no client gets in while the state is not online |
| DrainProtocol.DrainedUntilOnline | aoc/aoc.c:1587-1605 | from a state with nobody inside and not online, nobody is inside after any run that does not publish online |
| DrainProtocol.DrainThenQuiet | aoc/aoc.c:1587-1605 | in every run, once the drain loop ends no client is inside until online is next published |
| DrainProtocol.SkipStepIff | aoc/aoc.c:1587-1588 | a single step leads to a restart under a client if and only if it is the watchdog finding neither online nor its crash while a client is inside |
| DrainProtocol.RestartUnderClientIff | aoc/aoc.c:1587-1605 | over every run and any number of clients the processor is restarted under a client if and only if the watchdog at some moment skipped the drain that way |
| DrainProtocol.RestartIsQuiet | aoc/aoc.c:1780-1788 | in particular never in a run without a late overwrite of the crash state |
| DrainProtocol.LateWriteSkipsDrain | aoc/aoc.c:372-390 | a concrete run in which a late mailbox callback makes the watchdog skip the drain under a client |
| DrainProtocol.EveryClientStepDescends | aoc/aoc_service_core.c:460-481 | while the state is not online every step of a client that is in, its wait included, brings it closer to leaving |
| DrainProtocol.DrainAdvances | aoc/aoc.c:1591-1594 | while the counter is not zero some client or the loop's own wake-up can move, and moving uses up a step |
| DrainProtocol.DrainBound | aoc/aoc.c:1591-1594 | in every run during which the drain loop does not end, clients move at most as often as they had steps left, plus twice per client that enters meanwhile |
| DrainProtocol.DrainForced | aoc/aoc.c:1591-1594 | once they have moved that often, under any schedule, the counter is zero and the next look ends the loop with nobody inside |
| DrainProtocol.DrainCompletes | aoc/aoc.c:1591-1594 | from every state of the drain loop some run of no more events than steps are left ends it with nobody inside |
| DrainProtocol.TransfersExactlyWhenEarned | aoc/aoc_service_core.c:413-517 | in every run a client that has left transferred exactly once on its last visit if it found the state online at both looks, its wait, if any, was over, and it neither gave up nor aborted; otherwise not at all |
| DrainProtocol.ActMatches | aoc/aoc_service_core.c:59-91 | each act of a client keeps the record of what it saw and did in step with where it stands; an interrupted wait never transfers |
| DrainProtocol.OthersLeaveAlone | aoc/aoc_service_core.c:39-95 | no event but a client's own moves it, except that the drain loop wakes sleepers |
| DrainProtocol.OnlineClientTransfers | aoc/aoc_service_core.c:440-502 | while the state is online a client that is outside, looking or waiting, with something to transfer, gets to it within five acts of its own, and nothing else changes |
| DrainProtocol.TransferThenLeave | aoc/aoc_service_core.c:499-512 | then it transfers and leaves, with the counter lowered by one |
| DrainProtocol.CrashTakesDown | aoc/aoc.c:1754-1977 | from every reachable state with the lock free and no crash in progress, whatever the clients do, the watchdog can take the services down: freed, nobody inside, lock given back, state not online |
| DrainProtocol.CrashIsPublished | aoc/aoc.c:1780-1788 | three steps publish the crash |
| DrainProtocol.CrashStartsDrain | aoc/aoc.c:1587-1589 | three more cancel the start-up work, take the state offline and start to drain |
| DrainProtocol.CrashOnce | aoc/aoc.c:1780-1784 | a crash already in progress is not handled twice |
| DrainProtocol.LoadedComesUp | aoc/aoc.c:372-390 | from loaded firmware a mailbox callback and the start-up work allocate the services and publish online; a failed validation publishes nothing |
| DrainProtocol.OnlineOnlyAfterLoad | aoc/aoc.c:372-390 | the state is online only in runs in which firmware was loaded |
| ChannelDemux.Find | aoc/aoc_channel_dev.c:208-211 | the first open file with the message's channel index |
| ChannelDemux.FindUnique | aoc/aoc_channel_dev.c:208-211 | with distinct indices routing reaches the one file that has the index |
| ChannelDemux.QueuedOk | aoc/aoc_channel_dev.c:229-242 | queueing a message keeps the channel's account, bound, order and command alternation |
| ChannelDemux.DroppedOk | aoc/aoc_channel_dev.c:220-227 | dropping a message is accounted for |
| ChannelDemux.HandedOutOk | aoc/aoc_channel_dev.c:580-586 | taking the oldest message keeps order and account |
| ChannelDemux.AccountedOk | aoc/aoc_channel_dev.c:606-615 | lowering the count keeps the bound, the alternation and the hysteresis |
| ChannelDemux.EveryRunIsOk | aoc/aoc_channel_dev.c:204-249 | in every interleaving, per open channel: count = queued + taken but uncounted <= max + 1; everything that arrived was kept or dropped, in order, or is in hand; taken + queued = kept arrivals in order; arrivals = taken + queued + dropped; a message is dropped only above max; BLOCK and UNBLOCK alternate, BLOCK only above and UNBLOCK only below the threshold; with all commands sent, unblocked implies count <= threshold, and blocked implies count >= threshold once a command was sent or if the flag was clear at open |
| ChannelDemux.RoutedByIndex | aoc/aoc_channel_dev.c:204-249 | in every run, per open channel: what was routed to it are exactly the messages that arrived for its own index while it was open, in order, and as many were handed out as reads of that index found one |
| ChannelDemux.OnlyItsOwn | aoc/aoc_channel_dev.c:208-211 | an event about one channel neither opens, closes nor changes any other |
| ChannelDemux.MessageIsQueuedIff | aoc/aoc_channel_dev.c:220-242 | a message for an open file is queued last there if and only if its count is not above the maximum, and is dropped there otherwise |
| ChannelDemux.MessageForNobody | aoc/aoc_channel_dev.c:208-260 | a message with no open file changes nothing |
| ChannelDemux.ReaderOwn | aoc/aoc_channel_dev.c:580-615 | a read takes exactly the oldest message, if there is one, and then lowers the count by one |
| ChannelDemux.OpenSucceedsIff | aoc/aoc_channel_dev.c:432-460 | opening lists a new empty file with a fresh index if and only if the limit is not reached |
| ChannelDemux.ReleaseClosesIff | aoc/aoc_channel_dev.c:488-538 | releasing closes the file unless it is in use, and nothing else |
| ChannelDemux.ArrivalAccounted | aoc/aoc_channel_dev.c:220-233 | a message that arrives is dropped, or in hand and then queued, never lost or doubled |
| ChannelDemux.ReadingDrains | aoc/aoc_channel_dev.c:546-620 | with no other reader between its two sections, as many reads as messages are queued hand out every kept arrival in order and leave the channel empty and, with a threshold of at least one and something to read, unblocked |
| ChannelDemux.CommandsSeen | aoc/aoc_channel_dev.c:415-460 | in every run, per channel: BLOCKs less UNBLOCKs are the flag now less the flag at open, and the first command is BLOCK if and only if the flag was clear at open |
| ChannelDemux.CounterBound | aoc/aoc_channel_dev.c:432-447 | the index counter passes its limit by less than the number of concurrent openers |
| ChannelDemux.IndicesFit31Bits | aoc/aoc_channel_dev.c:91-97 | with at most 2^30 concurrent openers every channel index fits the 31-bit field |
| StorageRegistry.RegisterKeepsOk | bms/gbms_storage.c:204-253 | one registration keeps the prefix order, replaces no provider, and fills a placeholder only by a name extending it |
| StorageRegistry.RegisterMeans | bms/gbms_storage.c:182-253 | code 0 leaves exactly one slot new or different, holding the name and the descriptor, the first prefix match or one at the end; each error code has its exact condition and changes nothing |
| StorageRegistry.RegistryInvariant | bms/gbms_storage.c:182-253 | the same over every sequence of registrations, with at most six slots |
| StorageRegistry.CachedSlotIsOwner | bms/gbms_storage.c:269-295 | a cached slot is the slot an uncached scan finds, when it has the callback |
| StorageRegistry.ReadTransparentIff | bms/gbms_storage.c:298-334 | a cached read gives the scan's code and data if and only if the cached provider can be read |
| StorageRegistry.WriteTransparentIff | bms/gbms_storage.c:401-439 | a cached write gives the scan's code if and only if the cached provider can be written, and is -EACCES otherwise |
| StorageRegistry.DeferIff | bms/gbms_storage.c:298-334 | a read through the cache replies -EPROBE_DEFER exactly when no provider serves the tag and a placeholder remains, or the provider that serves it defers itself |
| StorageRegistry.CacheIsTransparent | bms/gbms_storage.c:298-439 | over every history of registrations, reads, writes and provider changes every read replies as an uncached registry, and so does all else but a write refused with -EACCES |
| StorageRegistry.RegisteredServes | bms/gbms_storage.c:204-439 | a provider that was registered, in a new slot or late in a placeholder's, answers every read of a tag it knows, after any further history, with its answer of that time, and performs every write it can |
| StorageRegistry.HolderStep | bms/gbms_storage.c:204-253 | a provider keeps its slot under every operation, changed only by writes it performs and by itself |
| StorageRegistry.UnknownTag | bms/gbms_storage.c:298-334 | a tag nobody knows gives -EPROBE_DEFER while a placeholder remains, else -ENOENT |
| StorageRegistry.ReadCaches | bms/gbms_storage.c:298-328 | a read caches exactly the slot of the provider that answered, on success and with room, and never changes a cached tag |
| Storage.Registry.FindSlot | bms/gbms_storage.c:182-202 | the loop finds the slot, or the error, that the first matching prefix decides |
| Storage.Registry.RegisterInternal | bms/gbms_storage.c:204-253 | code 0 leaves exactly one slot new or different, which holds the name and the descriptor; every error code with its exact condition, changing nothing; the registry stays valid |
| Storage.Registry.CacheRead | bms/gbms_storage.c:269-295 | the cached provider's reply, -ENOENT without one, -EACCES without a read callback |
| Storage.Registry.Read | bms/gbms_storage.c:298-334 | the cached reply and the cache update; equal to an uncached scan if and only if the cached provider can be read |
| Storage.Registry.CacheWrite | bms/gbms_storage.c:373-398 | the cached provider's code; only that provider may change |
| Storage.Registry.WriteProviders | bms/gbms_storage.c:412-436 | the scan's code; only the provider that performed the write changes; success is cached |
| Storage.Registry.Write | bms/gbms_storage.c:401-439 | the cached code, the providers as an uncached registry would leave them, and the cache update |
| PpsModel.StepStaysBacked | bms/google_dc_pps.c:563-708 | no call with any reply makes an unpinged adapter count as available or active |
| PpsModel.ActiveOnlyAfterPing | bms/google_dc_pps.c:218-296 | over every run and all adapter replies the stage is active only after a ping that went through since it last was to be tried |
| PpsModel.NotSupportedAbsorbs | bms/google_dc_pps.c:588-590 | not-supported is final under work, keep-alive and update |
| PpsModel.FailedKeepAliveDemotesIff | bms/google_dc_pps.c:625-646 | after a failed keep-alive the next work leaves the stage active if and only if it finds the supply present but cannot read ONLINE |
| PpsModel.KeepAliveConfirmsIff | bms/google_dc_pps.c:691-708 | after a keep-alive that went through the next work leaves the stage active if and only if it cannot read ONLINE or sees programmable mode that the ping or the record vouches for |
| PpsModel.UnsupportedSetterDemotesIff | bms/google_dc_pps.c:734-751 | an unsupported setter is noticed by the next work, exactly as stated; any other reply is not |
| PpsModel.ActiveAfterIff | bms/google_dc_pps.c:218-646 | exactly which call and replies leave the stage active |
| PpsModel.NotSupportedAfterIff | bms/google_dc_pps.c:218-646 | exactly which leave it not supported |
| PpsModel.AvailableAfterIff | bms/google_dc_pps.c:588-620 | exactly which leave it available |
| PpsModel.DisabledAfterIff | bms/google_dc_pps.c:53-73 | exactly which leave it disabled |
| PpsModel.DetectionSucceeds | bms/google_dc_pps.c:563-688 | from every stage that is not final three turns of detection with an adapter that cooperates make it active in programmable mode, and it stays so |
| PpsModel.DelayBound | bms/google_dc_pps.c:843-848 | no returned delay reaches past ten seconds after the second of the last contact |
| PpsModel.ContactGapBelowTenSeconds | bms/google_dc_pps.c:766-871 | successive contacts, and the last contact and the last call, are strictly less than ten seconds apart in every run that honours the delays, although timestamps are whole seconds |
| PpsModel.GapIsTight | bms/google_dc_pps.h:23-24 | a run that honours the delays can leave a gap one nanosecond below ten seconds |
| PpsModel.FullDelayContacts | bms/google_dc_pps.c:843-871 | a caller that uses up its delay contacts the adapter then, unless it is to set a second value at once |
| PpsModel.SecondValueAtOnce | bms/google_dc_pps.c:790-840 | when two values differ the next call on time comes at once and sets the second |
| PpsAdapter.Adapter.Work | bms/google_dc_pps.c:563-688 | one turn of detection takes the stage where the stage machine says, for any replies; a ping stamps the time and asks to be called within the timeout |
| PpsAdapter.Adapter.CheckOnline | bms/google_dc_pps.c:218-271 | follows the stage machine; reports true exactly when active, or without a supply |
| PpsAdapter.Adapter.ProgOffline | bms/google_dc_pps.c:299-317 | starts over, whatever the supply replies |
| PpsAdapter.Adapter.KeepAlive | bms/google_dc_pps.c:691-708 | stamps the time exactly on success and falls back to fixed mode on failure |
| PpsAdapter.Adapter.SetProp | bms/google_dc_pps.c:734-751 | only an unsupported operation falls back to fixed mode |
| PpsAdapter.Adapter.UpdateAdapter | bms/google_dc_pps.c:766-871 | never changes the stage; stamps the time exactly when it contacts; sets the current if that differs, else the voltage; with a cooperating adapter contacts and delays as the schedule says; follows the stage machine for all replies |
| PpsAdapter.SettleBoth | bms/google_dc_pps.c:766-871 | two calls in a row, as the delays ask for, set the current and then the voltage |
| TierStats.BookedIsElapsedPlusSeed | bms/google_bms.c:1325-1371 | with valid states the time booked per state is the averaged time plus the seed sample's |
| TierStats.IntegralBounds | bms/google_bms.c:1382-1405 | for every history a quantity's integral lies between its bounds times the time |
| TierStats.AverageWithin | bms/google_bms.c:1424-1427 | the truncated quotient of a bounded sum by a positive time stays within the bounds, negative values included |
| TierStats.AverageBetweenExtremes | bms/google_bms.c:1337-1431 | minimum times time <= sum <= maximum times time, and below 2^31 seconds the printed average lies between the printed extremes |
| TierStats.SteadyFails | bms/google_bms.c:1424-1426 | for every time from 2^31 seconds on a history of equal samples whose printed average is outside its extremes |
| TierStats.AverageHoldsIff | bms/google_bms.c:1416-1426 | for a total time the average lies between the extremes of every history if and only if the time is below 2^31 seconds |
| TierStats.AverageCutsOff | bms/google_bms.c:1424-1426 | below 2^31 seconds the average is the quotient with its fraction cut off: not further from 0, less than one off, of the sum's sign |
| TierStats.FollowsTook | bms/google_bms.c:1390-1405 | one more sample adds its value times its time to the sum and widens the extremes to it, and nothing else |
| TierStats.Tier.Book | bms/google_bms.c:1325-1334 | per-state time and count follow the history; unknown states book nothing |
| TierStats.Tier.AddTime | bms/google_bms.c:1375-1381 | the three time buckets follow the history |
| TierStats.Tier.Update | bms/google_bms.c:1337-1408 | the record remains the summary of all samples: extremes attained and never passed, exact integrals, buckets, entry values; field by field, temperature, current and input limit each take their own reading and the time goes to the bucket of the charge type |
| TierStats.Tier.Averages | bms/google_bms.c:1412-1431 | time and averages of the history with the divisor narrowed to 32 bits; below 2^31 seconds each is the sum over the time cut off, within its extremes |
| ChargeProfile.Fade10 | bms/google_bms.c:347-369 | -EINVAL, or in int arithmetic the value of the line through the segment that decides the cycle count, if and only if product and result fit an int |
| ChargeProfile.Interpolate | bms/google_bms.c:369 | a quotient and a sum taken in ints are right if and only if dividend and result fit |
| ChargeProfile.FadeExact | bms/google_bms.c:356-369 | exact at every reference point and 0 at the start |
| ChargeProfile.FadeBetween | bms/google_bms.c:360-369 | between the neighbouring references inside a segment |
| ChargeProfile.FadeMonotone | bms/google_bms.c:348-369 | monotone in cycles across segments and the extrapolated tail |
| ChargeProfile.VoltageIdx | bms/google_bms.c:1049-1069 | the first tier not below the battery voltage, or the next one for want of headroom computed in ints |
| ChargeProfile.Tier32IsTier | bms/google_bms.c:1060-1065 | ints are wide enough for every battery voltage that is not negative, with a resolution below a third of 2^31 |
| ChargeProfile.TierMonotone | bms/google_bms.c:1049-1069 | a higher battery voltage never selects an earlier tier, sorted limits or not |
| ChargeProfile.HeadroomIff | bms/google_bms.c:1057-1066 | three steps of headroom below every tier but the last, at every voltage, if and only if the tiers are that far apart |
| ChargeProfile.EarliestWithHeadroom | bms/google_bms.c:1049-1066 | no tier before the chosen one has the headroom; with tiers far enough apart it is exactly the earliest that does, and the last only if none does |
| ChargeProfile.VoltageIdxMergeTiers | bms/google_bms.c:989-1020 | moves on only through tiers of equal current, as far as possible, never into the last tier |
| ChargeProfile.TempIdx | bms/google_bms.c:1027-1041 | the row whose range holds the temperature, clamped at both ends |
| ChargeProfile.RoundFv | bms/google_bms.c:947-974 | the multiple of the resolution nearest to the clamped request |
| ChargeProfile.BoundMeans | bms/google_bms.c:951-963 | the bound is the margin over the tier without direct charging, and with it the tier plus the drop by current, or one step below the last tier |
| ChargeProfile.MarginBounds | bms/google_bms.c:951-967 | without direct charging no request is rounded more than half a step above the margin, and one within it is only rounded |
| ChargeProfile.NearestAbove | bms/google_bms.c:966-967 | the nearest step to a request is above a tier if and only if the request is half a step above it |
| ChargeProfile.RoundBelowLastIff | bms/google_bms.c:956-963 | with direct-charge current and no permission no request an int can hold is rounded above the last tier, if and only if the bound from tier and current is neither 0 nor reaches a last tier of a single step, or an int has no room half a step above that tier |
| ChargeProfile.NoBoundExamples | bms/google_bms.c:951-966 | a request above the last tier that passes unclamped, for each of the two failing cases |
| ChargeProfile.AlignTiers | bms/google_bms.c:677-680 | in place, every limit becomes the largest multiple of the resolution not above it |
| LogSplit.LinesRoundTrip | bms/google_bms.c:1479-1502 | the lines of a text put back together are the text |
| LogSplit.ChunksRoundTrip | bms/google_bms.c:1492-1496 | the entries of a line put back together are the line |
| LogSplit.AheadIsExpected | bms/google_bms.c:1485-1501 | what the loop emits is every line in pieces of at most 255 characters, without a blank first line |
| LogSplit.ExpectedCutsLines | bms/google_bms.c:1479-1502 | the entries are the lines of the text in order and whole, but a blank first one, each line in entries of its own, all but its last full |
| LogSplit.ExpectedOk | bms/google_bms.c:1482-1496 | no entry is longer than 255 characters or contains a newline |
| LogSplit.LogExactIff | bms/google_bms.c:1486-1494 | the printed log is exact if and only if the text has no NUL |
| LogSplit.Handle | bms/google_bms.c:1479-1502 | the loop terminates although it steps back, logs exactly the expected entries, and only appends a newline to the buffer |
| InterfaceCheck.Check | aoc/aoc-interface-gs101.h:2816-2856 | the loops decide the search with a creeping start, for every size |
| InterfaceCheck.SameBytes | aoc/aoc-interface-gs101.h:2836-2843 | true exactly for equal entries |
| InterfaceCheck.SearchIffPresent | aoc/aoc-interface-gs101.h:2821-2855 | never accepts a missing entry; without duplicates accepts exactly when all are present |
| InterfaceCheck.ExactIffNoDuplicates | aoc/aoc-interface-gs101.h:2821-2855 | the search is exact for all tables if and only if no expected entry repeats |
| InterfaceCheck.InterfaceCheck | aoc/aoc-interface-gs101.h:2545-2857 | 0 exactly when every expected entry occurs in the table, given no duplicates; never 0 when one is missing |
| CycleCount.DigitsOfDecimal | bms/google_bms.c:1183-1187 | reading the digits of a printed number gives the number |
| CycleCount.SpacedIsLine | bms/google_bms.c:1165-1167 | replacing the last blank gives the numbers separated by blanks and ended by a newline |
| CycleCount.Print | bms/google_bms.c:1160-1171 | the whole line when it fits, otherwise as much as fits, always ended by newline and NUL |
| CycleCount.Parse | bms/google_bms.c:1174-1194 | all ten values or no change; each value is taken only below 65535 |
| CycleCount.ScanLine | bms/google_bms.c:1183-1187 | the conversions find exactly the printed values |
| CycleCount.PrintThenParse | bms/google_bms.c:1160-1193 | printing ten counts into a buffer of the declared size and parsing the text into any array succeeds, restores each count below 65535, and restores all if and only if each is below 65535 or was there before |
| CycleCount.DeclaredSizeFits | bms/google_bms.h:667-668 | the declared buffer size never truncates ten counts |

## Left out

- RingRegion.Ring: each ring call is one step there.
- RingRuns.Drive: the reader looks with a lag below 2^32 and flushes with a safe pointer sum, the exact limits above.
- RingProtocol.EveryInterleavingIsExact: the producer checks the reported space first, and so in ModestConsumerIsExact; the producer as the code has it is in `RingOverrun.dfy`.
- RingProtocol.ModestConsumerIsExact: the same producer.
- RingOverrun.EveryReadIsTraced: memory accesses are atomic and in program order, and a copy goes byte by byte upwards; so in RingProtocol.
- QueueRegion.Queue: the byte pointers wp and rp, which a queue advances but never uses, are not fields of the model; buffer-type services and null arguments are not modelled.
- QueueProtocol.EveryInterleavingIsFifo: memory accesses are atomic and in program order; write barriers and weak ordering are not modelled.
- DrainProtocol.EveryRunIsSafe: covers the watchdog's call of aoc_take_offline, under the service lock; the calls from shutdown and cleanup, which do not take it, and the poll helpers, which do not count themselves, are not modelled.
- DrainProtocol.DrainBound: clients that keep entering can keep the counter above zero; nothing bounds how many do.
- ChannelDemux.EveryRunIsOk: truncation of a message to the reader's buffer, wake locks, the shared-memory doorbell and the device list are not modelled.
- Storage.Registry.Read: providers are never offline, and the fetch and store path by address is not modelled, since the cache lookup never returns an address.
- DrainProtocol.TransfersExactlyWhenEarned: what is transferred is the business of the ring and queue models; a mailbox callback is a client that gives up after its first look.
- PpsModel.ActiveOnlyAfterPing: the debugfs file of `bms/google_cpm.c` that stores a stage by hand is not one of the calls.
- PpsModel.ContactGapBelowTenSeconds: adapter calls succeed and take no time.
- PpsAdapter.Adapter.Work: source capabilities are a count only; PDO decoding, power computation and wake locks are not modelled.
- TierStats.Tier.Update: requires samples for which no field wraps; total time below 2^32 seconds.
- ChargeProfile.VoltageIdx: the lookup of the current table by temperature row is an argument.
- CycleCount.Parse: sscanf is the kernel's, which stores of a number too large for an int its low 32 bits.
- Device tree, sysfs, debugfs and character-device plumbing, regulators, interrupts, firmware loading and authentication, core dumps, IOMMU and DMA heaps.
- Time-to-full estimation, charge-history formatting beyond the averages, and the other battery algorithms of the tree.
