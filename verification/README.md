# The internal-networking frame ring

VirtualBox's internal networking moves Ethernet frames between a virtual machine and the
network through ring buffers in shared memory. One writer and one reader share each ring.
A frame has an 8-byte header and a payload that is kept in one piece: if it does not fit
before the end of the ring, the header stays where it is and the payload goes to the start
of the ring, reached by a negative offset. A writer may hold several reservations at a time
and commits them in order, possibly using only part of one.

The project models that ring twice and proves that the two agree.

* As a class (`RingBuffer.RingBuf`) with the fields of the C structure, offsets counted from
  the structure, 32-bit arithmetic that wraps, alignment by bit mask, and stores into an array.
* As a value (`RingModel.Ring`) of bytes and three offsets counted from the ring's start.
  What is in the ring is read off the bytes: `Framing.Chain` follows headers from one offset
  to another, `Framing.Frames` collects the frames passed. Unread frames are those from the
  read offset to the committed one, reservations those from there to the internal write offset.

Each method's postcondition equates the new abstract ring with the operation of the same name
on the old one. The theorems are about the abstract ring:

* `Fifo` - every run of operations is a run of a queue of byte strings; the frames seen are a
  prefix of the frames committed.
* `Interleaving` - the same with the writer, clients gathering data into their reservations, and
  the reader all running at once, each load, store, publish and copied byte a step of its own, the
  writer working from a reader offset that may be old. What any schedule does is a run of the queue;
  steps of one operation that no other step interrupts are the operation of the sequential model.
* `Limits` - when exactly a request is refused, accepted, or loses data; conservation of space;
  the reader's walk; the chain of reservations; the counters.
* `NetBuffer` - the two rings of an interface buffer do not touch each other.
* `ScatterGather`, `SgTransfer` - copying a frame in pieces, and copying it straight into a ring.

`Bytes` (machine integers, masks, little-endian fields) and `Geometry` (distances and arcs on a
ring) carry the rest.

Where code and comments disagree the model follows the code:

* "the writer will not use the last free byte" (intnet.h:41-43) fails for one request, which the
  `>=` of intnetinline.h:421 lets through: reader at the start, frame ending exactly at the end.
  The ring then looks empty. `FillsRing` names that request; a caller can test it, or the
  stronger `align8(cbFrame) + 8 <= IntNetRingGetWritable()`, before the call. Runs are all runs
  without it. In concurrent executions it is the reader's offset at the compare-and-swap that
  counts, not the one loaded (`DecideExact`); the caller's test stays good while the reader moves
  (`GuardIsStable`, `GuardKeeps`). What happens with the request is said by `ExactFullness`, `AllocSoundIff`,
  `CopyCommitDelivers`, `WriteDeliversIff`, `FilledReadsEmpty` and `LostWrite`.
* The ordering clause of INTNETRINGBUF_ASSERT_SANITY (intnet.h:100-103) has no bound on
  `offWriteInt` in its second arm; the inductive invariant needs one (`OrderedIsStrongerSanity`).
* IntNetRingCommitFrameEx shortens a frame only if padding fits behind it (`TrimLengthExact`,
  `ThreeBytesTooMany`).
* IntNetSgReadEx fetches the segment it started in a second time (`CopiedIsSliceIff`).
* The driver's retry test (DrvIntNet.cpp:399) leaves out the alignment and the 8-byte GSO context
  that the call below it adds, so that it can ask again on an emptied ring and be refused again
  (`RetryTestTooWeak`, `RefusedAfterRun`). `RetryTestExact` says for which frames it is sufficient.
* INTNETBUF_ASSERT_SANITY (intnet.h:162-183) names an undeclared variable and takes both ends of
  a ring from its start; the layout here is the one IntNetBufInit makes.

What the model asks of callers: frame sizes from 12 to 0xFFFF (the header field has 16 bits; for
a GSO frame the 8-byte context counts), ring bounds that are multiples of 8 with
`offEnd + 0x10008 < 2^32`, and rings of at most 2^31 bytes, so that every `offFrame` fits its
32 bits. One writer, commits in allocation order, `cbUsed` plus any GSO context at most the
reserved size.

## Model

| member | source | states |
|---|---|---|
| Bytes.Align32IsAlign8 | VirtualBox_4.1.0/include/iprt/cdefs.h:1098-1105 | the 32-bit mask of RT_ALIGN_32 yields the least multiple of eight not below its argument, whenever adding seven does not overflow |
| Framing.HeaderRoundTrip | VirtualBox_4.1.0/include/VBox/intnet.h:210-222 | the eight little-endian header bytes decode to the type, length and signed payload offset they were made from |
| Framing.HeaderBytes | VirtualBox_4.1.0/include/VBox/intnet.h:210-222 | the header is two bytes of type, two of length and four of offset, each from its low byte up, the offset in two's complement |
| Framing.ChainAgree | VirtualBox_4.1.0/include/VBox/intnet.h:202-221 | what lies on the way from one offset to another depends only on the bytes between them |
| Framing.ChainConcat | VirtualBox_4.1.0/include/VBox/intnet.h:202-221 | chains of headers compose and their frames concatenate, across the wrap too |
| Framing.AppendReservation | VirtualBox_4.1.0/include/VBox/intnetinline.h:430-433 | a header stored behind the chain of reservations, and the first bytes of its payload, lengthen that chain by exactly one frame and change no other, for in-place and wrapped payloads |
| Framing.StoreInPayload | VirtualBox_4.1.0/include/VBox/intnet.h:58-62 | data gathered into the k-th reservation changes those bytes of that frame, no header, no other frame, and nothing outside the reservations |
| Framing.SplitSlot | VirtualBox_4.1.0/include/VBox/intnetinline.h:611-619 | after the padding header and the cut length the old slot is walked in two steps, first the used bytes unchanged, then padding, ending where one step ended before; all other bytes are untouched |
| RingModel.PlaceExact | VirtualBox_4.1.0/include/VBox/intnetinline.h:416-464 | a chosen place is a legal header position and leaves the write offset short of the reader, except exactly when the request fills the ring |
| RingModel.NoRoomExact | VirtualBox_4.1.0/include/VBox/intnetinline.h:416-485 | allocation overflows exactly when no legal header for the frame, in place or wrapped, would leave a byte free (and the request is not the one filling the ring) |
| RingModel.StalePlacement | VirtualBox_4.1.0/include/VBox/intnetinline.h:414-447 | a place chosen from an old reader offset is still free of the present unread region, unless with the reader where it now is the request fills the ring |
| RingModel.InPlaceFirst | VirtualBox_4.1.0/include/VBox/intnetinline.h:416-447 | an allocation that finds room puts the payload right behind its header if and only if that ends before the end of the ring or at it, and at the start of the ring otherwise; the write offset moves to the end of the payload |
| RingModel.ReserveKeeps | VirtualBox_4.1.0/include/VBox/intnetinline.h:414-459 | taking space, decided from a possibly old reader offset, keeps the invariant and the unread frames and appends one reservation that begins with the given bytes |
| RingModel.AllocKeeps | VirtualBox_4.1.0/include/VBox/intnetinline.h:404-486 | allocation adds one reservation of the asked type, size and first bytes behind the others, or overflows and changes only the overflow counter |
| RingModel.FillKeeps | VirtualBox_4.1.0/include/VBox/intnet.h:58-62 | gathering keeps the invariant and all unread frames and patches exactly the named reservation |
| RingModel.CommitKeeps | VirtualBox_4.1.0/include/VBox/intnetinline.h:541-567 | a commit hands the oldest reservation, as it then stands, to the reader behind all unread frames |
| RingModel.CommitExRewrites | VirtualBox_4.1.0/include/VBox/intnetinline.h:582-625 | the commit offset is the plain one, reached in one step or, with padding, two; later reservations and everything outside the slot are unchanged |
| RingModel.CommitExKeeps | VirtualBox_4.1.0/include/VBox/intnetinline.h:582-625 | the reader gets the used bytes, for a GSO frame with the eight of its context, followed by one padding frame of the exact remaining size, or the whole reservation if the aligned sizes agree |
| RingModel.DiscardKeeps | VirtualBox_4.1.0/src/VBox/Devices/Network/DrvIntNet.cpp:456-479 | a freed reservation reaches the reader as padding of the same size |
| RingModel.WriteRefinesThreeSteps | VirtualBox_4.1.0/include/VBox/intnetinline.h:638-732 | with nothing outstanding the fused write leaves bytes, offsets and counters exactly as allocate, copy, commit do, on every outcome, the ring-filling one included |
| RingModel.CopyCommitDelivers | VirtualBox_4.1.0/include/VBox/intnetinline.h:404-567 | allocating, copying and committing delivers one frame of exactly those bytes behind everything unread; a request that fills the ring leaves the reader nothing at all |
| RingModel.WriteKeeps | VirtualBox_4.1.0/include/VBox/intnetinline.h:638-732 | the fused write appends exactly the given bytes as a frame, or counts an overflow and changes nothing else |
| RingModel.SkipMeetsNext | VirtualBox_4.1.0/include/VBox/intnetinline.h:380-384 | the reader's end-of-frame computation and the writer's commit offset agree for every legal header |
| RingModel.SkipKeeps | VirtualBox_4.1.0/include/VBox/intnetinline.h:370-391 | skipping removes exactly the oldest unread frame, stays short of the committed offset, and frees at least eight bytes |
| Fifo.KeepsInv | VirtualBox_4.1.0/include/VBox/intnet.h:80-105 | the inductive ring invariant survives every enabled operation |
| Fifo.StepRefines | VirtualBox_4.1.0/include/VBox/intnetinline.h:404-732 | every enabled operation is one step of a queue of byte strings that knows no offsets |
| Fifo.AsksExactly | VirtualBox_4.1.0/include/VBox/intnetinline.h:404-732 | what each operation asks of its caller, in terms of reservations, unread frames and sizes: enabled if and only if that is met |
| Fifo.QueueStepDetermined | VirtualBox_4.1.0/include/VBox/intnetinline.h:404-732 | the queue's steps are deterministic: operation and outcome fix the next state, save for the unwritten bytes of a new reservation |
| Fifo.WritesArrive | VirtualBox_4.1.0/include/VBox/intnetinline.h:628-732 | in any run of fused writes and skips, what has been logged is exactly what was written and found room, in order, and what has been seen is a prefix of it |
| Fifo.RunsAreFifo | VirtualBox_4.1.0/include/VBox/intnetinline.h:292-732 | in every run from an empty ring the frames seen are a prefix of the frames committed, byte for byte, the rest being exactly the unread frames |
| Interleaving.DecideKeeps | VirtualBox_4.1.0/include/VBox/intnetinline.h:414-459 | the compare-and-swap finds the loaded write offset, and what it takes is right although the reader may have moved; all stores that follow lie in the space taken |
| Interleaving.DecideExact | VirtualBox_4.1.0/include/VBox/intnetinline.h:414-459 | a decision that finds room, from however old a reader offset, keeps the invariant if and only if the request does not fill the ring with the reader where it now is |
| Interleaving.StartCommitExKeeps | VirtualBox_4.1.0/include/VBox/intnetinline.h:611-619 | the stores of a padded commit lie in the reservation, and once made they leave exactly what the commit promises to publish |
| Interleaving.StoreSomeKeeps | VirtualBox_4.1.0/include/VBox/intnetinline.h:430-433 | any part of any store keeps the invariant and hits no byte between the read and the committed offset |
| Interleaving.GatherKeeps | VirtualBox_4.1.0/include/VBox/intnet.h:58-62 | a client may gather into a reservation it still has at any time, also while the writer allocates or commits others and the reader copies; it is one fill of the queue |
| Interleaving.EndFrameKeeps | VirtualBox_4.1.0/include/VBox/intnetinline.h:370-391 | whatever the writer and the clients are doing, the reader has copied exactly the oldest unread frame and moves past it alone |
| Interleaving.EndOperationKeeps | VirtualBox_4.1.0/include/VBox/intnetinline.h:622 | the end of an operation is the step of the queue it was begun for; the store to offWriteCom makes its frames readable all at once |
| Interleaving.StepAsksExactly | VirtualBox_4.1.0/include/VBox/intnetinline.h:370-732 | what each step asks for: the writer's and reader's own progress and the callers' rules, nothing of the other parties; a client may store into any reservation but the one being committed |
| Interleaving.StepKeeps | VirtualBox_4.1.0/include/VBox/intnetinline.h:370-732 | the invariant survives every step of writer, clients and reader in any order, and the queue moves only as that step should move it |
| Interleaving.ExecutionsAreFifo | VirtualBox_4.1.0/include/VBox/intnetinline.h:292-732 | under every schedule: in every state the frames read are a prefix of the frames committed and the rest is readable, outstanding stores stay out of the unread region, and the operations, each taken when it ends, are a run of the queue from empty to the final one |
| Interleaving.ReaderGoesOn | VirtualBox_4.1.0/include/VBox/intnetinline.h:370-391 | from every reachable state with something unread, whatever writer and clients are doing, the reader can move on by steps of its own, past exactly the oldest unread frame, padding or not, nothing else changed; with the writer idle that is the sequential skip |
| Interleaving.ReaderCatchesUp | VirtualBox_4.1.0/src/VBox/Devices/Network/SrvIntNetR0.cpp:3500-3546 | the reader alone can catch up from every reachable state: all that was committed is then seen, and the ring has only its read offset moved, to the committed one |
| Interleaving.UndisturbedIsApply | VirtualBox_4.1.0/include/VBox/intnetinline.h:404-732 | an operation begun with nothing under way and carried on without a step of anyone else, however its stores are cut up, ends in exactly the ring of the sequential operation, for all seven operations of the writing side |
| Interleaving.OperationAlone | VirtualBox_4.1.0/include/VBox/intnetinline.h:404-732 | every enabled operation has such an uninterrupted run |
| Interleaving.FinishAlone | VirtualBox_4.1.0/include/VBox/intnetinline.h:404-732 | whatever the writer is in the middle of, it can finish by steps of its own, waiting for no one |
| Interleaving.GuardKeeps | VirtualBox_4.1.0/include/VBox/intnetinline.h:262-270 | a caller who found the request within the writable space before asking is safe whatever reader and clients do until the writer decides |
| Limits.ExactFullness | VirtualBox_4.1.0/include/VBox/intnetinline.h:262-270 | a successful allocation moves the write offset onto the reader exactly for the ring-filling request, which is exactly the one exceeding the reported writable space |
| Limits.GuardIsStable | VirtualBox_4.1.0/include/VBox/intnetinline.h:262-270 | a request within the writable space stays clear of the exception however far the reader moves meanwhile |
| Limits.AllocSoundIff | VirtualBox_4.1.0/include/VBox/intnetinline.h:416-459 | an allocation that found room leaves a ring in order, everything unread still there and one reservation more, if and only if it does not fill the ring |
| Limits.WriteDeliversIff | VirtualBox_4.1.0/include/VBox/intnetinline.h:652-678 | a write that found room, fused or in three steps, is delivered behind all unread frames if and only if it does not fill the ring; if it does, the reader is told there is nothing |
| Limits.FilledReadsEmpty | VirtualBox_4.1.0/include/VBox/intnetinline.h:421-437 | after an allocation that fills the ring, with reservations outstanding before it or not, all of them can be committed, each is counted, and the reader is then told there is nothing |
| Limits.LostWrite | VirtualBox_4.1.0/include/VBox/intnetinline.h:657-661 | on a fresh ring the largest frame that passes the test is counted as written and never seen |
| Limits.LostWriteSize | VirtualBox_4.1.0/include/VBox/intnetinline.h:657-661 | one such input: twenty-four bytes written to a ring of thirty-two, the smallest the service makes (SrvIntNetR0.cpp:4543-4544), are counted as written and the reader is told there is nothing |
| Limits.OrderedIsStrongerSanity | VirtualBox_4.1.0/include/VBox/intnet.h:100-103 | the inductive ordering is the asserted one plus `offWriteInt < offRead` once the committed offset is below the reader |
| Limits.SanityGap | VirtualBox_4.1.0/include/VBox/intnet.h:100-103 | exactly what the asserted ordering lets through, and that reserved and unread regions then share a byte |
| Limits.Conservation | VirtualBox_4.1.0/include/VBox/intnetinline.h:262-315 | readable, reserved and writable bytes add up to all but one; an allocation takes eight plus the aligned size, or the tail plus the aligned size when it wraps |
| Limits.InUseSuffices | VirtualBox_4.1.0/include/VBox/intnet.h:202-221 | headers and payloads are all that matters: if the bytes in use stay, so do the chain and its frames, whatever happens to the others |
| Limits.AllocationApart | VirtualBox_4.1.0/include/VBox/intnetinline.h:430-457 | header and payload of any successful allocation are inside the ring, apart from each other, from every unread frame and from every other reservation |
| Limits.AcceptanceExact | VirtualBox_4.1.0/include/VBox/intnetinline.h:416-485 | an empty ring accepts a frame at every position of its offsets if and only if its size is at least twice the aligned frame plus eight |
| Limits.RetryTestTooWeak | VirtualBox_4.1.0/src/VBox/Devices/Network/DrvIntNet.cpp:388-399 | the driver's size test holds for 12 bytes in 32, and for 16 bytes with a GSO context in 40, yet at offset 16 the empty ring refuses them |
| Limits.RetryTestExact | VirtualBox_4.1.0/src/VBox/Devices/Network/DrvIntNet.cpp:388-407 | the test guarantees room in the emptied ring, of whatever size and wherever its offsets stand, if and only if the frame has no context and its size is a multiple of eight or at most three short of one |
| Limits.RefusedAfterRun | VirtualBox_4.1.0/src/VBox/Devices/Network/DrvIntNet.cpp:388-407 | both refusals happen at the end of a run from the fresh ring, two frames written and read, in an empty ring |
| Limits.DrainThenAccept | VirtualBox_4.1.0/src/VBox/Devices/Network/DrvIntNet.cpp:384-409 | after the reader has emptied the ring a frame within the size condition is accepted |
| Limits.WalkExact | VirtualBox_4.1.0/include/VBox/intnetinline.h:308-391 | k skips leave exactly the unread frames from the k-th on, free at least 8k bytes, and meet the committed offset exactly after all of them |
| Limits.CommitAllMeets | VirtualBox_4.1.0/include/VBox/intnetinline.h:541-625 | committing all reservations in order, padded, discarded or plain, makes the two write offsets equal |
| Limits.PendingChain | VirtualBox_4.1.0/include/VBox/intnetinline.h:404-567 | the first outstanding header is at offWriteCom, each next one at the commit offset of the one before, the last one's commit offset is offWriteInt |
| Limits.TrimLengthExact | VirtualBox_4.1.0/include/VBox/intnetinline.h:592-619 | the frame the reader gets from a padded commit has the used length, eight more for a GSO frame, if and only if all bytes were used or the aligned sizes differ, is the whole reservation otherwise, and begins with the used bytes in any case |
| Limits.ContextCounts | VirtualBox_4.1.0/include/VBox/intnetinline.h:592-619 | forty bytes used behind the context of a GSO reservation of sixty-four: the reader gets forty-eight, and forty-eight are counted |
| Limits.ThreeBytesTooMany | VirtualBox_4.1.0/include/VBox/intnetinline.h:611-619 | one failing count: thirteen bytes used of sixteen, and the reader gets sixteen |
| Limits.FusedWriteIff | VirtualBox_4.1.0/include/VBox/intnetinline.h:628-638 | whenever there is room the fused write equals allocate, copy, commit if and only if nothing was outstanding |
| Limits.CountersExact | VirtualBox_4.1.0/include/VBox/intnetinline.h:564-732 | what each operation does to the three counters, told from the reservation published and from what reader and client find afterwards; a skip changes the read offset alone |
| Limits.RunCounts | VirtualBox_4.1.0/include/VBox/intnet.h:63-68 | over every run the three counters have moved, modulo 2^64, by the frames published, the bytes accounted for them and the refusals |
| Limits.StatsMatchLog | VirtualBox_4.1.0/include/VBox/intnet.h:63-68 | in runs of plain commits and writes the counters move, modulo 2^64, by the frames of the log and by their bytes |
| RingBuffer.AllocArithmetic | VirtualBox_4.1.0/include/VBox/intnetinline.h:413-466 | within the stated bounds no 32-bit computation of the allocator wraps, and the wrapped difference stored as offFrame is the true negative offset |
| RingBuffer.CommitArithmetic | VirtualBox_4.1.0/include/VBox/intnetinline.h:553-562 | adding a negative offFrame in 32 bits gives the true commit offset, at most offEnd |
| RingBuffer.SkipArithmetic | VirtualBox_4.1.0/include/VBox/intnetinline.h:380-384 | so does the reader's computation |
| RingBuffer.CommitExArithmetic | VirtualBox_4.1.0/include/VBox/intnetinline.h:597-616 | the sizes and the 16-bit lengths of a padded commit are the true ones, and the padding header is inside the ring |
| RingBuffer.RingBuf.GetWritable | VirtualBox_4.1.0/include/VBox/intnetinline.h:262-270 | the 32-bit result is the bytes free on the abstract ring, less one |
| RingBuffer.RingBuf.GetReadable | VirtualBox_4.1.0/include/VBox/intnetinline.h:308-315 | the 32-bit result is the distance from reader to committed offset |
| RingBuffer.RingBuf.HasMoreToRead | VirtualBox_4.1.0/include/VBox/intnetinline.h:278-283 | true exactly if there are unread frames |
| RingBuffer.RingBuf.GetNextFrameToRead | VirtualBox_4.1.0/include/VBox/intnetinline.h:292-299 | null exactly if nothing is unread, else the oldest unread header |
| RingBuffer.RingBuf.HdrGetFramePtr | VirtualBox_4.1.0/include/VBox/intnetinline.h:325-362 | the pointer is the payload position the header's bytes give, before or behind it |
| RingBuffer.RingBuf.FindRoom | VirtualBox_4.1.0/include/VBox/intnetinline.h:413-466 | the three branches in wrapping 32-bit arithmetic choose exactly the abstract place |
| RingBuffer.FirstFrame | VirtualBox_4.1.0/include/VBox/intnetinline.h:325-336 | for the header at the read offset that payload is inside the ring and holds the oldest unread frame |
| RingBuffer.RingBuf.AllocateFrameInternal | VirtualBox_4.1.0/include/VBox/intnetinline.h:404-486 | the 32-bit code with its stores does to the structure what allocation does to the abstract ring, memory outside the ring unchanged, results as placed |
| RingBuffer.RingBuf.AllocateFrame | VirtualBox_4.1.0/include/VBox/intnetinline.h:499-502 | normal frames: the invariant is kept unless the request fills the ring |
| RingBuffer.RingBuf.AllocateGsoFrame | VirtualBox_4.1.0/include/VBox/intnetinline.h:516-528 | GSO frames: the reservation begins with the context and the returned pointer is behind it |
| RingBuffer.RingBuf.GatherInto | VirtualBox_4.1.0/include/VBox/intnet.h:58-62 | data copied into a reservation is the abstract fill, memory outside the ring unchanged |
| RingBuffer.RingBuf.CommitFrame | VirtualBox_4.1.0/include/VBox/intnetinline.h:541-567 | the structure commits its first reservation as the abstract ring does, after a ring-filling allocation too |
| RingBuffer.RingBuf.CommitFrameEx | VirtualBox_4.1.0/include/VBox/intnetinline.h:582-625 | the structure's padded commit is the abstract one, memory outside the ring unchanged |
| RingBuffer.RingBuf.FreeFrame | VirtualBox_4.1.0/src/VBox/Devices/Network/DrvIntNet.cpp:456-479 | relabelling and committing is the abstract discard |
| RingBuffer.RingBuf.WriteFrame | VirtualBox_4.1.0/include/VBox/intnetinline.h:638-732 | the structure's fused write is the abstract one, VINF_SUCCESS if there is room and VERR_BUFFER_OVERFLOW otherwise |
| RingBuffer.RingBuf.SkipFrame | VirtualBox_4.1.0/include/VBox/intnetinline.h:370-391 | the structure skips as the abstract ring does |
| RingBuffer.RingBuf.ProcessFrames | VirtualBox_4.1.0/src/VBox/Devices/Network/SrvIntNetR0.cpp:3500-3546 | the loop hands over exactly the frames, and GSO frames with a valid context, that it passes, in order, counts the bad ones, and stops before the first one the switch wants again, which stays unread with all behind it; otherwise it drains the ring |
| RingBuffer.ForwardedOne | VirtualBox_4.1.0/src/VBox/Devices/Network/SrvIntNetR0.cpp:3503-3536 | a normal frame is handed over, a GSO frame is if its context is valid and is counted as bad otherwise, padding is passed |
| RingBuffer.ForwardedConcat | VirtualBox_4.1.0/src/VBox/Devices/Network/SrvIntNetR0.cpp:3500-3546 | the loop treats each frame for itself, in order |
| RingBuffer.ForwardedIsVisible | VirtualBox_4.1.0/src/VBox/Devices/Network/SrvIntNetR0.cpp:3503-3537 | if every frame is a normal one, padding, or GSO with a valid context, what is handed over is what the reader of the ring is to see, and nothing is counted as bad |
| RingBuffer.ForwardedSound | VirtualBox_4.1.0/src/VBox/Devices/Network/SrvIntNetR0.cpp:3503-3537 | nothing is ever handed over but normal frames and GSO frames with a valid context |
| RingBuffer.BabbleCounts | VirtualBox_4.1.0/src/VBox/Devices/Network/SrvIntNetR0.cpp:3514-3536 | the bad-frame count is the number of GSO frames with an invalid context |
| RingBuffer.RingBuf.Run | VirtualBox_4.1.0/include/VBox/intnetinline.h:292-732 | any run on the structure is the same run on the abstract ring, so the run theorems hold of the code |
| NetBuffer.NetBuf.Init | VirtualBox_4.1.0/include/VBox/intnetinline.h:787-817 | both rings start empty with the requested sizes, the receive ring right behind the structure, the send ring right behind it |
| NetBuffer.NetBuf.ExecuteRecv | VirtualBox_4.1.0/include/VBox/intnet.h:112-146 | an operation on the receive ring leaves the send ring's bytes and offsets as they were |
| NetBuffer.NetBuf.ExecuteSend | VirtualBox_4.1.0/include/VBox/intnet.h:112-146 | an operation on the send ring leaves the receive ring as it was |
| NetBuffer.NetBuf.Run | VirtualBox_4.1.0/include/VBox/intnet.h:112-146 | however calls to the two rings are mixed, each ring ends as if it had been used alone |
| ScatterGather.LocateExact | VirtualBox_4.1.0/include/VBox/intnetinline.h:213-234 | the segment search ends where the flattened list has the offset |
| ScatterGather.CopiedIsSliceIff | VirtualBox_4.1.0/include/VBox/intnetinline.h:202-252 | the copy is the requested slice if and only if the span starts on a boundary, ends in its first segment, or the bytes fetched twice happen to match |
| ScatterGather.CopiedDiffers | VirtualBox_4.1.0/include/VBox/intnetinline.h:225-228 | three bytes from offset one of two two-byte segments come out as 2, 1, 2 |
| ScatterGather.IntNetSg.InitTemp | VirtualBox_4.1.0/include/VBox/intnetinline.h:141-147 | a linear frame becomes a list that flattens to it |
| ScatterGather.LocateInUse | VirtualBox_4.1.0/include/VBox/intnetinline.h:213-234 | a nonempty span starts in a used segment |
| ScatterGather.ReadExWhole | VirtualBox_4.1.0/include/VBox/intnetinline.h:173-252 | over the whole list the two copy functions give the same bytes |
| ScatterGather.IntNetSg.Read | VirtualBox_4.1.0/include/VBox/intnetinline.h:173-191 | writes exactly the used segments one behind the other and no byte more; with none used it still copies the first segment |
| ScatterGather.IntNetSg.ReadEx | VirtualBox_4.1.0/include/VBox/intnetinline.h:202-252 | writes exactly `Copied`; every segment whose size or memory it looks at is allocated, and a used one unless the span is empty |
| SgTransfer.RingWriteSg | VirtualBox_4.1.0/src/VBox/Devices/Network/SrvIntNetR0.cpp:2548-2567 | a scatter/gather frame arrives as one unread frame of its flattened bytes, readdressed if asked, of GSO type and behind its context if it has one and of normal type otherwise; without room it returns VERR_BUFFER_OVERFLOW and leaves only the overflow counter changed; or it fills the ring, is reported as written, and the reader finds nothing |

## Left out

- Interleaving.StepKeeps: the reader loads a header in one step (its bytes are stable, as StoreSomeKeeps and GatherKeeps show), and counters move with the publishing store.
- ProcessFrames: what the switch does with a frame, address snooping and the sanity of a GSO context are answers of its `Switch` parameter.
- FindRoom: the model writes the three placement branches once; the source has them twice, in the allocator and in the fused write. CommitOffset likewise.
- TakeSpace: the compare-and-swap is an assignment in the class, since with one writer it cannot fail (DecideKeeps); VERR_WRONG_ORDER is therefore not among the results.
- Weak memory ordering and several writers: steps are sequentially consistent, with one writer and one reader.
- The ring structure's own fields are fields of the object, not bytes of the modelled memory.
- Strict-build assertions, logging and the poisoning of read frames.
- IntNetRingReadAndSkipFrame, which is deprecated and returns padding as data.
- Reference counts, flags and GSO details of scatter/gather lists, and physical addresses.
- Trunk ports, factories, the IntNetR0 requests and the switch's routing decisions.
