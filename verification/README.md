# VirtIOGPU.chip: a verified model

Dafny proofs about the core of an AmigaOS 4 Picasso96 chip driver for the VirtIO GPU. The driver is
big-endian PowerPC code with a little-endian device at the other end of shared memory. Modelled are:

- the split virtqueue, in memory and step by step, against a device that fetches and completes in any
  order (`MachineWords`, `Rings`, `VringLayout`, `VirtqueueModel`, `Virtqueue`);
- the synchronous transaction on it, and the wake-up protocol between the waiter and the interrupt
  handler as interleaved statements (`Transaction`, `WaitProtocol`);
- the board-memory allocator (`BoardModel`, `BoardAlloc`);
- rectangle copy, raster operations, line drawing and fill (`Blit`, `XorOverlap`, `Line`, `Fill`);
- the format-converting flush to the display (`Flush`);
- the framebuffer resize with failure at every step (`ResizeFb`);
- the Virgl command encoder with a decoder for it, and the strip-wise texture upload
  (`VirglCodec`, `VirglBuffer`, `StripUpload`);
- the EDID timing parser (`Edid`).

`Results` holds an option type and the outcomes of a host command, `Arithmetic` facts about products and
quotients. Code that changes state in place is a class or a method on arrays, proved against a value
(`Queue`, a slot table, a command sequence, texels) whose own properties are lemmas. `dafny verify dfyconfig.toml` checks the project.

## Premises

- Queue sizes are powers of two up to 32768 (section 2.7 of VirtIO 1.2); AddBuf gets at least one entry
  and a cookie that is not NULL. `SlotAfterWrapIff` shows what other sizes do.
- The device returns only heads in flight, each once; an id past the table is modelled too (`Misreport`).
- Transactions run under io_lock, one at a time. The exact results start from a queue with nothing in flight;
  requests of other callers left behind are treated by `ForeignTransaction`, `StepsOver` and `WakeUpKeptIff`.
- A handler runs to completion between two statements of the waiter, as on a single processor.
- Rectangles and lines lie inside their bitmap and rows inside their stride; pixels drawn have 1, 2 or 4
  bytes; CopyMem is a correct copy of disjoint ranges, and of a range onto itself from above if it is known to
  go upwards; two bitmaps do not overlap unless they are the same one.
- Lines have 0 <= sDelta <= lDelta <= 16383, lDelta > 0 and the documented initial error.
- Display, framebuffer and panning dimensions are 16-bit mode fields, and the visible part of the panned
  bitmap lies in memory. Virgl 2D is off and the framebuffer is no blob resource.
- In a resize, a refused command has no effect on the host, allocators hand out fresh addresses and
  teardown commands succeed.
- Object types of Virgl commands have 8 bits. A host that cannot decode a stream does not execute it.
- A bitmap is uploaded with 32-bit arguments that do not wrap; the caller's limit is 1024 by 1024
  (`src/chip/chip_composite.c:301`), the proofs reach width 15988.

## Where code, comments and expectations part

- `src/virtio/virtqueue.c:25-27` says that vring fields need no swapping; the code swaps whenever the queue
  is modern (`src/virtio/virtqueue.c:224-228`), and this driver's queues are. The code is followed.
- A request left behind by a timeout can make the next wait lose its wake-up (`WakeUpKeptIff`).
- The wait loop does not look at the ring after its last Wait, so a completion that woke it can be reported
  as a timeout and drained; that takes 49 interrupts of the other queue (`LastWaitIsNotRechecked`).
- board_alloc rounds a size within 15 bytes of 4 GB to 16, and its test against the memory size can wrap and
  let the table grow past board memory (`RoundUpCovers`, `OverrunIff`, `OverrunHappens`).
- An xor onto a later part of its own bitmap reads bytes it has written (`XorRightIff`).
- Eleven of the sixteen raster operations are carried out as a source copy (`CodeByteIff`).
- `src/chip/chip_init.c:262-264` speaks of a high-numbered resource id; the id is the next one that neither
  framebuffer nor the cursor uses, and the host may still know it and refuse (`KnownIdRefused`).
- `src/chip/chip_virgl.c:632-637` counts five payload words of a sampler view; the code emits six.

## Model

| member | source | states |
|---|---|---|
| `MachineWords.SwapTwice` | include/virtio/virtqueue.h:84-95 | byte-swapping a word of any width twice restores it |
| `MachineWords.DeviceReads` | include/virtio/virtqueue.h:84-95 | a little-endian reader of memory finds the very number that the big-endian guest swapped before its store |
| `MachineWords.Vr16Twice` | include/virtio/virtqueue.h:84-86 | vr16 undoes itself, in a modern queue and in a legacy one |
| `MachineWords.Vr32Twice` | include/virtio/virtqueue.h:88-90 | vr32 undoes itself, in a modern queue and in a legacy one |
| `MachineWords.Vr64Twice` | include/virtio/virtqueue.h:92-95 | vr64 undoes itself, in a modern queue and in a legacy one |
| `MachineWords.MemoryOrder` | include/virtio/virtqueue.h:79-95 | a store of the guest puts the most significant byte of a word first |
| `MachineWords.Vr16Meets` | include/virtio/virtqueue.h:84-86 | what the guest puts through vr16 a little-endian device of a modern queue, or a big-endian one of a legacy queue, reads as it was, and the same the other way round |
| `MachineWords.Vr32Meets` | include/virtio/virtqueue.h:88-90 | the same for vr32 |
| `MachineWords.Vr64Meets` | include/virtio/virtqueue.h:92-95 | the same for vr64 |
| `Rings.SlotAfterWrapIff` | src/virtio/virtqueue.c:240-245 | cutting the running index to 16 bits leaves every ring slot where it was for exactly those queue sizes that divide 65536 |
| `Rings.RingPush` | src/virtio/virtqueue.c:240-241 | storing at the next slot of a ring that is not full overwrites no waiting entry |
| `Rings.RingPop` | src/virtio/virtqueue.c:256-261 | the slot read is the oldest waiting entry, and the rest stay readable in order |
| `VringLayout.RegionsApart` | src/virtio/virtqueue.c:35-41 | for every queue size no byte of the allocation belongs to two of the three vring regions, none of a region lies outside it, and what belongs to no region is padding of less than a page |
| `VringLayout.ProgrammedWhereUsed` | src/chip/chip_init.c:666-679 | the addresses programmed into the device are those the driver maps its pointers to: the start, 16 bytes to a descriptor behind it, and the next page boundary behind 6 + 2n more bytes; in the alignments of section 2.7 of VirtIO 1.2 |
| `VirtqueueModel.StepKeeps` | src/virtio/virtqueue.c:140-324 | every AddBuf, GetBuf or device step keeps the invariant: descriptors in exactly one place, tickets with exactly one fate, lengths as the device wrote them |
| `VirtqueueModel.RunKeeps` | src/virtio/virtqueue.c:140-324 | every state reachable by any run of driver and device steps satisfies the invariant |
| `VirtqueueModel.Separate` | src/virtio/virtqueue.c:214-235 | a descriptor of an in-flight chain occurs once in it, in no other chain and not in the free chain |
| `VirtqueueModel.FreeOnce` | src/virtio/virtqueue.c:214-235 | the free chain has no duplicate and only valid descriptors |
| `VirtqueueModel.ExactlyOnce` | src/virtio/virtqueue.c:140-324 | in any run that leaves nothing in flight the cookie of every AddBuf came back from exactly one GetBuf, with the length the device wrote for that request, and all descriptors are free |
| `VirtqueueModel.CountersDiffer` | src/virtio/virtqueue.c:240-316 | avail.idx minus last_used_idx modulo 65536 is the number of requests in flight, over any number of wraps, exactly when the bogus entries skipped are a multiple of 65536 |
| `VirtqueueModel.EmptyTest` | src/virtio/virtqueue.c:256-257 | the 16-bit comparison of GetBuf tells an empty used ring from a full one |
| `VirtqueueModel.InFlightFits` | src/virtio/virtqueue.c:144-150 | requests in flight plus free descriptors never exceed the queue size |
| `VirtqueueModel.RoomToComplete` | src/virtio/virtqueue.c:256-261 | a conforming device always has a free used slot for what it holds |
| `Virtqueue.VirtQueue.Allocate` | src/virtio/virtqueue.c:86-111 | a fresh queue represents the empty queue value: the free chain is 0 to num - 1, rings and counters are zero |
| `Virtqueue.VirtQueue.SetModern` | src/chip/chip_init.c:689 | switching an unused queue to little-endian fields keeps its meaning |
| `Virtqueue.VirtQueue.WriteChain` | src/virtio/virtqueue.c:211-233 | the loop writes the caller's entries over the first free descriptors with the right flags, links them in the queue's byte order, leaves the free head at the next free descriptor, and touches no other descriptor |
| `Virtqueue.VirtQueue.Publish` | src/virtio/virtqueue.c:240-245 | the head joins the entries waiting in the avail ring and the index advances; no waiting entry is overwritten |
| `Virtqueue.VirtQueue.AddBuf` | src/virtio/virtqueue.c:140-248 | memory moves exactly as the queue value does: -1 and no change without enough free descriptors, else one more published request |
| `Virtqueue.VirtQueue.FreeChain` | src/virtio/virtqueue.c:282-312 | the loop stops at the end of the chain and pushes its descriptors on the free chain in native byte order |
| `Virtqueue.VirtQueue.Harvest` | src/virtio/virtqueue.c:276-316 | the cookie of the oldest used entry is handed out and its descriptors are free again |
| `Virtqueue.VirtQueue.Skip` | src/virtio/virtqueue.c:266-271 | an id past the table costs one entry of the used ring and nothing else |
| `Virtqueue.VirtQueue.GetBuf` | src/virtio/virtqueue.c:250-324 | memory moves exactly as the queue value does: the oldest completed request's own cookie and written length, NULL for an empty ring, NULL and one entry skipped for an id past the table |
| `Virtqueue.VirtQueue.DeviceFetch` | src/virtio/virtqueue.c:214-245 | a device that walks the published chain, in its own byte order, reads the list given to the AddBuf with that ticket, entry by entry, readable entries before writable ones (section 2.7.13 of VirtIO 1.2) |
| `Virtqueue.VirtQueue.DeviceComplete` | src/virtio/virtqueue.c:256-261 | a completion, in any order, is what GetBuf will find in the used ring |
| `Virtqueue.VirtQueue.DeviceMisreport` | src/virtio/virtqueue.c:263-271 | an id past the descriptor count is posted without disturbing anything else |
| `Transaction.DeviceActs` | src/chip/chip_gpu_cmds.c:55-68 | whatever fetches and completions a device performs, memory follows the queue value |
| `Transaction.WaitCtrlq` | src/chip/chip_gpu_cmds.c:25-115 | whatever else is in the queue, the wait harvests one entry to a poll, returns the length that came with its cookie at the first poll that meets it, and otherwise 0 after draining up to 257 entries |
| `Transaction.QuiescentTransaction` | src/chip/chip_gpu_cmds.c:25-150 | from any quiescent queue a transaction answers exactly when a poll can see the completion, with the length the device wrote for this very request; if it does not, a completion that has come by the time of the drain is thrown away there and any other request stays in flight |
| `Transaction.PollsAnswerOwn` | src/chip/chip_gpu_cmds.c:62-68 | with requests of others in flight the polls answer only with the caller's own request and its own length |
| `Transaction.ForeignTransaction` | src/chip/chip_gpu_cmds.c:25-150 | a transaction started with requests of others left behind, if it answers, answers with the length the device wrote for this very request |
| `Transaction.StepsOver` | src/chip/chip_gpu_cmds.c:62-68 | with k entries of others ahead of it in the used ring the caller's own is harvested exactly when there are more than k polls |
| `Transaction.TransactedSubmits` | src/chip/chip_gpu_cmds.c:119-150 | whatever comes of it, a transaction whose list fits submits that list under that cookie, once; any other submits nothing |
| `Transaction.Drain` | src/chip/chip_gpu_cmds.c:96-105 | the draining loop ends, having harvested the oldest entries, at most 257 of them |
| `Transaction.DoIo` | src/chip/chip_gpu_cmds.c:119-150 | memory and result are those of AddBuf, the polls and the drain on the queue value, with nothing changed if the list does not fit |
| `Transaction.FromQuiescent` | src/chip/chip_gpu_cmds.c:119-150 | from a quiescent queue the result is the reply, which depends on the call and the queue size alone; a transaction that is answered leaves every descriptor free |
| `Transaction.ChipDoIo` | src/chip/chip_gpu_cmds.c:119-150 | on a queue of at least four entries the two-entry form gives the device the command buffer to read and then the response buffer to write, and returns what the polls see of its completion; it never fails for want of descriptors |
| `Transaction.ChipDoIo3sg` | src/chip/chip_gpu_3d.c:26-63 | the three-entry form of SUBMIT_3D gives the device header and data to read, then the response to write, and keeps the same promises |
| `Transaction.Session` | src/chip/chip_gpu_cmds.c:119-150 | a run of transactions returns exactly the replies up to the first that is missing or of length 0, so it goes through exactly when every call is replied to; every AddBuf whose list fits the queue succeeds, and each result came back under its own ticket, which carries the list of its own call |
| `Transaction.RepliesAre` | src/chip/chip_gpu_cmds.c:119-150 | results that are the replies of their calls, up to a call without one, are the replies of the run |
| `WaitProtocol.ConsistentKept` | src/chip/chip_gpu_cmds.c:34-82 | each statement of the wait, the handler or the device keeps the relation between where the waiter stands and what it owns and has published |
| `WaitProtocol.NoStraySignal` | src/chip/chip_irq.c:60-72 | in every interleaving each Signal of the handler names a bit still allocated to the waiter |
| `WaitProtocol.NoLostWakeUp` | src/chip/chip_gpu_cmds.c:37-82 | with no request left behind, a parked waiter whose completion is visible has its signal latched or the interrupt that will latch it pending |
| `WaitProtocol.LosingRunLoses` | src/chip/chip_gpu_cmds.c:62-68 | with any request left behind by an earlier timeout one concrete run parks the waiter with its completion visible and nothing pending |
| `WaitProtocol.WakeUpKeptIff` | src/chip/chip_gpu_cmds.c:37-82 | no interleaving loses a wake-up exactly when no request was left behind |
| `WaitProtocol.ParkedOutcome` | src/chip/chip_gpu_cmds.c:62-83 | in every interleaving a waiter parked with its completion in the ring harvests it exactly when a burst is left |
| `WaitProtocol.DeliveryWakes` | src/chip/chip_gpu_cmds.c:62-68 | a kept wake-up ends the Wait once it is delivered |
| `WaitProtocol.AwakeGetsThere` | src/chip/chip_gpu_cmds.c:62-83 | once awake the waiter stops polling after at most four of its own statements, whatever happens between them |
| `WaitProtocol.TimeoutCosts` | src/chip/chip_gpu_cmds.c:62-113 | on the interrupt path with nothing left behind every run that times out contains at least 49 interrupts of the other queue |
| `WaitProtocol.LastWaitIsNotRechecked` | src/chip/chip_gpu_cmds.c:62-105 | with n interrupts of the other queue and nothing left behind a wait can time out, and can throw away its own completion that woke the last Wait, exactly when n is at least 49 |
| `WaitProtocol.PollingTimeoutCosts` | src/chip/chip_gpu_cmds.c:44-113 | without a signal bit or an installed interrupt a wait gives up only after a million polls, whatever was left behind |
| `BoardModel.RoundUpCovers` | src/chip/chip_alloc.c:134-135 | the rounded size is the least multiple of 16 that covers the request, or 16 for nothing; within 15 bytes of 4 GB it is 16 and does not cover the request |
| `BoardModel.LiveBlocksApart` | src/chip/chip_alloc.c:127-206 | live blocks are 16-byte aligned, inside board memory and pairwise disjoint |
| `BoardModel.Canonical` | src/chip/chip_alloc.c:63-85 | a slot table is determined by its set of used slots |
| `BoardModel.AllocThenFree` | src/chip/chip_alloc.c:63-206 | a table from which the block just added is removed is the original table, slot by slot |
| `BoardModel.FreesCommute` | src/chip/chip_alloc.c:63-120 | the table after two frees does not depend on their order |
| `BoardModel.NothingLive` | src/chip/chip_alloc.c:79-84 | with everything freed the table is empty and the top is 0 |
| `BoardModel.HalfLive` | src/chip/chip_alloc.c:63-85 | free slots never outnumber used ones |
| `BoardModel.FullTableIsBusy` | src/chip/chip_alloc.c:177-180 | the table is full only with at least 256 live blocks |
| `BoardModel.FirstFitIsLowest` | src/chip/chip_alloc.c:144-169 | the hole taken has the lowest offset of all that fit |
| `BoardModel.OverrunIff` | src/chip/chip_alloc.c:172-183 | a request overruns board memory exactly when no hole fits, a slot is left, and top plus rounded size reaches 4 GB by no more than the size of board memory |
| `BoardModel.OverrunHappens` | src/chip/chip_alloc.c:172-183 | with 16 bytes in use of 128 MB a request 16 bytes short of 4 GB overruns |
| `BoardModel.RefusedIff` | src/chip/chip_alloc.c:136-183 | a request is refused exactly when no hole holds it, and there is no slot left or the top plus its size, cut to 32 bits, lies beyond board memory |
| `BoardModel.TableOfLive` | src/chip/chip_alloc.c:63-85 | the table can be recovered from the set of live blocks |
| `BoardModel.SmallRequestsNeverOverrun` | src/chip/chip_alloc.c:127-206 | in a run whose requests round to less than 4 GB less the size of board memory nothing overruns |
| `BoardAlloc.BoardAllocator.RecalcTop` | src/chip/chip_alloc.c:49-58 | the top is the end of the last slot, 0 for an empty table |
| `BoardAlloc.BoardAllocator.RemoveAt` | src/chip/chip_alloc.c:75-77 | the shifting loop removes one slot and keeps the order of the others |
| `BoardAlloc.BoardAllocator.MergeNext` | src/chip/chip_alloc.c:66-71 | a slot absorbs the one above it |
| `BoardAlloc.BoardAllocator.DropTrailing` | src/chip/chip_alloc.c:79-84 | trailing holes go, the used slots stay, and the table is valid again |
| `BoardAlloc.BoardAllocator.CoalesceAt` | src/chip/chip_alloc.c:63-85 | after a slot is released the table is a compact tiling with the same used slots |
| `BoardAlloc.BoardAllocator.Free` | src/chip/chip_alloc.c:95-120 | the used slot at the offset, and only that, leaves the set of live blocks; FALSE and no change when there is none |
| `BoardAlloc.BoardAllocator.OpenAt` | src/chip/chip_alloc.c:153-155 | the shifting loop makes room for one slot and keeps the order of the others |
| `BoardAlloc.BoardAllocator.TakeHole` | src/chip/chip_alloc.c:148-164 | the live blocks gain the front of the hole, or the whole hole when no slot is left for its rest |
| `BoardAlloc.BoardAllocator.Alloc` | src/chip/chip_alloc.c:127-206 | the front of the lowest hole that fits, else growth at the top, else failure with the table unchanged, which takes that no hole fits and that slots or memory at the top are used up; the table stays valid exactly when growth does not overrun board memory by a 32-bit wrap |
| `BoardAlloc.AllocThenFreeRestores` | src/chip/chip_alloc.c:63-206 | an allocation followed by the free of its result restores table and top exactly; it fails exactly when there is no room |
| `BoardAlloc.Perform` | src/chip/chip_alloc.c:95-206 | one call answers, and changes the set of live blocks, as first fit, growth, failure or release prescribe for that set |
| `BoardAlloc.Play` | src/chip/chip_alloc.c:49-206 | any sequence of calls gives the answers and leaves the live blocks of the calls one after the other, and each request is refused exactly when there was no room for it; the table is again a compact tiling exactly when no call overruns |
| `Blit.RopByteBits` | src/chip/chip_blit.c:664-686 | bit by bit, a raster operation gives bit 2S + D of the 4-bit code |
| `Blit.CodeByteIff` | src/chip/chip_blit.c:740-790 | what the code computes per byte is the raster operation for exactly the codes 0, 5, 6, 12 and 15, and a copy of the source for every other |
| `Blit.MoveRow` | src/chip/chip_blit.c:621-633 | a row is moved as if all its bytes were read first, whatever the overlap, on the word path and the byte path |
| `Blit.MoveWords` | src/chip/chip_blit.c:51-59 | the long-word move in the direction chosen reads no word it has already written |
| `Blit.OperateRow` | src/chip/chip_blit.c:97-159 | a fill or xor row, words then tail bytes, applies the operation to the initial bytes where it reads nothing it has written, and otherwise runs on from byte to byte |
| `Blit.CopyRect` | src/chip/chip_blit.c:79-91 | rows copied from the top down give the simultaneous copy when no row is read after it is written |
| `Blit.CopyRectUpwards` | src/chip/chip_blit.c:618-633 | rows moved from the bottom up give the simultaneous copy for a destination below its source |
| `Blit.CopyRectSameRows` | src/chip/chip_blit.c:634-648 | rows moved within one line each give the simultaneous copy |
| `Blit.OperateRect` | src/chip/chip_blit.c:110-159 | fill and xor rectangles apply the operation to the initial source and destination bytes |
| `Blit.BlitRect` | src/chip/chip_blit.c:590-659 | for every overlap in one bitmap, byte k of line dy + r of the destination gets the initial byte k of line y + r of the source, by base address and bytes per row, and every other byte of memory is unchanged |
| `Blit.OperateWords` | src/chip/chip_blit.c:97-159 | the long-word part of a row is four byte operations to a word, also where an xor reads what it wrote |
| `Blit.BlitRectNoMaskComplete` | src/chip/chip_blit.c:687-807 | in both opcode encodings each destination byte, by base, stride and pixel size of its bitmap, gets the operation applied to the initial bytes, and nothing else changes; an xor onto a later part of its own bitmap gives each byte its initial value xor its source byte as that is in the end |
| `XorOverlap.RunningIsAppliedIff` | src/chip/chip_blit.c:125-142 | such an xor is the simultaneous one exactly when no source byte has changed in the end |
| `XorOverlap.XorRightIff` | src/chip/chip_blit.c:125-142 | such an xor is right for all memory exactly when source and destination share no byte |
| `Line.MinorIsHalfPixel` | src/chip/chip_blit.c:481-489 | one number of minor steps leaves pixel i within half a pixel of the ideal line, and it is the rounded quotient |
| `Line.LineReachesEnd` | src/chip/chip_blit.c:481-489 | after lDelta pixels the line has gone sDelta aside |
| `Line.OnSegment` | src/chip/chip_blit.c:453-494 | with the deltas of a segment the line starts at its first end and reaches (x + dX, y + dY) after lDelta pixels, whatever the signs; every pixel lies between the ends and within half a pixel of the segment |
| `Line.PatternSpelt` | src/chip/chip_blit.c:464-465 | with no shift the first sixteen pixels, drawn or not, are the pattern read from its highest bit |
| `Line.PatternRepeats` | src/chip/chip_blit.c:464-465 | a shift starts the pattern as many pixels further on, and it repeats every sixteen |
| `Line.DrawModes` | src/chip/chip_blit.c:467-487 | JAM1 draws with the pen and lets gaps be, JAM2 fills gaps with the background pen, COMPLEMENT inverts what is under drawn pixels |
| `Line.ErrorStep` | src/chip/chip_blit.c:481-489 | the error stays in (2 sDelta - 2 lDelta, 2 sDelta], and a step takes it to the error of the next pixel |
| `Line.Plot` | src/chip/chip_blit.c:458-479 | the pixel at base, stride and pixel size gets the store that pattern and draw mode call for; no other byte changes |
| `Line.PixelsApart` | src/chip/chip_blit.c:463-466 | different pixels of a bitmap share no byte |
| `Line.LineJoins` | src/chip/chip_blit.c:458-479 | the store of one more pixel leaves every earlier pixel of the line as drawn |
| `Line.Advance` | src/chip/chip_blit.c:481-489 | the WORD arithmetic reaches the next pixel of the ideal line without wrapping |
| `Line.DrawLine` | src/chip/chip_blit.c:434-507 | exactly the pixels of the ideal line, rounded, receive their effect in memory, no other byte changes, and the flushed box is the smallest that holds them and the point after the last; the line of a segment meets both its ends |
| `Fill.PenLoads` | src/chip/chip_blit.c:549-561 | a pixel of one byte is the low byte of the colour, a wider one, loaded as a big-endian word, its low half or all of it |
| `Fill.PenShows32` | src/chip/chip_flush.c:200-262 | the colour shown for a 32-bit pen is that of its bytes, highest first, as the format's name lists them |
| `Fill.PenShows16` | src/chip/chip_flush.c:161-199 | the same for the bit fields of a 16-bit pen, widened to 8 bits |
| `Fill.FillBytes` | src/chip/chip_blit.c:97-108 | a row of 8-bit pixels is painted by words and tail bytes, and no other byte changes |
| `Fill.FillPixels` | src/chip/chip_blit.c:549-561 | a row of 16- or 32-bit pixels is painted, and no other byte changes |
| `Fill.FillRect` | src/chip/chip_blit.c:515-577 | every pixel of the rectangle holds the pen, by base, stride and pixel size, and no byte outside it has changed |
| `Fill.PaintedPixel` | src/chip/chip_blit.c:544-561 | after a fill each pixel of the bitmap holds the pen inside the rectangle and its old value outside |
| `Fill.FillThenFlush` | src/chip/chip_flush.c:494-533 | a fill followed by a flush shows the pen's colour on exactly the visible part of the rectangle and the old pixels elsewhere |
| `Flush.ConvShows` | src/chip/chip_flush.c:154-262 | every row converter shows the colour its source pixel stands for in the byte layout of its format |
| `Flush.LookAlikeIff` | src/chip/chip_flush.c:161-262 | two pixels of a direct-colour format look alike exactly when they differ in alpha or unused bits only |
| `Flush.ClampPanInside` | src/chip/chip_flush.c:352-369 | the clamped pan offset keeps the view inside the limit if that can be, and no offset that does is nearer to the one asked for; it is 0 if none does |
| `Flush.PixelSizes` | src/chip/chip_flush.c:264-282 | bytes to a pixel by format, and that exactly the 24-bit and the little-endian formats have no converter |
| `Flush.Screen.VisiblePart` | src/chip/chip_flush.c:335-369 | a flush shows what mode and resource both have, of the panned bitmap or of board memory, from the panning offset or the nearest one inside |
| `Flush.Screen.ConvRow` | src/chip/chip_flush.c:154-262 | a row conversion writes the converted pixels of one row and no other word |
| `Flush.Screen.ConvertRect` | src/chip/chip_flush.c:297-381 | the clipped rectangle of the framebuffer holds the conversion of the panned pixels, every other word is unchanged, and an unsupported format changes nothing |
| `Flush.Screen.FlushAll` | src/chip/chip_flush.c:474-533 | after both commands have reached the host the display shows, at every visible place, the colour of the panned pixel of guest memory, and nothing else on it has changed |
| `ResizeFb.ByteSizeIff` | src/chip/chip_init.c:229-230 | the 32-bit size covers the picture exactly when it does not wrap, and is then height times 4 times width |
| `ResizeFb.NextIdIsFirstFree` | include/chip/chip_state.h:531-540 | the next id is used by neither framebuffer nor the cursor, it is at most three behind the counter, also where that wraps, and every id before it is used |
| `ResizeFb.Display.AllocResourceId` | include/chip/chip_state.h:531-540 | the id is that first free one, after at most four tries, and the counter stands behind it |
| `ResizeFb.Display.SetScanout` | src/chip/chip_gpu_cmds.c:323-390 | one accepted attempt of three moves scanout 0; three refusals leave it |
| `ResizeFb.Display.NewResource` | src/chip/chip_init.c:262-285 | a refusal at any of the three commands leaves the host exactly as it was; success leaves one more resource, shown on scanout 0 |
| `ResizeFb.Display.FailDma` | src/chip/chip_init.c:317-321 | everything acquired for the new framebuffer is given back |
| `ResizeFb.Display.TakeOver` | src/chip/chip_init.c:287-311 | the old resource, list, mapping and block are released and nothing else is |
| `ResizeFb.Display.ResizeFbToMode` | src/chip/chip_init.c:220-322 | all or nothing at every point of failure; the new bundle has the width, height, stride, size, block, list and id asked for; a change of size succeeds exactly when every call answers and the next free id is not 0 and not known to the host; afterwards scanout 0 shows a live resource backed by the mapped framebuffer block |
| `ResizeFb.KnownIdRefused` | src/chip/chip_init.c:262-272 | there is a state in which every call answers and the resize fails, because the host knows the next id |
| `ResizeFb.ShownResource` | src/chip/chip_init.c:262-285 | scanout 0 shows a resource of the size of the driver's bundle, backed by its block as far as 254 entries of the DMA list reach |
| `ResizeFb.NewBundleLive` | src/chip/chip_init.c:287-311 | the new bundle alone replaces the old one in memory, mappings, lists, host resources and scanout |
| `ResizeFb.ReplacedKeepsRest` | src/chip/chip_init.c:287-311 | apart from the bundle itself a successful resize leaves memory, mappings, lists and host resources as they were |
| `ResizeFb.ChangeMode` | src/chip/chip_init.c:220-322 | one change of a run moves the state as prescribed and releases or keeps everything else |
| `ResizeFb.ShownIsLast` | src/chip/chip_init.c:295-304 | the size shown after a run is that of its last successful change |
| `ResizeFb.RunShows` | src/chip/chip_init.c:220-322 | size and block of the driver after a run are those of its last successful change of size |
| `ResizeFb.ChangeModes` | src/chip/chip_init.c:220-322 | over any run of mode changes, failing where they may, state and results are those of the changes one after the other; scanout 0 shows a live resource backed by the mapped framebuffer block, exactly one bundle is live and nothing leaks |
| `Edid.DistinctMeans` | src/chip/chip_gpu_cmds.c:507-524 | what is kept are the non-zero timings of the scan, each once |
| `Edid.DistinctInOrder` | src/chip/chip_gpu_cmds.c:507-524 | what is kept is in order of first occurrence |
| `Edid.TimingIff` | src/chip/chip_gpu_cmds.c:526-563 | a timing is scanned exactly if a base descriptor with a clock gives it, byte by byte, or one of a counted, complete CEA-861 extension with a clock there and in all descriptors before it |
| `Edid.ScanOrder` | src/chip/chip_gpu_cmds.c:526-563 | the scan goes through the blob upwards: base block first, then the extensions, each from its lowest descriptor on |
| `Edid.ParsedList` | src/chip/chip_gpu_cmds.c:498-564 | adding timings one by one with ADD_DTD gives the first 16 or fewer distinct non-zero ones in scan order |
| `Edid.DtdList.AddDtd` | src/chip/chip_gpu_cmds.c:507-524 | a timing joins the list unless it is zero, a duplicate, or the list is full |
| `Edid.DtdList.ParseBase` | src/chip/chip_gpu_cmds.c:526-537 | the base block contributes the timings of its four descriptors, as far as the blob reaches |
| `Edid.DtdList.ParseBlock` | src/chip/chip_gpu_cmds.c:552-561 | an extension contributes its timings up to the first descriptor without a clock |
| `Edid.DtdList.ParseExtension` | src/chip/chip_gpu_cmds.c:549-561 | only a CEA-861 block with a descriptor offset of 4 to 125 contributes |
| `Edid.DtdList.ParseExtensions` | src/chip/chip_gpu_cmds.c:539-563 | extensions contribute in order, as many as the base block counts and the blob holds |
| `Edid.DtdList.Parse` | src/chip/chip_gpu_cmds.c:498-568 | for any blob the list is the first 16 or fewer distinct non-zero timings in scan order, the first of them the native mode, and every read is inside the blob |
| `VirglCodec.UnpackPacked` | src/chip/chip_virgl.c:70-76 | bytes packed four to a word unpack to the same bytes, zero-padded to whole words |
| `VirglCodec.HeaderFields` | include/virgl/virgl_cmd.h:347-348 | command, object and length can be read back from a header; the length exactly when it fits 16 bits |
| `VirglCodec.WalkFrames` | include/virgl/virgl_cmd.h:344-348 | walking the header lengths recovers any sequence of frames |
| `VirglCodec.ParseBack` | src/chip/chip_virgl.c:85-487 | the frame of each encoder call parses back, by a decoder that knows commands and objects by their protocol numbers, to that call, up to fields cut to their width |
| `VirglCodec.SeenIff` | src/chip/chip_virgl.c:348-487 | nothing of a call is lost exactly when its packed fields fit and inline data is whole words |
| `VirglCodec.DecodeEncoded` | src/chip/chip_virgl.c:85-704 | any sequence of encoder calls with payloads under 65536 words decodes to that sequence |
| `VirglCodec.DecodeCutIff` | include/virgl/virgl_cmd.h:355-359 | the first k words of a stream decode to the whole sequence exactly when they are the whole stream |
| `VirglBuffer.VirglCmdBuf.constructor` | src/chip/chip_virgl.c:19-24 | an initialised buffer is empty |
| `VirglBuffer.VirglCmdBuf.Reset` | src/chip/chip_virgl.c:26-29 | a reset buffer is empty |
| `VirglBuffer.VirglCmdBuf.EmitDword` | include/virgl/virgl_cmd.h:355-359 | the host reads the word asked for if it fits; a word past the end is dropped and the index stays within the capacity |
| `VirglBuffer.VirglCmdBuf.PackWord` | src/chip/chip_virgl.c:70-76 | the word is the little-endian value of up to four bytes |
| `VirglBuffer.VirglCmdBuf.EmitBytes` | src/chip/chip_virgl.c:436-445 | the packing loop emits the bytes four to a word, in order |
| `VirglBuffer.VirglCmdBuf.HostReadsSent` | include/virgl/virgl_cmd.h:335-359 | what the host reads is what was asked for, as far as it fits |
| `VirglBuffer.VirglCmdBuf.Issue` | src/chip/chip_virgl.c:85-704 | each of the 23 encoders, called with the arguments of a command, appends exactly the words that the decoder reads back as that command |
| `VirglBuffer.VirglCmdBuf.Play` | src/chip/chip_virgl.c:85-704 | after any sequence of encoder calls the host decodes that sequence exactly when every word fitted; the write index never passes the capacity |
| `StripUpload.Gpu.Submit3D` | src/chip/chip_gpu_3d.c:455-511 | a stream of 1 word to 64 KB is copied and carried out as the host answers; any other is refused without a transaction |
| `StripUpload.Gpu.Submit` | src/chip/chip_virgl.c:33-53 | an empty buffer succeeds, a poisoned context sends nothing, a failure poisons the context, and the buffer is empty afterwards |
| `StripUpload.PackUnpacked` | src/chip/chip_composite.c:246-252 | pixels emitted as words are the packed bytes of an inline write |
| `StripUpload.EmitRow` | src/chip/chip_composite.c:249-251 | a row of pixels is emitted in order |
| `StripUpload.EmitPixels` | src/chip/chip_composite.c:244-252 | the rows of a strip are emitted in order, stepping by the row stride |
| `StripUpload.EmitStrip` | src/chip/chip_composite.c:223-252 | the words of a strip are one inline write of its rows to its box |
| `StripUpload.StripDrawn` | src/chip/chip_composite.c:223-252 | that inline write puts each pixel of the strip on its texel and changes no other texel of any resource |
| `StripUpload.StripFitsIff` | src/chip/chip_composite.c:196-204 | no word of a full strip is dropped exactly when the width is at most 15988; such a strip fits one submission |
| `StripUpload.StripsCount` | src/chip/chip_composite.c:196-217 | the upload takes as many submissions as strips of 15000 / width rows, at least one row each, make up the height |
| `StripUpload.SendStrip` | src/chip/chip_composite.c:219-260 | a strip succeeds exactly when the context is sound and the host answers; its rows are on the host unless it was refused |
| `StripUpload.UploadPixels` | src/chip/chip_composite.c:174-264 | on success every texel of the box is the big-endian word at its column and row of guest memory and no other texel has changed; on failure some first rows are there; it succeeds exactly when the buffer is there and each of its submissions, as many as 15000 pixels to a strip make, is answered, and it always ends |

## Left out

- Transaction.ChipDoIo: says when the transaction is answered and what it then returns; the response type read from the buffer (`chip_gpu_send`) and the zeroing of the buffers are not modelled.
- Blit.BlitRectNoMaskComplete: leaves out a copy to the left along its own lines that overlaps its source, where CopyMem is not known to go upwards: the code hands it to that foreign call.
- Blit.OperateRow: a 32-bit xor or store is modelled as the four byte operations it covers.
- Fill.FillRect: the 24-bit formats, for which the code stores four bytes at a different pitch, are not modelled.
- Line.DrawLine: the 24-bit formats, for which the code stores four bytes to a three-byte pixel, are not modelled.
- Flush.Screen.ConvertRect: a corner beyond the visible area is excluded; the code's subtraction would wrap there, and both its callers pass the corner (0, 0).
- BoardAlloc.Play: does not follow the table that an overrun leaves behind; a run may end with one.
- StripUpload.UploadPixels: widths above 15988 are not claimed for; `StripFitsIff` shows that their words are dropped.
- StripUpload.Gpu.Submit3D: the stream is copied word by word where the code copies bytes, and the outcome of the transaction is a parameter.
- Flush.Screen.FlushAll: only the single-buffer path with the 2D transfer; the two commands are steps of the host's state, their words and replies are not modelled.
- ResizeFb.Display.ResizeFbToMode: the address map of a block, cache attributes, the contents of the DMA list and the words of the commands are not modelled.
- WaitProtocol.NoLostWakeUp: the handler's read of task and mask is one step; a handler running beside the waiter on another processor is not modelled.
- Indirect descriptors and the event index of the virtqueue: never enabled (`src/chip/chip_init.c:690-697`).
- Allocation failures inside VirtQueue_Allocate, and VirtQueue_Free.
- A second request of the same caller while one of its own is left behind: the cookie cannot tell them apart.
- Double-buffer swapping, the Virgl 2D path and its recovery: switched off in this build.
- BlitTemplate, BlitPattern, the planar conversions and InvertRect: further loops of the same kind.
- The cursor queue, cursor images and WaitVerticalSync.
- PCI and BAR scanning, MMIO, memory barriers, MMU attributes and library glue.
- Logging, statistics and profiling: no effect on the properties.
- GPU compositing other than the upload: vertex data in floating point.
