# Omni-RISC APU firmware: a verified model

This project models the hand-written firmware layer of the Omni-RISC APU and the independent reference models that check it, and proves what they promise:

- **Heap** (`Heap*.dfy`): the first-fit allocator whose headers live in a byte arena. A class owns the byte array and rewrites headers in place; a ghost list of blocks says which sequence of blocks the bytes are an image of. Clients see a map from payload addresses to payload bytes. The main results hold over every run of `malloc`/`free`/`calloc`/`realloc` interleaved with client stores.
- **Framed link** (`CrcBits.dfy`, `Crc.dfy`, `Frame*.dfy`): the CRC as a linear and injective map on 16 bits, the byte-stuffed wire format, the firmware receiver as a class with a fixed body buffer and counters, what it makes of any bytes at all, the frames it sends, the receiver on top of the receive ring, and the host's own receiver model with its wider arithmetic and different guard.
- **Conversions** (`ConvSpec.dfy`, `Conv.dfy`, `Numerals.dfy`, `NumeralLaws.dfy`): `strtoul` and `strtol` in 32-bit arithmetic and the unbounded host reference, both against one grammar of subject sequences; `itoa` and `utoa_hex` with their in-place reversal, and the one string each may write.
- **Formatter** (`Printf*.dfy`): the printf engine over a counting sink, its truncation contract, the round trips through the conversions, and the meaning of every format: the one text each conversion must print, and the pieces every format is made of.
- **Serial wire** (`Wire*.dfy`): the console harness's bit-level decoder and driver, cycle by cycle: what the one decodes, the waveform of the other, and the two wired together.
- **Software timers** (`Tick.dfy`, `TickLaws.dfy`, `TickRuns.dfy`, `TickLimits.dfy`, `TickCancel.dfy`): the eight-slot dispatcher on 32-bit time against true, unbounded time, for every period, with callbacks that add and cancel timers while it runs.
- **Receive ring** (`Ring*.dfy`): the 256-byte ring, its pump and its readers as a bounded queue, and the true time at which a line read ends.
- **Multiply and divide** (`MExt.dfy`): the interpreter's M arm and the two testbench golden models.

`Words.dfy` and `Seqs.dfy` hold bytes, 32-bit words and the laws of concatenation. A method that runs like the source is proved equal to a specification function (`MallocF`, `Feed`, `StrTo`, `Render`, `DecTick`, `Isr`, `Collect`, ...); the lemmas then say what those functions guarantee. `dafny verify dfyconfig.toml` checks everything.

## How the source is read

- Addresses are offsets from the start of the arena; the arena size is a parameter, any multiple of 8 from 16 to 2^32 - 16 (the source fixes 4096). `Null` is a constructor of its own.
- Counters, sizes and timer words are 32-bit and wrap where the source's do; `itoa`'s `-v` for the most negative value wraps in two's complement.
- The hardware is a parameter: bytes handed to the transmitter are appended to a sequence, bytes received come from one, and every clock reading is an argument. A status reading of the receiver is a value that says whether a byte is ready, which one, and whether the overrun flag shows.
- A line read that waits runs over a given list of passes and reports that it is still waiting when they run out, which is how a call with no timeout and no input appears.
- The formatter's preconditions are the C library's - a format does not end inside a conversion, arguments have the type their conversion reads, widths and precisions fit an `int`, the whole text is at most `INT_MAX` characters long - and one of this engine's own: a numeric precision is at most 24, the size of a field's body array, which the C library does not ask for (`firmware/lib/omni_printf.c:87-100`). `PrintfLaws.BodyFitsIff` shows that this is exactly when its stores stay inside the array.

## Findings

- `heap_check` walks with a 32-bit offset that can wrap and checks no header against the end of the arena. It accepts bytes that are no sequence of blocks (`HeapCheck.WrappedWalkAccepts`) and does not return on others (`HeapCheck.LoopingWalkNeverEnds`). `HeapCheck.WalkDecidesCoherence` gives the exact condition for all arenas: it accepts without an offset wrapping if and only if the arena is coherent. On every arena the allocator keeps it returns 1.
- `malloc` computes `align_up(8 + n)` unchecked. `HeapLimits.RequestLimit` gives the exact boundary for every well-formed heap in which a block is found: the arena stays coherent and the block can hold the request if and only if `n + 15` does not overflow 32 bits; `HeapLimits.WrappedRequestBreaksHeap` names a request that breaks it.
- `realloc` shares the computation. A live block and a wrapped request always take the in-place path (`HeapLimits.ReallocLimit`). If the computed size is 0 the block's own header is overwritten with size 0 and the coalescing loop never ends; if it is 8 the block is cut to an empty payload, or a 16-byte block is left as it is, and either way returned as if it held the request. The path ends, leaves a coherent arena and serves the request if and only if `n + 15` does not overflow.
- `firmware/net/frame.h:9-10` says that any flag starts a new frame. In the code a flag does so if and only if no escape is pending (`FrameResync.FlagOpensIff`; `firmware/net/frame.c:155-160`). In every reachable state the next frame gets through if and only if no escape is pending, or the bytes half collected, the escaped flag and the new body happen to begin with that very body (`FrameResync.FrameArrivesIff`); such a coincidence can be reached from reset (`FrameResync.EscapeMayDeliver`). The frame after it always arrives (`FrameResync.Resynchronises`).
- `firmware/net/frame.h:4-5` says that a corrupted frame can never be executed. The receiver takes the extent of a body, and so the place of its check bytes, from the length byte it receives: a genuine frame with a single bit of that byte flipped can be delivered as another message (`FrameJudge.FlippedBitDelivers`). `FrameJudge.DeliveredIff` gives the exact condition for all bytes between two flags: something is delivered if and only if they reach the extent their own length byte declares, of at most 32 payload bytes, and the check bytes there are right.
- The two receivers' over-length guards differ (`firmware/net/frame.c:177`, `tests/gen_frame_session.py:130`); neither is ever reached (`FrameRuns.GuardUnreachable`).
- In a message of unchanged extent the CRC rejects more than any change of two adjacent bytes: any change confined to 16 adjacent bits (`Crc.BurstRejected`). In a frame that covers every such change after the length byte (`FrameLaws.CorruptionNeverDelivered`).
- The wire decoder tolerates bit times of 413 to 461 cycles, and no others, when every sequence of idle gaps must work (`WireLaws.ToleranceExact`). Above 458 cycles a low last data bit is taken for a start edge, and the check half a bit later rejects it.
- The driver leaves the line high for 869 cycles between a stop bit and the next start bit: the cycle that ends the stop bit, and the gap of 868 (`WireDriver.ByteSent`).
- A periodic timer is dispatched at most once per interrupt. For periods of less than 2^31 cycles (42.9 seconds) its count is right after every interrupt if and only if no interrupt skips a period; `TickRuns.SkippedPeriod` is a run in which one does, and `TickRuns.CountIsFired` gives the count of a timer that has fallen behind.
- `timer_add` takes longer periods too, and keeps their deadlines on 32 bits. For every period but zero, the counts are right on all orderly runs if and only if the period is less than 2^31 cycles (`TickLimits.PeriodicExactIff`), and so are the firings of a one-shot (`TickLimits.OneShotExactIff`). A longer one is met before its end (`TickLimits.EarlyIff`), 45 seconds at once and 100 seconds after 14.1 (`TickLimits.FortyFiveSeconds`, `TickLimits.HundredSeconds`).
- The microsecond reading is not monotone: `TickLaws.ReadingStep` says exactly when it steps back, and `TickLaws.LateReadingStepsBack` is an interrupt at which it does.

## Model

| member | source | states |
|---|---|---|
| HeapBlocks.LivesSeparated | firmware/include/omni/alloc.h:19-20 | In any list of legal blocks every live payload is 8-aligned, in bounds, and at least a header away from every other. |
| HeapBlocks.CoalesceTidy | firmware/lib/omni_alloc.c:34-49 | One forward pass is enough: whatever the block list, no two free neighbours remain. |
| HeapBlocks.CoalesceSizes | firmware/lib/omni_alloc.c:37-49 | Merging keeps sizes aligned and at least the minimum, and the total extent unchanged. |
| HeapBlocks.CoalesceLives | firmware/lib/omni_alloc.c:37-49 | Merging changes neither the address nor the contents of any live block. |
| HeapBlocks.SplitImage | firmware/lib/omni_alloc.c:64-69 | The three header stores of a split turn the byte image of the block list into the image of the list with that block carved in two. |
| HeapBlocks.MergeAtImage | firmware/lib/omni_alloc.c:43-46 | Storing the summed size in the left header turns the image into that of the list with the two blocks merged. |
| HeapSpec.NeedExact | firmware/lib/omni_alloc.c:22 | The 32-bit rounding is n rounded up to 8 plus a header exactly when n + 15 does not overflow, and 0 or 8 otherwise, with the range of n that gives 0. |
| HeapSpec.OverflowTest | firmware/lib/omni_alloc.c:110-111 | calloc's division test passes if and only if the product does not overflow 32 bits. |
| HeapSpec.SmallArenaFits | firmware/lib/omni_alloc.c:109-112 | In arenas of up to 65528 bytes no product calloc computes overflows, there or in malloc. |
| HeapLaws.MallocLaw | firmware/lib/omni_alloc.c:51-74 | A granted request adds one fresh block, 0 or 8 bytes larger than the rounded request, and leaves every other block alone; a refused one changes nothing; the list stays well formed. |
| HeapLaws.MallocSucceedsIff | firmware/lib/omni_alloc.c:51-74 | malloc succeeds if and only if the rounded request is at most the largest free payload, and then takes the lowest-addressed free block that fits. |
| HeapLaws.LargestFreeIsMax | firmware/lib/omni_alloc.c:178-187 | The largest-free figure is an upper bound of all free payloads and is attained. |
| HeapLaws.LiveIndexIsKey | firmware/lib/omni_alloc.c:78-90 | A pointer is accepted if and only if it is the start of a live payload, and then the right block is found. |
| HeapLaws.FreeLaw | firmware/lib/omni_alloc.c:92-101 | Freeing a live block removes exactly it; a double free or a wild pointer adds one error and changes nothing; null does nothing. |
| HeapLaws.FreeUndoesMalloc | firmware/lib/omni_alloc.c:51-101 | free right after malloc restores the client's memory and every block, live or free, of the same size in the same place, without an error. |
| HeapLaws.CallocLaw | firmware/lib/omni_alloc.c:103-116 | calloc hands out the block malloc would for the product, its first n * size bytes zero, if and only if the product is not zero, fits 32 bits and fits the largest free payload; otherwise it changes nothing. |
| HeapLaws.ShrinkLaw | firmware/lib/omni_alloc.c:131-140 | Shrinking keeps the address and the front of the contents, and every other block. |
| HeapLaws.GrowInPlaceLaw | firmware/lib/omni_alloc.c:142-156 | Absorbing a free right neighbour keeps the address and all old contents, and every other block. |
| HeapLaws.MoveLaw | firmware/lib/omni_alloc.c:157-165 | Moving gives a new address not in use, a payload that starts with the old contents, and every other block unchanged. |
| HeapLaws.ReallocLaw | firmware/lib/omni_alloc.c:118-166 | Over all its paths realloc of a live block keeps the first min(old, n) bytes in a payload 0 or 8 bytes larger than the rounded request, touches no other live block, and on failure leaves everything as it was. |
| HeapLaws.ReallocPicks | firmware/lib/omni_alloc.c:129-160 | realloc of a live block keeps its address if and only if there is room in it, or in it and a free right neighbour; otherwise it hands out the block malloc would. |
| HeapLaws.ReallocFailsIff | firmware/lib/omni_alloc.c:129-160 | realloc on a live block returns null if and only if the block, the block with a free right neighbour, and the largest free block are all too small. |
| HeapLaws.ReallocNull | firmware/lib/omni_alloc.c:123 | realloc of a null pointer is malloc: it succeeds if and only if n is positive and fits the largest free payload, at the lowest block that fits. |
| HeapLaws.ReallocEdges | firmware/lib/omni_alloc.c:124-127 | realloc of a pointer that is no live payload returns null, changes no block and counts one error, also for size zero; of a live one with size zero it frees it. |
| HeapCheck.WalkDecidesCoherence | firmware/lib/omni_alloc.c:202-216 | For every byte arena: the 32-bit walk accepts and no offset wraps if and only if the bytes are the image of legal blocks that fill the arena exactly with no two free neighbours; where no offset wraps it returns. |
| HeapCheck.WrappedWalkAccepts | firmware/lib/omni_alloc.c:205-215 | Three headers on any 4096-byte arena that the walk accepts although they are no sequence of blocks. |
| HeapCheck.LoopingWalkNeverEnds | firmware/lib/omni_alloc.c:208-214 | Two headers on which the walk never returns. |
| HeapLimits.RequestLimit | firmware/lib/omni_alloc.c:56-72 | For every request for which a block is found: coherence afterwards, and room for the request, hold if and only if the size computation does not wrap. |
| HeapLimits.WrappedRequestBreaksHeap | firmware/lib/omni_alloc.c:56-72 | A concrete request on a fresh 4096-byte heap that is granted and leaves an arena the check rejects. |
| HeapLimits.CoalesceRunMerges | firmware/lib/omni_alloc.c:37-49 | Over the bytes of any aligned block list the coalescing loop ends, with the bytes of the merged list. |
| HeapLimits.InPlaceResult | firmware/lib/omni_alloc.c:131-140 | When the computed size is at least a header, realloc's in-place path ends in the bytes of a coherent block list, with the size computed, or the old one, in the block's header. |
| HeapLimits.ZeroNeverEnds | firmware/lib/omni_alloc.c:131-138 | When the computed size is zero, the coalescing loop that follows never ends, on the bytes the three header stores leave. |
| HeapLimits.ReallocLimit | firmware/lib/omni_alloc.c:129-140 | A wrapped request always takes the in-place path; that path ends, leaves a coherent arena and a block that can hold the request if and only if the request does not wrap. |
| Heap.Heap.HeapInit | firmware/lib/omni_alloc.c:24-30 | Whatever the arena held, it becomes one free block over the same bytes, with no errors. |
| Heap.Heap.FirstFit | firmware/lib/omni_alloc.c:60-73 | The walk over the headers stops at the first free block that is large enough, or at the end. |
| Heap.Heap.Take | firmware/lib/omni_alloc.c:62-71 | The header stores of a grant, byte for byte, whether or not the size wrapped. |
| Heap.Heap.Malloc | firmware/lib/omni_alloc.c:51-74 | The in-place method equals its specification for requests that fit, and gives the exact bytes and result for those that wrap. |
| Heap.Heap.CoalesceAll | firmware/lib/omni_alloc.c:37-49 | The header-rewriting loop equals merging every run of free blocks, and restores the invariant. |
| Heap.Heap.FindBlock | firmware/lib/omni_alloc.c:78-90 | The walk finds a header exactly when its argument is the start of a live payload. |
| Heap.Heap.Free | firmware/lib/omni_alloc.c:92-101 | The in-place method equals its specification, errors included. |
| Heap.Heap.Calloc | firmware/lib/omni_alloc.c:103-116 | The guards, the overflow test, the allocation and the zeroing loop equal the specification. |
| Heap.Heap.Realloc | firmware/lib/omni_alloc.c:118-166 | For every call that returns: the in-place method, all paths, equals its specification when the request fits, and its result, counter and bytes are given when the size wraps. |
| Heap.Heap.FreeBytesNow | firmware/lib/omni_alloc.c:168-176 | The walk sums the payloads of the free blocks. |
| Heap.Heap.LargestFreeNow | firmware/lib/omni_alloc.c:178-187 | The walk finds the largest free payload. |
| Heap.Heap.CountBlocks | firmware/lib/omni_alloc.c:189-197 | The walk counts every block once. |
| Heap.Heap.Check | firmware/lib/omni_alloc.c:202-216 | On any bytes on which the walk ends, the method's answer is that of the 32-bit walk, and it is true without an offset wrapping if and only if the arena is coherent. |
| Heap.Heap.CheckPasses | firmware/lib/omni_alloc.c:202-216 | On every arena the allocator maintains, the check returns true. |
| HeapRuns.StepLaw | firmware/lib/omni_alloc.c:51-166 | Every call or client store keeps the heap sound and does only what the memory model allows, payloads no more than 8 bytes over the rounded request. |
| HeapRuns.EveryRunFromInit | firmware/lib/omni_alloc.c:24-216 | After init, every run ends in bytes the check accepts, with live blocks aligned, in bounds and disjoint, every step allowed. |
| HeapRuns.ErrorsAreWildCalls | firmware/lib/omni_alloc.c:92-127 | Over any run the error counter moves on by the number of frees and reallocs of a non-null pointer that is no live payload then. |
| HeapRuns.Soak | firmware/apps/alloc_test.c:153-200 | Running the check after every operation of any run never fails, on the real arena. |
| HeapRuns.SpaceIsConserved | firmware/lib/omni_alloc.c:168-197 | Free payload, a header per free block and the live blocks always make up the arena. |
| HeapRuns.EmptyHeapIsOneBlock | firmware/lib/omni_alloc.c:37-49 | With nothing live, exactly one block is left, with the whole payload. |
| HeapRuns.FreeEverything | firmware/lib/omni_alloc.c:92-101 | Freeing all live blocks in any order gives back one block covering the arena and no error. |
| CrcBits.ShiftLinear | firmware/net/frame.c:24-26 | One step of the register is linear over exclusive or. |
| CrcBits.ShiftInjective | firmware/net/frame.c:24-26 | One step loses no information. |
| Crc.CrcAppend | firmware/net/frame.c:77-89 | Continuing the register over a second buffer is the register over the concatenation. |
| Crc.CrcInjective | firmware/net/frame.c:19-29 | A difference in the register survives any further bytes. |
| Crc.AcceptsIffZero | firmware/net/frame.c:123-126 | The comparison with the two check bytes passes if and only if the register over everything comes back to zero. |
| Crc.BurstRejected | firmware/net/frame.c:122-132 | No accepted message is still accepted, at the same extent, after any change confined to 16 adjacent bits. |
| Crc.CheckValue | firmware/net/frame.h:13-14 | The published check value of CRC-16/CCITT-FALSE. |
| FrameLink.CrcOver | firmware/net/frame.c:19-29 | The bit loop over a buffer computes the register's specification. |
| FrameLink.Peer.TxByte | firmware/net/frame.c:54-62 | One byte goes out stuffed. |
| FrameLink.Peer.FrameSend | firmware/net/frame.c:64-94 | The transmitter appends exactly the flagged, stuffed body with its check bytes and counts one frame. |
| FrameLink.Peer.BodyComplete | firmware/net/frame.c:106-146 | Judging a body in the buffer, with the counters, the NAK and the duplicate mark, equals its specification. |
| FrameLink.Peer.TakeByte | firmware/net/frame.c:155-195 | One received byte, with all its branches, equals its specification. |
| FrameLink.Peer.Poll | firmware/net/frame.c:148-198 | A poll takes bytes until one completes a frame or none are left, and leaves the rest. |
| FrameLink.Peer.Answer | firmware/apps/frame_test.c:40-73 | The application's reply to a delivered frame, for duplicates, echo, statistics and unknown commands. |
| FrameLink.Peer.Serve | firmware/apps/frame_test.c:85-90 | The application loop over pending input delivers exactly the frames of the specification's run. |
| FrameLaws.Unstuff | firmware/net/frame.c:155-170 | Receiving a stuffed stretch acts as receiving the bytes it stands for. |
| FrameLaws.GoodFrame | firmware/net/frame.c:64-198 | From any state without a pending escape a well-formed frame is delivered intact, marked as duplicate if and only if it repeats the sequence number, with every counter accounted for. |
| FrameLaws.BadBody | firmware/net/frame.c:126-132 | Bytes whose check bytes are wrong at the extent their length byte declares are never delivered, and cost one bad_crc and one NAK to their sequence number. |
| FrameLaws.TwoByteChange | firmware/net/frame.c:106-146 | Any change confined to one byte or two adjacent bytes after the length byte is one of the covered corruptions. |
| FrameLaws.CorruptionNeverDelivered | firmware/net/frame.c:19-146 | Such a corruption of any frame of at most 32 payload bytes delivers nothing, counts one bad_crc and sends one NAK. |
| FrameJudge.FramedOutcome | firmware/net/frame.c:106-196 | For every byte string between two flags and every state without a pending escape: what is delivered, and the counters for deliveries, CRC failures, lengths, resyncs and frames sent. |
| FrameJudge.DeliveredIff | firmware/net/frame.c:106-146 | Something is delivered if and only if the bytes reach the extent their length byte declares, of at most 32 payload bytes, and the check bytes there are right. |
| FrameJudge.SameMessage | firmware/net/frame.c:113-137 | Bytes carry a message with the right check bytes if and only if they begin with that message's body. |
| FrameJudge.TailOutcome | firmware/net/frame.c:171-195 | Bytes that arrive on top of a body half collected are judged together with it. |
| FrameJudge.FlippedBitDelivers | firmware/net/frame.c:113-146 | A genuine frame with one bit of its length byte flipped is delivered as another message. |
| FrameLaws.EveryFrameArrives | firmware/net/frame.c:54-198 | Any list of messages of at most 32 payload bytes sent back to back is delivered exactly, in order, duplicates marked, with no error counter moved. |
| FrameResync.OneFrameClears | firmware/net/frame.c:155-196 | After one whole frame's bytes, from any state, no escape is pending and nothing is half collected. |
| FrameResync.Resynchronises | firmware/net/frame.c:155-196 | From any state the second of two frames arrives intact, and the first too unless an escape was pending. |
| FrameResync.FlagOpensIff | firmware/net/frame.c:155-166 | In every state, a flag leaves the receiver at the start of a new frame if and only if no escape is pending. |
| FrameResync.EscapedFrame | firmware/net/frame.c:155-184 | With an escape pending, a frame acts as the data byte 0x5E and its own body, collected after whatever was there. |
| FrameResync.FrameArrivesIff | firmware/net/frame.c:155-196 | In every reachable state the next frame is delivered if and only if no escape is pending, or the bytes half collected, the escaped flag and the new body begin with that body. |
| FrameResync.EscapeMayDeliver | firmware/net/frame.c:155-196 | Left-over bytes from reset, and a message, for which an escape is pending and the frame is delivered all the same. |
| FrameRuns.RunInv | firmware/net/frame.c:148-198 | On every byte stream a body being collected stays short of complete, and one with an impossible length stops at its first byte. |
| FrameRuns.GuardUnreachable | firmware/net/frame.c:177-183 | In every state that keeps this invariant the body is shorter than the guard's limit, and a judged body has exactly the length it declares. |
| FrameRuns.RunAccounts | firmware/net/frame.c:106-198 | From any state that keeps the receiver's invariant, over any bytes: bodies begun are those delivered, rejected, cut short or still open, and the number of frames sent is that of deliveries, CRC failures and impossible lengths together. |
| FrameSent.RunSendsBalance | firmware/net/frame.c:106-198 | Over any bytes, from any state: the wire carries exactly the frames sent; tx counts them; the receiver's NAKs are its CRC and length errors; the others are one reply per frame delivered. |
| FrameSent.EveryRunBalances | firmware/net/frame.c:106-198 | From reset, over any bytes: bodies begun = rx_ok + rx_bad_crc + rx_resync + 1 if one is open; NAKs sent by the receiver = rx_bad_crc + rx_bad_len; one reply per delivery; and these are all the frames sent. |
| FrameSent.HandleIsReply | firmware/apps/frame_test.c:40-73 | The application answers a delivered frame with exactly one frame. |
| FrameRuns.PollIsRun | firmware/net/frame.c:148-198 | A poll followed by the rest of the bytes is the whole run. |
| FrameRuns.ChunkingDoesNotMatter | firmware/net/frame.c:148-198 | However the stream is cut into polls, no frame is lost, repeated or reordered. |
| FrameRuns.SentIsReceived | firmware/net/frame.c:54-198 | Messages of at most 32 payload bytes arrive as sent under any cutting of the wire bytes into polls that reads them all. |
| FrameRing.RingIsTransparent | firmware/net/frame.c:148-153 | Polling through the ring and its pump delivers the frames of the bytes the ring took, in order. |
| FrameRing.NothingDropped | firmware/drivers/uart_rx.c:31-50 | If every burst finds room, the ring takes exactly the bytes that arrive and the drop counter does not move. |
| FrameRing.FramesCrossTheRing | firmware/net/frame.c:54-198 | Messages of at most 32 payload bytes sent back to back and arriving in bursts that fit the ring are delivered exactly, in order, without an error, once the ring is read. |
| FrameRing.PollRing | firmware/net/frame.c:148-198 | The poll over the real ring and the real receiver, pump included, equals its specification. |
| FrameRing.ServeRing | firmware/apps/frame_test.c:85-90 | The application loop over both objects equals its specification. |
| FrameRuns.RequestIsAnswered | firmware/apps/frame_test.c:40-73 | A request produces exactly one reply, and the client at the other end receives it intact: the message itself for an echo or a duplicate, the counters for a statistics request, a NAK otherwise. |
| FrameRuns.CommandsAnswered | firmware/apps/frame_test.c:52-73 | A new frame with command 1 is sent back as it came, one with command 2 is answered with the five counters as they stand after it, any other with a NAK. |
| FrameRuns.DamageIsReported | firmware/net/frame.c:126-132 | Any bytes that fail their check at the extent they declare produce one NAK, which the sender receives. |
| FrameOracle.WideShiftAgrees | tests/gen_frame_session.py:30-31 | The host's masked step in wider arithmetic is the firmware's 16-bit step. |
| FrameOracle.WideCrcAgrees | tests/gen_frame_session.py:104-110 | The host's CRC is the firmware's on every byte string. |
| FrameOracle.CrcLoop | tests/gen_frame_session.py:104-110 | The host's loop computes its CRC. |
| FrameOracle.StuffLoop | tests/gen_frame_session.py:35-42 | The host's stuffing is the firmware's. |
| FrameOracle.GoodFrameBytes | tests/gen_frame_session.py:62-65 | A frame built by the host is byte for byte the one the firmware would send. |
| FrameOracle.OneBody | tests/gen_frame_session.py:148-166 | The host's judgement of a complete body equals its specification. |
| FrameOracle.OracleAgrees | tests/gen_frame_session.py:91-167 | From agreeing states, on every byte stream, the host's receiver and the firmware with its application end with the same state and the same six counters. |
| FrameOracle.Simulate | tests/gen_frame_session.py:91-167 | The host's loop over a whole stream agrees with the firmware from reset. |
| ConvSpec.SubjectLaw | firmware/lib/omni_libc.c:146-232 | Any reading of a string as white space, sign, prefix, digits and rest fixes the result: the exact magnitude of the digits, signed and brought into range, ending where the rest begins. |
| ConvSpec.SubjectValue | firmware/lib/omni_libc.c:207-232 | The result for any such reading: strtol's is the signed value, or the nearest limit with the range flag if and only if it does not fit; strtoul's is the value modulo 2^32, or the largest with the flag if and only if the magnitude does not fit; both end where the rest begins. |
| ConvSpec.SpaceIs | firmware/lib/omni_libc.c:166 | White space is the blank and the characters 9 to 13, and nothing else. |
| ConvSpec.SubjectExists | firmware/lib/omni_libc.c:148-149 | Characters are consumed if and only if there is such a reading; otherwise value 0 and offset 0. |
| Conv.DivisionTest | firmware/lib/omni_libc.c:189-190 | The comparison with a quotient decides exactly whether the next digit would overflow. |
| Conv.DigitLoop | firmware/lib/omni_libc.c:184-195 | All digits are consumed; the value is exact, or saturated if and only if the true value exceeds 32 bits. |
| Conv.ParseMag | firmware/lib/omni_libc.c:158-205 | Value, end offset, sign and saturation equal the unbounded specification, for every string and every base, valid or not. |
| Conv.Status.StrToUL | firmware/lib/omni_libc.c:207-218 | Result, end and range flag equal the unbounded specification; null converts to nothing. |
| Conv.Status.StrToL | firmware/lib/omni_libc.c:220-232 | The same for the signed conversion, with its asymmetric limits. |
| Conv.FindDigit | tests/gen_libc_vectors.py:79-81 | Looking a lower-cased character up in the digit string gives the firmware's digit value in every base. |
| Conv.HostStrTo | tests/gen_libc_vectors.py:48-99 | The host reference equals the same specification, so the two agree on value, end offset and range flag for base 0 and 2 to 36. |
| Numerals.DigitsLength | firmware/lib/omni_libc.c:259-262 | A 32-bit number has at most ten decimal and eight hexadecimal digits. |
| Numerals.TextLengths | firmware/lib/omni_libc.c:240-311 | Twelve and nine bytes always suffice, terminator included. |
| Numerals.IntTextReads | firmware/lib/omni_libc.c:220-281 | strtol in base 10 reads back what itoa writes, for every 32-bit value. |
| Numerals.HexTextReads | firmware/lib/omni_libc.c:207-311 | strtoul in base 16 reads back what utoa_hex writes. |
| NumeralLaws.DigitsIff | firmware/lib/omni_printf.c:90-95 | One string and no other is a number's numeral: digits of the literal table in the case asked for, no leading zero unless it is all there is, and that value. |
| NumeralLaws.IntTextIff | firmware/lib/omni_libc.c:240-281 | itoa's text is the one decimal numeral of the magnitude, after a minus sign if and only if the value is negative, with no plus sign and no blank. |
| NumeralLaws.HexTextIff | firmware/lib/omni_libc.c:284-311 | utoa_hex's text is the one lower-case numeral of the value, without a prefix. |
| Numerals.Reverse | firmware/lib/omni_libc.c:269-278 | The swap loop reverses the front of the buffer and nothing else. |
| Numerals.Itoa | firmware/lib/omni_libc.c:240-281 | The buffer holds the decimal text and a terminator, and is otherwise unchanged, the most negative value included. |
| Numerals.UtoaHex | firmware/lib/omni_libc.c:284-311 | The buffer holds the hexadecimal text and a terminator, and is otherwise unchanged. |
| Printf.Out.OutCh | firmware/lib/omni_printf.c:47-55 | The sink counts every character and keeps only the first n - 1 of them. |
| Printf.Out.OutRep | firmware/lib/omni_printf.c:57-60 | A repeated character goes out that many times. |
| Printf.Out.EmitField | firmware/lib/omni_printf.c:70-84 | Blanks, sign, prefix, zeros and digits come out as the field's specification says. |
| Printf.LowDigits | firmware/lib/omni_printf.c:94-96 | The digit loop leaves the digits lowest first, at least one. |
| Printf.FieldT.MakeNumber | firmware/lib/omni_printf.c:87-104 | The body array holds the digits brought to the precision, within its 24 places, with sign and prefix set. |
| Printf.ScanSpec | firmware/lib/omni_printf.c:114-130 | The scan of flags, width and precision equals its specification. |
| Printf.PutPiece | firmware/lib/omni_printf.c:137-187 | Each conversion puts out the text of its specification. |
| Printf.DoFormat | firmware/lib/omni_printf.c:106-198 | The in-place scan puts out the whole rendering and returns its length. |
| Printf.Vsnprintf | firmware/lib/omni_printf.c:200-210 | For every n including 0: the buffer holds the first min(length, n - 1) characters and a terminator, nothing else is touched, and the full length is returned. |
| Printf.Vprintf | firmware/lib/omni_printf.c:221-229 | The console receives the same rendering whole. |
| PrintfLaws.FieldWidth | firmware/lib/omni_printf.c:70-84 | A field is exactly the width asked for, or what its contents need. |
| PrintfLaws.ZeroOverridden | firmware/lib/omni_printf.c:12 | With '-' or a precision, the '0' flag changes nothing. |
| PrintfLaws.BodyFitsIff | firmware/lib/omni_printf.c:97-100 | For every number the digits fit the 24 places of the body array if and only if the precision is at most 24. |
| PrintfLaws.FieldReads | firmware/lib/omni_printf.c:70-84 | A field whose body is digits reads as the body's number, whatever blanks, zeros, sign or prefix surround it, and is consumed up to its trailing blanks. |
| PrintfLaws.SignedReadsBack | firmware/lib/omni_printf.c:138-148 | strtol reads back every %d and %i text, for all flags, widths and precisions, and ends at its trailing blanks, or at its start when there are no digits. |
| PrintfLaws.UnsignedReadsBack | firmware/lib/omni_printf.c:149-154 | strtoul reads back every %u text, to the same end. |
| PrintfLaws.HexReadsBack | firmware/lib/omni_printf.c:155-162 | strtoul in base 16 reads back every %x and %X text, and with '#' also in base 0, to the same end. |
| PrintfLaws.PointerReadsBack | firmware/lib/omni_printf.c:181-187 | strtoul in base 16 or 0 reads back every %p text to its trailing blanks; of the bare prefix of a zero address with precision zero it consumes the zero. |
| PrintfText.BodyIff | firmware/lib/omni_printf.c:87-101 | The digits printed are the one numeral of that value, base and letter case that has at least as many digits as the precision asks, and no more zeros in front than that needs. |
| PrintfText.FieldIff | firmware/lib/omni_printf.c:70-84 | A field is the one text of the right width with the contents left and blanks after, or right and blanks before, or, with '0' and neither '-' nor a precision, zeros between head and digits. |
| PrintfText.PieceIff | firmware/lib/omni_printf.c:137-187 | For every spec, letter and argument the text printed is the only one that meets the C library's wording: '-' for negative values, '+' before a blank for others, 0x or 0X by letter with '#' and a value not zero, a string cut to the precision, and the field's justification. |
| PrintfFormat.FlagsSwitchOn | firmware/lib/omni_printf.c:117-124 | Flags in any order and number switch on exactly the flags that occur. |
| PrintfFormat.ConversionRead | firmware/lib/omni_printf.c:114-130 | Wherever it stands, any conversion written as flags, width, precision and letter is scanned as what these ask for, up to the letter. |
| PrintfFormat.FormatMeans | firmware/lib/omni_printf.c:106-198 | A format is well formed if and only if it is a list of plain characters and conversions with their arguments in order; and what it prints is then the texts these must print, one after another, and nothing else. |
| PrintfFormat.SpecReadsBack | firmware/lib/omni_printf.c:114-130 | The scanner reads back any flags, width and precision written out as text. |
| PrintfFormat.PrintThenRead | firmware/lib/omni_printf.c:106-198 | End to end: a format that is one conversion is well formed, and reading its rendering gives the argument back. |
| Wire.TxDecoder.Tick | hardware/sim/soc/tb_soc_console.cpp:67-96 | The decoder object's cycle equals its specification, the byte flag included. |
| Wire.RxDriver.Tick | hardware/sim/soc/tb_soc_console.cpp:116-133 | The driver object's cycle equals its specification. |
| WireLaws.FrameSampled | hardware/sim/soc/tb_soc_console.cpp:67-96 | A start edge still low half a bit later yields, 4123 cycles on, the byte made of eight samples at fixed cycles, whatever the pin does in between. |
| WireLaws.WaveDecoded | hardware/sim/soc/tb_soc_console.cpp:59-97 | Within tolerance every byte sequence with any idle gaps is decoded in order. |
| WireLaws.ToleranceExact | hardware/sim/soc/tb_soc_console.cpp:59-97 | All sequences with all gaps are decoded if and only if a bit lasts 413 to 461 cycles. |
| WireDriver.ByteSent | hardware/sim/soc/tb_soc_console.cpp:116-133 | A queued byte takes 5209 cycles: an 8N1 frame of 434-cycle bits, and 869 cycles of a high line. |
| WireDriver.QueueSent | hardware/sim/soc/tb_soc_console.cpp:116-133 | The waveform of a whole queue is those frames and gaps, in order. |
| WireRuns.CycleInStep | hardware/sim/soc/tb_soc_console.cpp:59-134 | Driver and decoder stay in step: the decoder samples in the middle of the driver's bits. |
| WireRuns.NothingLost | hardware/sim/soc/tb_soc_console.cpp:59-134 | Under any schedule of pushes, decoded bytes, the byte in flight and the queue are the bytes pushed, in order, at every cycle. |
| WireRuns.CycleCounts | hardware/sim/soc/tb_soc_console.cpp:105-134 | The cycles left until the driver is silent go down by one each cycle, from an exact initial figure, and at zero nothing is queued or in flight. |
| WireRuns.EveryByteArrives | hardware/sim/soc/tb_soc_console.cpp:59-134 | From reset the decoder puts out exactly the bytes pushed once the driver has had time. |
| WireRuns.Harness | hardware/sim/soc/tb_soc_console.cpp:59-134 | The two objects ticked against each other follow the specification's run, and never put out anything but a prefix of what was pushed. |
| Tick.Service.TimerAdd | firmware/drivers/tick.c:81-94 | The first free slot is taken, or -1 when there is none. |
| Tick.Service.TimerCancel | firmware/drivers/tick.c:96-101 | A slot in use is freed; any other id changes nothing. |
| Tick.Service.TickIsr | firmware/drivers/tick.c:103-124 | The interrupt's loop over the table, callbacks included, equals its specification. |
| TickLaws.ElapsedIsTrue | firmware/drivers/tick.c:48-51 | The unsigned difference is the true elapsed time across a rollover. |
| TickLaws.SignedIsTrue | firmware/drivers/tick.c:113 | The signed comparison is exact while the true difference fits 32 bits. |
| TickLaws.IsrSlot | firmware/drivers/tick.c:110-122 | Each slot is dispatched at most once per interrupt, on its own deadline alone and with its own lateness, whatever the callbacks of other slots add or cancel, as long as they spare it. |
| TickCancel.CancelLaw | firmware/drivers/tick.c:96-101 | A cancel returns 1 if and only if the slot is in use; afterwards the slot is free and nothing else has changed, and a second cancel returns 0 and changes nothing. |
| TickCancel.AddLaw | firmware/drivers/tick.c:81-94 | A timer goes to the lowest free slot, -1 comes back if and only if there is none, no other slot changes, and a cancel gives the slot back. |
| TickCancel.CancelledIsSilent | firmware/drivers/tick.c:96-124 | Whatever happened before: after a timer is cancelled, and while none is added, it is never dispatched again. |
| TickCancel.CancelInCallback | firmware/drivers/tick.c:110-122 | Where no callback adds a timer, a timer cancelled by one due timer's callback alone is dispatched in that interrupt if and only if it is due and its slot is not after the callback's, and its slot is free afterwards. |
| TickCancel.DispatchedInOrder | firmware/drivers/tick.c:110-122 | Whatever the callbacks do, one interrupt's dispatches are added to the log in increasing slot order, each slot at most once. |
| TickCancel.OneShotReArms | firmware/drivers/tick.c:119-121 | A one-shot whose callback adds a timer, with the slots below held by periodic timers whose callbacks do nothing, gets its own slot back for it, and the new timer is not dispatched in the same interrupt, even if due at once. |
| TickLaws.WorstIsMax | firmware/drivers/tick.c:114-117 | The worst lateness of a list of dispatches bounds them all and is attained. |
| TickRuns.RunAccounts | firmware/drivers/tick.c:114-118 | Over any run, the three statistics are the number of dispatches, the number of late ones and the worst lateness. |
| TickRuns.OneInterrupt | firmware/drivers/tick.c:110-120 | A periodic timer is dispatched if and only if its deadline has been reached, with its true lateness, and moves on by one period however late that is. |
| TickRuns.CountIsFired | firmware/drivers/tick.c:103-124 | For all gaps between interrupts that stay within half the counter's range of the deadline outstanding: the number of dispatches is that of deadlines met one per interrupt. |
| TickRuns.ExactIffNoneSkipped | firmware/drivers/tick.c:103-124 | From an exact count of a timer of less than 2^31 cycles, over any run in time order: exact after every interrupt if and only if no interrupt skips a period. |
| TickRuns.FittingExactIff | firmware/drivers/tick.c:81-124 | The same for a timer just added, over any number of rollovers and whatever happens to other timers. |
| TickLimits.PeriodicExactIff | firmware/drivers/tick.c:81-124 | For every table with a free slot and every period but zero: counts are right on all runs in time order that skip no period, and only on those, if and only if the period is less than 2^31 cycles. |
| TickRuns.PromptSkipsNone | firmware/drivers/tick.c:103-124 | Interrupts at most a period apart skip none. |
| TickRuns.SkippedPeriod | firmware/drivers/tick.c:110-120 | A run with a period skipped: one dispatch is missing after it, and made up for at the next interrupt. |
| TickRuns.OneShotFiresOnce | firmware/drivers/tick.c:119 | A one-shot of less than 2^31 cycles fires exactly once, at the first interrupt after its delay, whatever timers are added or cancelled until then, with interrupts at most 2^31 cycles apart. |
| TickLimits.OneShotExactIff | firmware/drivers/tick.c:81-124 | For every table with a free slot and every delay but zero: it has fired exactly when an interrupt has reached the delay, on all such runs, if and only if the delay is less than 2^31 cycles. |
| TickLimits.DueIff | firmware/drivers/tick.c:90-113 | When, after it is added, any timer is due, for every period and every moment. |
| TickLimits.EarlyIff | firmware/drivers/tick.c:90-113 | Some moment before the end of its period finds a timer due if and only if the period is more than 2^31 cycles. |
| TickLimits.DueAtOnceIff | firmware/drivers/tick.c:90-113 | A timer is due at the instant it is added if and only if its period in 32-bit cycles is zero or more than half the counter's range. |
| TickLimits.FortyFiveSeconds | firmware/drivers/tick.c:90-113 | A timer of 45 seconds is due at once. |
| TickLimits.HundredSeconds | firmware/drivers/tick.c:90-120 | A timer of 100 seconds is not due at once, but is dispatched by an interrupt 14.1 seconds on, before any period is over. |
| TickLaws.ReadingStep | firmware/drivers/tick.c:57-60 | At an interrupt the microsecond reading moves by a tick less what had elapsed of it; it steps back if and only if the interrupt is late. |
| TickLaws.LateReadingStepsBack | firmware/drivers/tick.c:107-108 | A late interrupt at which the reading goes from 1200 back to 1000. |
| RingSpec.PumpLaw | firmware/drivers/uart_rx.c:31-50 | The pump stages the oldest bytes that fit, in order, and counts each byte taken once, staged or dropped. |
| RingSpec.PumpCountsOverruns | firmware/drivers/uart_rx.c:36-37 | Every status reading that shows the overrun flag is counted. |
| RingSpec.LineConserves | firmware/drivers/uart_rx.c:76-104 | Over a line read, bytes handed out and bytes still queued are those queued before and staged meanwhile, in order. |
| RingSpec.LineLaw | firmware/drivers/uart_rx.c:76-104 | At every outcome the line is what was handed out before a line end, without carriage returns, cut to the room. |
| RingSpec.ReadLineLaw | firmware/drivers/uart_rx.c:83-96 | A completed read returns the bytes before the next LF of the stream, without CRs, cut to n - 1, and consumes the LF. |
| RingTime.OutcomeIff | firmware/drivers/uart_rx.c:76-104 | For clock readings less than 2^32 cycles after the start, across a rollover too: a read times out if and only if a timeout is given and a pass that finds the queue empty comes that many cycles of true time after the start before any pass takes a line end; it is done if and only if a line end comes first. |
| RingTime.TimeoutBounds | firmware/drivers/uart_rx.c:98-101 | No read times out before its timeout is over, and none without one; a pass that finds nothing after it leaves no read waiting. |
| RingTime.ExpiredIsTrue | firmware/drivers/uart_rx.c:98-99 | The unsigned elapsed test is the true one for readings less than 2^32 cycles apart; one exactly 2^32 cycles on misses every timeout. |
| Ring.PutContents | firmware/drivers/uart_rx.c:41-48 | Storing at head and advancing it round the ring appends one byte to the queue. |
| Ring.TakeContents | firmware/drivers/uart_rx.c:59-62 | Reading at tail and advancing it removes the oldest byte. |
| Ring.UartRx.PumpNow | firmware/drivers/uart_rx.c:31-50 | The pump's loop over the ring equals its specification. |
| Ring.UartRx.Available | firmware/drivers/uart_rx.c:52-55 | The masked difference is the number of queued bytes, at most 255. |
| Ring.UartRx.Getc | firmware/drivers/uart_rx.c:57-63 | The oldest byte, or -1 exactly when nothing is queued. |
| Ring.UartRx.Read | firmware/drivers/uart_rx.c:65-74 | The first min(n, queued) bytes, in order, and nothing else of the destination touched. |
| Ring.UartRx.Getline | firmware/drivers/uart_rx.c:76-104 | Result, buffer, terminator and queue equal the specification for a completed, timed-out or waiting call. |
| RingRuns.RunConserves | firmware/drivers/uart_rx.c:31-104 | Over any interleaving of pump, getc, read and getline: handed out followed by queued is what was queued and staged, and counters account for every byte taken. |
| RingRuns.FromReset | firmware/drivers/uart_rx.c:16-104 | From reset: at most 255 queued, handed out in staging order, bytes plus drops equal to bytes taken. |
| MExt.AllAgree | tests/omni-risc/ref_sim.cpp:121-143 | For all operands the interpreter's eight results are those of the two golden models. |
| MExt.ProductsRecompose | tests/omni-risc/ref_sim.cpp:123-126 | High and low words recompose the exact signed, mixed and unsigned products. |
| MExt.SignedDivision | tests/omni-risc/ref_sim.cpp:127-139 | Quotient and remainder are those of truncation, with the zero-divisor and overflow rules of section 7.2 of the RISC-V Unprivileged ISA (20191213). |
| MExt.UnsignedDivision | tests/omni-risc/ref_sim.cpp:132-142 | The unsigned quotient and remainder satisfy the division equation, with the zero-divisor rule. |
| MExt.DivisionUnique | hardware/sim/cpu/tb_divider.cpp:32-43 | No other quotient and remainder satisfy the meaning of truncating division. |

## Left out

- Heap.Heap.Realloc: has no outcome for the calls that never return, which `HeapLimits.ZeroNeverEnds` shows to be a live block and a request whose computed size is zero.
- Heap.Heap.Calloc: assumes that a product that fits 32 bits does not wrap malloc's size computation, which cannot happen in arenas of up to 65528 bytes.
- HeapRuns.EveryRunFromInit: assumes requests that do not overflow the size computation and client stores inside live payloads, as the allocator's clients must.
- Printf.Vsnprintf: assumes the buffer does not overlap the format or the string arguments, which are values here.
- TickLimits.PeriodicExactIff: when the compare register is re-armed is not part of the model, so interrupt times are arbitrary.
- FrameLink.Peer.Poll: takes its bytes from a sequence; `FrameRing.PollRing` is the poll over the ring and pump.
- Ring.UartRx.Getline: runs over a given list of passes, so that a call that waits for ever is a list that runs out.
- Conv.HostStrTo: models lower-casing on ASCII only.
- MSI coherence, atomics and litmus outcomes, the pipeline, the GPU scheduler and the memory arbiter: their RTL is not part of this model.
- Register-level I/O, interrupt and CSR set-up, boot, the shell, the RTOS port and all harness loops around the modelled classes.
- The rest of the interpreter's instruction set, memory and string routines, and `delay_us`: they would only add easy members.
- The frame application's log lines.
