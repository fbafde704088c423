# K3 audio pipeline and MemSnoop, modelled and proved in Dafny

This project models the two bodies of logic of the repository and proves what they promise.

**K3 audio pipeline** (C++).
`Fft` and `DspEngine` model the in-place transform and the worker around it. Samples are reals; spectrum
slots are elements of a commutative ring whose stage roots satisfy: the first is minus one, each squares to
the one before. `Residues` gives one ring in which all of this holds.
`SpscRing` models the lock-free queue as two threads, one move per atomic load, atomic store or slot access.
An acquire load may return any index of the modification order not older than the thread's last observation
(read-read coherence, section 4.7.1 of ISO/IEC 14882:2017). `BoundedFifo` is the queue it refines and
`RingBuffer` the same ring as an object without interference.
`Pipeline` is the whole system as a step machine: transport, dispatcher, analysis, persistence and the main
thread that stops them, over queues that answer as the ring does, stale full and empty answers included.
`PipelineProofs` holds the invariant, `PipelineTheorems` the results over every reachable state,
`PipelineFlushes` the flush threshold and what counts as failed or malformed, `PipelineShutdown` the bounds on
the moves after each join and `HardErrors` what a failed write does.
`RingPipeline` replaces the queues by three rings with all their atomic accesses and proves that nothing is
added, `RingRealizes` that nothing is lost: the runs of `ExactRuns`, in which every queue answers exactly, are
runs over the rings. `FrameDelivery` uses this to carry any list of frames into the file. `Workers` has the same stages as objects with loops, in which other threads and the operating system
act between any two rounds.
`Frames` covers descriptors, bounds checks and sample bytes, `LittleEndian` the byte order.
`WavReader` and `Playback` model offline playback: the RIFF chunk walk (IBM/Microsoft Multimedia Programming
Interface and Data Specifications 1.0, chapter 2 and the WAVE section of chapter 3), sample decoding, and the
loop that feeds the device. `Bits` gives the bitwise operators.

**MemSnoop** (eBPF and C).
`MemSnoop` takes each handler as one step over bounded maps; `MemSnoopRace` has any number of handlers in
flight, one move per map operation or atomic addition, and `RaceBytes` follows the bytes through them.
`PidLedger` follows the bytes of one process. `LeakStats` and `PidReport` model the reports of user space and
`Symbols` the kernel symbol table.

`Powers`, `Rings`, `Sorting`, `Subsequences` and `Options` hold what the other modules share.

Where code and documentation differ, the model follows the code:

- The duplicate removal in `symbol.c` says it keeps the first occurrence of each address. The sort before it is
  not stable, so it keeps some occurrence; `Symbols.SymbolTable.SymbolResolve` promises no more.
- `symbol.c` documents three load states and uses a fourth, -2. It is decided by every parsed line, stored or
  not, so a table whose stored addresses are all zero can still be loaded as usable (`Symbols.ZeroTableAnswers`).
- The queue calls its size estimate fit for monitoring only, and two loops end on it. This is sound at shutdown
  because the producer has been joined by then.
- The RIFF format fixes a fmt chunk at 16 bytes or more. The reader takes a shorter one and reads 16 bytes anyway.
- A hard write error keeps the whole cache, so a retry sends bytes twice (`HardErrors.RetryResends`).
- The last data chunk of a WAV file counts even when it is empty (`WavReader.EmptyDataHidesEarlier`).

## Model

| member | source | states |
|---|---|---|
| Fft.HalfTurn | k3-code/src/dsp_engine.cpp:147-148 | half a turn of every stage root is minus one, from: the first root is minus one and each root squares to the one before |
| Fft.EvalSplit | k3-code/src/dsp_engine.cpp:150-158 | a polynomial at z is its even half at z² plus z times its odd half at z²: why the butterfly works |
| Fft.EvalIsDft | k3-code/src/dsp_engine.cpp:125-159 | Horner evaluation at the k-th power of the root is the defining sum of x_j·w^(jk) |
| Fft.TwiddlePair | k3-code/src/dsp_engine.cpp:147-156 | the running twiddle squares to the twiddle of the stage before, and half a turn further is its negative |
| Fft.Butterfly | k3-code/src/dsp_engine.cpp:152-155 | u + v and u − v of two neighbouring blocks are the outputs k and k + len/2 of the block that unites them |
| Fft.StageZero | k3-code/src/dsp_engine.cpp:134-144 | the bit-reversed buffer satisfies the stage invariant for blocks of length 1 |
| Fft.SlotsAdvance | k3-code/src/dsp_engine.cpp:149-158 | a butterfly moves exactly its two slots from one stage to the next |
| Fft.PassAdvances | k3-code/src/dsp_engine.cpp:149-158 | one pass of the middle loop moves the whole buffer one stage on: each block of length len holds the transform of one subsequence of stride n/len |
| Fft.StageLast | k3-code/src/dsp_engine.cpp:146-159 | after the last stage slot k is the k-th transform output |
| Fft.ReversedIncrement | k3-code/src/dsp_engine.cpp:136-140 | the carry loop ends and takes the reversal of c to the reversal of c + 1 |
| Fft.BitReverse | k3-code/src/dsp_engine.cpp:134-144 | the guarded swaps leave in every slot k what was in slot rev(k), and the list of swaps has every pair of differing slots exactly once |
| Powers.RevInvolution | k3-code/src/dsp_engine.cpp:134-144 | reversing the bits twice gives the number back |
| Powers.RevHighBit | k3-code/src/dsp_engine.cpp:136-140 | splitting off the highest reversed bit, which the carry loop walks down from |
| Fft.ButterflyBlock | k3-code/src/dsp_engine.cpp:150-157 | one block in place, with the running twiddle a power of the stage root; slots outside the block unchanged |
| Fft.ButterflyPass | k3-code/src/dsp_engine.cpp:149-158 | all butterflies of a stage, each on the slots as they were before the stage |
| Fft.Butterflies | k3-code/src/dsp_engine.cpp:146-159 | from the bit-reversed input the in-place network leaves the sum of x_j·w^(jk) in slot k, for every power of two length, every input and every commutative ring with stage roots |
| Residues.ResiduesLawful | k3-code/src/dsp_engine.cpp:146-159 | the integers mod 9·2^63 + 1 satisfy the ring laws assumed above |
| Residues.ResiduesHaveStageRoots | k3-code/src/dsp_engine.cpp:146-148 | and have a root for every block length up to 2^63, so the assumptions can be met |
| Residues.ResiduesSuitEverySize | k3-code/src/dsp_engine.cpp:125-159 | an arithmetic over this ring suits every block the worker accepts |
| DspEngine.FloorPow2 | k3-code/src/dsp_engine.cpp:18-24 | the largest power of two not above n (1 for 0); no shift leaves 64 bits below 2^63 |
| DspEngine.FloorLogUnique | k3-code/src/dsp_engine.cpp:18-24 | that power is the only one within a factor of two of n |
| DspEngine.DspEngineWorker.EnsureWorkspace | k3-code/src/dsp_engine.cpp:101-123 | whatever the workspace was, afterwards it has the sizes of this block and the window of this size |
| DspEngine.DspEngineWorker.LoadWindowed | k3-code/src/dsp_engine.cpp:130-132 | the transform buffer is fully overwritten with the windowed samples |
| DspEngine.DspEngineWorker.ComputeFftDb | k3-code/src/dsp_engine.cpp:125-169 | the result is the lower half of the defining transform of the windowed samples, in decibels; nothing for fewer than two |
| DspEngine.DspEngineWorker.ProcessBlock | k3-code/src/dsp_engine.cpp:77-99 | the frame is that of the block alone, whatever blocks came before; all indices in bounds; what it shows is in the rows from MonoIsFirstChannel to DecibelScale |
| DspEngine.DspEngineWorker.DspLoop | k3-code/src/dsp_engine.cpp:49-75 | whatever the queue answers in each round (nothing, a null frame, a block of any size), the frames handed to the window are those a new worker would make of each block, in order; none without a window |
| DspEngine.MonoIsFirstChannel | k3-code/src/dsp_engine.cpp:82-92 | for every list of channels of equal length, the buffer made of the block that interleaves them is the first channel divided by 2^31 |
| DspEngine.OtherChannelsDoNotShow | k3-code/src/dsp_engine.cpp:77-99 | so two blocks with the same first channel show the same, whatever and however many the other channels are |
| DspEngine.FrameOfBlock | k3-code/src/dsp_engine.cpp:77-99 | a frame has its block's number and time; below two samples per channel nothing else, otherwise an envelope and half as many spectrum values as the largest power of two that fits |
| DspEngine.WindowShape | k3-code/src/dsp_engine.cpp:112-121 | from cos 0 = 1, cos π = −1, |cos| ≤ 1 and the symmetry about π: the window is between 0 and 1, 0 at both ends, symmetric, and 1 at an exact middle |
| DspEngine.EndsDoNotCount | k3-code/src/dsp_engine.cpp:130-132 | every sample enters the transform weighted by its place, so the first and the last one do not count |
| DspEngine.DecibelScale | k3-code/src/dsp_engine.cpp:161-168 | from the laws of the logarithm: never below −240 dB and −240 dB for nothing, 0 dB at full scale, 20 dB more for ten times the magnitude |
| DspEngine.FramesInOrder | k3-code/src/dsp_engine.cpp:49-75 | empty answers and null frames show nothing, a block shows its frame, rounds follow each other |
| DspEngine.FirstChannelInBounds | k3-code/src/dsp_engine.cpp:90-92 | the strided read of the first channel stays inside the samples |
| DspEngine.PeakBounds | k3-code/src/dsp_engine.cpp:182-185 | a chunk peak is reached by some sample and exceeded by none |
| DspEngine.EnvelopeChunks | k3-code/src/dsp_engine.cpp:177-187 | exactly ceil(n / step) points, never more than 2047, each the absolute peak of its chunk |
| DspEngine.EnvelopeCountExact | k3-code/src/dsp_engine.cpp:177-187 | below 2048 samples each is a point, from there on there are 1024 to 1536; 2047 points are those of 2047 samples and of no other length |
| DspEngine.EnvelopeMaximum | k3-code/src/dsp_engine.cpp:171-189 | the maximum of the envelope is the maximum absolute sample |
| DspEngine.BuildUiEnvelope | k3-code/src/dsp_engine.cpp:171-189 | the loops compute that envelope |
| SpscRing.MoveKeeps | k3-code/include/lockfree_ring_buffer.hpp:18-39 | every load, store and slot access of either thread keeps the invariant of indices, slots and program counters, also with stale acquire loads |
| SpscRing.FullMeansFull | k3-code/include/lockfree_ring_buffer.hpp:19-23 | push answers full exactly when the queue is full at the tail position it read |
| SpscRing.EmptyMeansEmpty | k3-code/include/lockfree_ring_buffer.hpp:32-35 | pop answers empty exactly when the head position it read is the tail |
| SpscRing.NewestLoadsDecide | k3-code/include/lockfree_ring_buffer.hpp:18-39 | with loads of the newest index (sequential consistency) full and empty answers are exact at the instant of the load |
| SpscRing.MoveRefines | k3-code/include/lockfree_ring_buffer.hpp:18-39 | one atomic move of the ring is one step of a bounded FIFO; stale indices only add full or empty answers |
| SpscRing.NoSlotRace | k3-code/include/lockfree_ring_buffer.hpp:24-36 | the threads are never about to touch one slot, and every slot access comes after all earlier accesses of the other thread to it that it could race with |
| SpscRing.NeverStuck | k3-code/include/lockfree_ring_buffer.hpp:18-39 | the slot an index names is in bounds and, for pop, holds an item |
| SpscRing.RunRefines | k3-code/include/lockfree_ring_buffer.hpp:18-39 | every interleaving shows a trace a bounded FIFO can show |
| SpscRing.RingIsBoundedFifo | k3-code/include/lockfree_ring_buffer.hpp:13-39 | from the constructor on: what pop returned is a prefix of what push accepted, and at most capacity items are between |
| SpscRing.PushCompletes | k3-code/include/lockfree_ring_buffer.hpp:18-27 | from every invariant state with an idle producer a push runs to its end: with room the item is accepted and is the queue's last, otherwise the answer is full and nothing changes |
| SpscRing.PopCompletes | k3-code/include/lockfree_ring_buffer.hpp:31-39 | likewise a pop: the oldest item is delivered and leaves the queue, or the answer is empty exactly when it is |
| SpscRing.AnswersEndCalls | k3-code/include/lockfree_ring_buffer.hpp:18-39 | a thread leaves a call exactly by a move that shows an answer, and enters one only by calling; the answer is about the item of the call |
| SpscRing.EveryPushIsAnswered | k3-code/include/lockfree_ring_buffer.hpp:18-39 | over every run: the pushes called are the pushes answered, in order, and the one under way; what was accepted is what was published, what was delivered is what was released |
| SpscRing.ApproxSizeBounds | k3-code/include/lockfree_ring_buffer.hpp:42-49 | the estimate is between 0 and the capacity whatever two indices it reads |
| SpscRing.ApproxSizeMeaning | k3-code/include/lockfree_ring_buffer.hpp:42-49 | asked by the consumer the estimate never exceeds the queue and is exact for the newest head; asked by the producer it never falls short |
| RingBuffer.SpscRingBuffer.constructor | k3-code/include/lockfree_ring_buffer.hpp:13-14 | an empty queue of the given capacity with one slot more |
| RingBuffer.SpscRingBuffer.Push | k3-code/include/lockfree_ring_buffer.hpp:18-27 | appends the item if there is room, otherwise changes nothing |
| RingBuffer.SpscRingBuffer.Pop | k3-code/include/lockfree_ring_buffer.hpp:31-39 | removes and returns the oldest item, or nothing exactly when empty |
| RingBuffer.SpscRingBuffer.Size | k3-code/include/lockfree_ring_buffer.hpp:42-49 | the number of items, when no other thread interferes |
| Frames.SampleRoundTrip | k3-code/src/persistence_worker.cpp:95-98 | reading four bytes as a sample and writing the sample gives the bytes back |
| Frames.SampleIsLittleEndian | k3-code/src/shm_transport.cpp:169-171 | a sample is the 32-bit two's complement value of its four bytes, lowest first |
| Frames.SampleBytesAreLittleEndian | k3-code/src/persistence_worker.cpp:95-98 | and is written as the four bytes of its unsigned value, lowest first |
| Frames.SampleAtPlace | k3-code/src/shm_transport.cpp:169-171 | sample i of an area is the value of bytes 4i to 4i + 3 |
| LittleEndian.LeDigit | k3-code/src/shm_transport.cpp:169-171 | byte i is digit i of the value to the base 256 |
| LittleEndian.SignedIsTwosComplement | k3-code/src/shm_transport.cpp:169-171 | the signed value is the only number in range that differs from the word by nothing or by 2^(8·width) |
| Frames.BytesOfSamples | k3-code/src/shm_transport.cpp:169-171 | copying memory into samples and writing the samples out gives the memory back |
| Frames.ChecksAskFit | k3-code/src/shm_transport.cpp:155-167 | none of the 64-bit products and sums wraps, so the checks ask only whether the area fits |
| Frames.ChecksAskWellFormed | k3-code/src/shm_transport.cpp:148-167 | the checks accept exactly nonempty areas inside the shared memory |
| Frames.FrameCarriesArea | k3-code/src/shm_transport.cpp:169-178 | a frame carries exactly the bytes of its area, all sample_count·channels samples |
| Frames.BuildFrame | k3-code/src/shm_transport.cpp:148-179 | accepts exactly the well-formed descriptors; sample i of the frame is the two's complement value of the memory's bytes offset + 4i to offset + 4i + 3, lowest first; null otherwise |
| Frames.AcceptedExactly | k3-code/src/shm_transport.cpp:148-167 | a frame is made exactly if the area has samples and channels and ends inside the memory |
| PipelineFlushes.MalformedExactly | k3-code/src/shm_transport.cpp:122-132 | in every reachable state between two descriptors the malformed ones are exactly those received that describe no nonempty area in the memory; all others were accepted or dropped |
| Workers.SharedMemoryTransport.HandleDescriptor | k3-code/src/shm_transport.cpp:117-132 | one descriptor: enqueued, counted malformed or counted dropped, exactly one of the three |
| PipelineProofs.TransportKeeps | k3-code/src/shm_transport.cpp:116-133 | every transport move keeps the counters equal to the fates of the descriptors |
| Workers.FrameDispatcher.CheckSequence | k3-code/src/frame_dispatcher.cpp:49-56 | counts a gap exactly if there was a frame before and this number is not its successor, 0 after 2^32 − 1; the counter stays the number of such neighbours |
| Workers.FrameDispatcher.DispatchFrame | k3-code/src/frame_dispatcher.cpp:49-64 | one frame offered to both queues: each takes it exactly when it has room, drops are counted, the queues do not affect each other |
| Workers.FrameDispatcher.TakeFromIngress | k3-code/src/frame_dispatcher.cpp:38-47 | takes the oldest frame, never a null one |
| Workers.FrameDispatcher.DispatchLoop | k3-code/src/frame_dispatcher.cpp:36-66 | ends only when stopped, and then with the ingress queue empty and dispatched = accepted + dropped for each queue, whatever the other threads do |
| PipelineProofs.DispatcherKeeps | k3-code/src/frame_dispatcher.cpp:36-66 | every dispatcher move keeps the counters, the order and the gap count, also with stale queue answers |
| PipelineProofs.GapsAreLosses | k3-code/src/frame_dispatcher.cpp:49-54 | of consecutively numbered descriptors a subsequence has no more gaps than it lacks elements |
| Workers.PersistenceWorker.WriteAll | k3-code/src/persistence_worker.cpp:95-106 | whatever short writes and EINTR, the file grows by exactly the bytes, or by a prefix on a hard error |
| Workers.PersistenceWorker.FlushCache | k3-code/src/persistence_worker.cpp:90-114 | on success the file has grown by exactly the cache, which is empty, and is synchronised if configured; on failure, exactly when the system refused, the cache stays and the bytes already written are counted |
| Workers.TakenIntoCache | k3-code/src/persistence_worker.cpp:65-88 | taking a frame and appending its samples keeps file, cache and stream in step |
| Workers.PersistenceWorker.TakeOne | k3-code/src/persistence_worker.cpp:126-134 | the oldest queued frame moves into the cache, or nothing exactly when the queue is empty |
| Workers.PersistenceWorker.FlushWhenFull | k3-code/src/persistence_worker.cpp:77-82 | below the threshold nothing happens; from the threshold on the whole cache goes to the file or the failure is counted |
| Workers.PersistenceWorker.PersistLoop | k3-code/src/persistence_worker.cpp:61-84 | ends with the queue empty and a cache below the threshold, or after one failed flush with a cache that had reached it; the stream invariant holds throughout |
| Workers.PersistenceWorker.DrainPendingBlocks | k3-code/src/persistence_worker.cpp:123-140 | takes every queued frame in order; true exactly if no flush failed |
| Workers.PersistenceWorker.Stop | k3-code/src/persistence_worker.cpp:45-59 | after stop the queue is empty and, unless the system ever refused, the file is exactly the samples of the frames taken, in order, and synchronised if configured |
| PipelineProofs.PersisterKeeps | k3-code/src/persistence_worker.cpp:61-140 | every persistence move keeps: file, unsent cache and frame in hand make up the stream taken so far |
| PipelineFlushes.FlushPolicy | k3-code/src/persistence_worker.cpp:61-140 | in every reachable state: a write outside the close is of a cache that has reached the threshold, and between two rounds the cache is below it |
| PipelineFlushes.FailuresAreRefusals | k3-code/src/persistence_worker.cpp:95-110 | over every run the failed flushes are the hard write errors and, if synchronisation is configured, its failures |
| PipelineProofs.MoveKeeps | k3-code/src/main.cpp:30-62 | every move of any thread of the whole system keeps the invariant of all stages and the stop order |
| PipelineTheorems.Ledger | k3-code/src/frame_dispatcher.cpp:36-65 | in every reachable state: received = malformed + dropped + accepted, accepted = taken + queued, taken = accepted + dropped for each of the two queues, up to one frame in flight |
| PipelineTheorems.OrderKept | k3-code/src/frame_dispatcher.cpp:36-65 | both consumers see subsequences of the descriptor stream, and no null frame enters a queue |
| PipelineTheorems.GapsExplained | k3-code/src/frame_dispatcher.cpp:49-56 | sequence_gap is exact, and with a consecutive source never exceeds malformed + dropped at ingress |
| PipelineTheorems.FileIsPrefix | k3-code/src/persistence_worker.cpp:61-114 | at every moment of a run whose failed flushes wrote nothing the file is a prefix of the accepted stream |
| PipelineTheorems.FileIsStream | k3-code/src/persistence_worker.cpp:45-59 | after the stop the file is exactly the samples of the frames the queue accepted when no flush failed; in general, once the cache is empty, exactly when failed flushes had written nothing |
| HardErrors.HardErrorSpoilsFile | k3-code/src/persistence_worker.cpp:97-113 | once a hard error has cut a flush short after its first byte, no continuation that writes out its cache closes with the right file |
| HardErrors.RetryResends | k3-code/src/persistence_worker.cpp:97-113 | such a file is reached: in every configuration with room for one frame, n bytes and a hard error, then the stop, leave those n bytes twice |
| PipelineTheorems.NothingStranded | k3-code/src/main.cpp:57-62 | the dispatcher ends with ingress empty; when the file is closed the persist queue is empty and all its frames were taken |
| PipelineShutdown.DispatcherEnds | k3-code/src/frame_dispatcher.cpp:37-42 | from the joined transport on, every run of the system has at most as many dispatcher moves as the measure of ingress length and round says, and two more for each stale empty answer |
| PipelineShutdown.DispatcherCanMove | k3-code/src/frame_dispatcher.cpp:37-42 | and until done it can always move |
| PipelineShutdown.PersisterEnds | k3-code/src/persistence_worker.cpp:45-64 | from the joined dispatcher on, every run has a bounded number of moves of the loop, the drain and the last flush together, EINTR and empty writes not counted |
| PipelineShutdown.PersisterCanMove | k3-code/src/persistence_worker.cpp:45-64 | and the worker can always make such a move until closed |
| RingPipeline.MoveSimulated | k3-code/src/main.cpp:30-62 | with each push, pop and size estimate taken apart into its atomic accesses, every move of a thread over the three rings is silent or one move of the pipeline |
| RingPipeline.ThreadsRefinePipeline | k3-code/src/main.cpp:30-62 | so every state the threads reach over the rings, with stale indices, stands for a reachable state of the pipeline |
| RingPipeline.RingsFileIsStream | k3-code/src/persistence_worker.cpp:45-59 | and the file is exactly the stream of what the persist ring accepted, when no flush failed |
| RingRealizes.MoveRealized | k3-code/src/main.cpp:30-62 | conversely every move of the pipeline with an exact answer is made by the threads over the three rings in finitely many atomic accesses |
| RingRealizes.RingsRealizePipeline | k3-code/src/main.cpp:30-62 | so every run of the pipeline with exact answers is a run of the threads over the rings |
| FrameDelivery.FrameCarried | k3-code/src/main.cpp:30-62 | one well-formed descriptor is carried from the transport into file and cache, and all stages are at rest again |
| FrameDelivery.FramesReachFile | k3-code/src/persistence_worker.cpp:45-59 | for every configuration with room for a frame and every list of well-formed descriptors some run of the threads over the rings closes a file with exactly their areas, in order |
| MemSnoop.SizeToBucket | ebpf-code/bpf/mem.bpf.c:65-75 | the buckets split the sizes at 64·4^b |
| MemSnoop.MemSnoopMaps.TraceAlloc | ebpf-code/bpf/mem.bpf.c:98-167 | a handler nobody interrupts has the effect of one allocation event on all maps |
| MemSnoop.MemSnoopMaps.TraceFree | ebpf-code/bpf/mem.bpf.c:177-226 | the same for a free, which reports the size of the live entry or 0 |
| MemSnoop.TableBounded | ebpf-code/bpf/mem.bpf.c:105-146 | key 0 is never stored and the table never exceeds its capacity |
| MemSnoop.TableIsReplay | ebpf-code/bpf/mem.bpf.c:98-207 | after any run the table is the replay of the run, including at capacity |
| MemSnoop.LiveIffLastAllocated | ebpf-code/bpf/mem.bpf.c:98-207 | below capacity a pointer is present exactly if its last handled event allocated it, with that size, time, pid and stack |
| MemSnoop.FreeReportsLastSize | ebpf-code/bpf/mem.bpf.c:193-197 | below capacity a free reports the last allocation's size, or 0 after a free |
| MemSnoop.NeverSeenIsAbsent | ebpf-code/bpf/mem.bpf.c:105-207 | a pointer no handled event was about is absent, and its free reports 0 |
| MemSnoop.OnlyTheTarget | ebpf-code/bpf/mem.bpf.c:77-113 | over every run with a target pid no other pid has an entry or an allocation in the table |
| MemSnoop.HandledExactly | ebpf-code/bpf/mem.bpf.c:77-113 | handled are exactly events with a pointer, a size if allocations, and a pid that passes the filter; each is counted once, all others change nothing |
| MemSnoop.RecordedUnlessFull | ebpf-code/bpf/mem.bpf.c:140-146 | a handled allocation is in the table with its size, time, pid and stack, unless 65536 other pointers are |
| MemSnoop.AttributedUnlessFull | ebpf-code/bpf/mem.bpf.c:116-128 | its pid's count and bytes grow, or start, unless 10240 other pids have entries |
| MemSnoop.CountsAreExact | ebpf-code/bpf/mem.bpf.c:130-166 | over every run the total is the number of handled events whose reservation succeeded, the drops those whose reservation failed, and every bucket counts its allocations |
| MemSnoop.BytesConserved | ebpf-code/bpf/mem.bpf.c:115-207 | over every run: allocated + unattributed allocations = freed + unattributed frees + live + overwritten + rejected bytes, over all pids together |
| MemSnoop.NetIsLive | ebpf-code/bpf/mem.bpf.c:115-207 | without corrections the net bytes of all pids are the live bytes |
| MemSnoop.OnePidMayGoNegative | ebpf-code/bpf/mem.bpf.c:200-204 | three events after which a pid has freed more than it allocated |
| PidLedger.PidConserved | ebpf-code/bpf/mem.bpf.c:115-207 | over every run and for every pid: allocated + unattributed = live + overwritten + rejected + freed by itself + freed by others; freed + unattributed = its own + others' |
| PidLedger.PidCounts | ebpf-code/bpf/mem.bpf.c:116-204 | over every run a pid's two counts are those of its allocations and frees that found an entry, or room for one |
| PidLedger.NetIsLiveExactly | ebpf-code/bpf/mem.bpf.c:115-207 | a pid's net bytes are its live bytes exactly if the other items cancel; without corrections, exactly if others freed as much of its memory as it freed of theirs |
| PidLedger.OverFreedExactly | ebpf-code/bpf/mem.bpf.c:115-207 | they are negative exactly if it freed more of others' memory than all it still accounts for |
| PidLedger.NothingForeignExactly | ebpf-code/bpf/mem.bpf.c:193-204 | a pid has freed nothing of others' exactly if each of its frees that found an entry found its own |
| PidLedger.NeverNegative | ebpf-code/bpf/mem.bpf.c:115-207 | such a pid is never negative while its allocations found a pid entry |
| MemSnoopRace.MoveKeeps | ebpf-code/bpf/mem.bpf.c:98-226 | every map operation of any of K handlers in flight keeps the counting invariants |
| MemSnoopRace.CountFallsShortByLessThanHandlers | ebpf-code/bpf/mem.bpf.c:116-128 | a pid's alloc_count falls short of its processed allocations by at most K − 1; a pid without an entry has lost none while the map is not full |
| MemSnoopRace.BoundReached | ebpf-code/bpf/mem.bpf.c:116-128 | for every K some run loses K − 1 counts |
| MemSnoopRace.QuiescentCounts | ebpf-code/bpf/mem.bpf.c:87-166 | with no handler in flight the total is the number of handled events whose reservation succeeded, the drops are those whose reservation failed, and the histogram sum is that of allocations |
| MemSnoopRace.AloneAllocIsHandle | ebpf-code/bpf/mem.bpf.c:98-167 | an uninterrupted allocation handler of the step model equals the one-step model |
| MemSnoopRace.AloneFreeIsHandle | ebpf-code/bpf/mem.bpf.c:177-226 | the same for a free |
| RaceBytes.MoveBalances | ebpf-code/bpf/mem.bpf.c:98-226 | every map operation of any handler keeps four byte accounts: attributed, stored, counted and deleted |
| RaceBytes.BytesAccountedFor | ebpf-code/bpf/mem.bpf.c:98-226 | in every state of every interleaving each allocated byte and each freed size is in exactly one place, bytes in flight included |
| RaceBytes.QuiescentBytes | ebpf-code/bpf/mem.bpf.c:115-207 | with no handler in flight: allocated + lost + unattributed + phantom = freed + unattributed + live + overwritten + rejected + missed, where phantom and missed bytes come from entries that changed between the reading of the size and the deletion |
| RaceBytes.SizeCountedTwice | ebpf-code/bpf/mem.bpf.c:193-207 | phantom bytes are reached: two frees of one pointer that both read its size before either deletes it count it twice |
| RaceBytes.ApartLosesNothing | ebpf-code/bpf/mem.bpf.c:193-207 | as long as no two handlers in flight work on one pointer, no byte is phantom or missed |
| Symbols.SymbolTable.SymbolsLoad | ebpf-code/user/symbol.c:34-121 | the stored symbols are exactly the parsed and copied lines up to the first one without room; the table afterwards has exactly their addresses, once each; -2 exactly if every line looked at has address zero |
| Symbols.SymbolTable.ReadLines | ebpf-code/user/symbol.c:59-86 | growth by doubling loses nothing; reading stops at the first parsed line that finds no room |
| Symbols.CopiedOfOne | ebpf-code/user/symbol.c:64-85 | a line leaves its address and name if it parses and its name is copied, otherwise nothing |
| Symbols.CopiedJoins | ebpf-code/user/symbol.c:59-86 | what lines leave is what each leaves, in order |
| Symbols.SymbolTable.Deduplicate | ebpf-code/user/symbol.c:105-115 | in place: the first of every run of equal addresses is kept, every other name freed once |
| Symbols.TableOfStored | ebpf-code/user/symbol.c:103-115 | sorting and dropping repeats gives a strictly sorted table of exactly the stored addresses |
| Symbols.KeptOrRepeated | ebpf-code/user/symbol.c:105-115 | every symbol is either kept or freed, once |
| Symbols.FirstsEndAtLast | ebpf-code/user/symbol.c:107-109 | comparing with the last kept symbol is comparing with the previous one |
| Symbols.FirstsAreFirst | ebpf-code/user/symbol.c:105-115 | kept are exactly the symbols whose address is not that of the symbol before them |
| Symbols.SymbolTable.SymbolsLoaded | ebpf-code/user/symbol.c:170-173 | loaded exactly if some symbol was stored |
| Symbols.SymbolTable.SymbolsFree | ebpf-code/user/symbol.c:123-136 | afterwards every copy of a name ever made has been freed exactly once |
| Symbols.ScanBestIsGreatest | ebpf-code/user/symbol.c:149-168 | the linear scan finds the greatest stored address at or below the query, and nothing only if there is none |
| Symbols.SymbolTable.FindLast | ebpf-code/user/symbol.c:149-162 | the binary search finds the last entry at or below the query |
| Symbols.BestIsResult | ebpf-code/user/symbol.c:149-168 | that entry has the address the linear scan of the stored lines finds |
| Symbols.SymbolTable.SymbolResolve | ebpf-code/user/symbol.c:138-168 | the name belongs to a stored symbol with the scan's address; nothing exactly if there is none, no table, address 0 or all addresses zero |
| Symbols.ZeroTableAnswers | ebpf-code/user/symbol.c:64-86 | two lines after which only address zero is stored and the status is still loaded, so every query finds it |
| WavReader.DecodePcm24IsSigned | k3-code/src/playback_bypass.cpp:25-33 | the shifts, masks and sign extension are 24-bit two's complement |
| WavReader.SamplesRoundTrip | k3-code/src/playback_bypass.cpp:121-140 | decoding undoes encoding at 16, 24 and 32 bits, for every run of samples |
| WavReader.SamplesAreFractions | k3-code/src/playback_bypass.cpp:121-145 | of any accepted file: channels and rate nonzero, some samples, every one at least −1 and below 1 |
| WavReader.ScaleIsWidthFree | k3-code/src/playback_bypass.cpp:25-33 | the fraction a sample stands for is the same at 16, 24 and 32 bits, and the most negative sample of each width is −1 |
| WavReader.WidthDoesNotMatter | k3-code/src/playback_bypass.cpp:121-140 | files of the same sound with 16, 24 and 32 bits are read as the same samples |
| WavReader.Layout | k3-code/src/playback_bypass.cpp:84-92 | where format, channels, rate and bits are in a fmt chunk, byte by byte |
| WavReader.ChunksAreEven | k3-code/src/playback_bypass.cpp:96-111 | after name and size a chunk takes its bytes rounded up to an even number |
| WavReader.SmallestFileRead | k3-code/src/playback_bypass.cpp:52-146 | of every 46-byte file with one 16-bit sample: what is read is the two's complement value of the last two bytes over 32768 |
| WavReader.WalkChunk | k3-code/src/playback_bypass.cpp:76-112 | one written chunk of any kind, padded or not, is read back whole, whatever follows |
| WavReader.ReadingUndoesWriting | k3-code/src/playback_bypass.cpp:52-146 | for every list of fmt, data and unknown chunks in any order the result is determined by the last fmt and the last data chunk; fewer than 8 trailing bytes are ignored |
| WavReader.SamplesSurvive | k3-code/src/playback_bypass.cpp:52-146 | rate, channels and samples written are the ones read, each as the fraction of full scale of ScaleIsWidthFree |
| WavReader.LastPaddingMayBeMissing | k3-code/src/playback_bypass.cpp:109-111 | the pad byte of the last chunk may be absent |
| WavReader.AcceptedExactly | k3-code/src/playback_bypass.cpp:114-145 | a written file is accepted exactly if format 1, channels, rate, bits 16/24/32 and one whole sample are there |
| WavReader.EmptyDataHidesEarlier | k3-code/src/playback_bypass.cpp:99-116 | an empty data chunk at the end makes the reader refuse a file with samples |
| WavReader.ReadChunk | k3-code/src/playback_bypass.cpp:77-111 | one round of the loop over the stream is one step of the walk |
| WavReader.ReadWav | k3-code/src/playback_bypass.cpp:52-146 | the loop over the stream equals the parser, on every byte string |
| WavReader.DecodeSamples | k3-code/src/playback_bypass.cpp:121-140 | the sample loops, an incomplete last sample ignored |
| WavReader.InputFile.ReadExact | k3-code/src/playback_bypass.cpp:14-18 | a value exactly if enough bytes are left |
| WavReader.InputFile.SkipBytes | k3-code/src/playback_bypass.cpp:20-23 | skipping past the end succeeds |
| Playback.Device.PlayWithAlsa | k3-code/src/playback_bypass.cpp:176-222 | when played the device has heard exactly the whole frames, in order and once, however it split them; at every exit, also while still waiting, a beginning of them |
| Playback.Device.PlayWavFile | k3-code/src/playback_bypass.cpp:38-50 | refused files and failed resampling play nothing; otherwise the whole frames of the samples at the device's rate |
| Playback.PcmFits | k3-code/src/playback_bypass.cpp:198-201 | every converted sample is between −32767 and 32767 |
| Playback.PcmExactly | k3-code/src/playback_bypass.cpp:198-201 | within full scale the next step towards zero of 32767 times the sample, the end of the range beyond it, odd |
| Playback.MostFrames | k3-code/src/playback_bypass.cpp:203-203 | all samples but fewer than one frame are played |
| Playback.PcmOfSixteenBits | k3-code/src/playback_bypass.cpp:198-201 | a nonzero 16-bit sample leaves one step closer to zero |
| Playback.BypassOfSixteenBits | k3-code/src/playback_bypass.cpp:121-201 | so does a whole 16-bit file |
| LeakStats.VisitsAll | ebpf-code/user/stats.c:170-177 | the walk from key 0 visits every key exactly if the map does not hold key 0 |
| LeakStats.MergeIsExact | ebpf-code/user/stats.c:186-204 | merging one item keeps every group exact: bytes, count and oldest age of all items of its stack |
| LeakStats.Merge | ebpf-code/user/stats.c:353-374 | the search loop and the update in place |
| LeakStats.OldestIsMaximum | ebpf-code/user/stats.c:361-361 | the age kept is one of the group and none is greater |
| LeakStats.KeptIdsAppear | ebpf-code/user/stats.c:198-204 | each stack has at most one group, and below 128 groups none is missing |
| LeakStats.CompleteExactly | ebpf-code/user/stats.c:198-204 | every stack has its group exactly if at most 128 stacks appear |
| LeakStats.KeptExactly | ebpf-code/user/stats.c:367-374 | a stack has a group exactly if fewer than 128 other stacks appeared before its first item |
| LeakStats.LateStackIsLost | ebpf-code/user/stats.c:367-374 | a new stack after 128 others leaves all groups as they were, whatever its size |
| LeakStats.GroupsConserveBytes | ebpf-code/user/stats.c:186-204 | the groups together hold the bytes of the items that have a group, each once |
| LeakStats.GroupOfPermutation | ebpf-code/user/stats.c:186-204 | a group does not depend on the order of the items |
| LeakStats.OrderDoesNotMatter | ebpf-code/user/stats.c:319-377 | any two walks over one table give the same groups, with at most 128 stacks |
| LeakStats.RunsReportAlike | ebpf-code/user/stats.c:319-377 | this holds for the table after any run of handlers |
| LeakStats.ShownAreTop | ebpf-code/user/stats.c:215-221 | what is printed is in descending order and no smaller than anything left out, for every order a sort may give equal sizes |
| LeakStats.TrueTop | ebpf-code/user/stats.c:215-221 | with at most 128 stacks the groups printed are exact and no stack of the table left out holds more |
| LeakStats.StackGroupOfTable | ebpf-code/user/stats.c:170-204 | a stack's group in the stack report has the bytes and the number of the table's allocations with its identifier |
| LeakStats.LeakGroupOfTable | ebpf-code/user/stats.c:319-377 | in the leak report, of those made before now, at least the minimum age ago and of at least the minimum size; its age is that of the oldest |
| LeakStats.StackTop | ebpf-code/user/stats.c:165-221 | the whole stack report over any iteration order |
| LeakStats.LeakSuspects | ebpf-code/user/stats.c:304-389 | the whole leak report: only allocations strictly in the past, old and large enough; returns the number of groups |
| PidReport.OrderIsRightExactly | ebpf-code/user/stats.c:23-35 | below 2^63 bytes the comparison in 64-bit unsigned arithmetic agrees with the bytes really held exactly if both pids or neither freed more than it allocated |
| PidReport.WrongOrderReached | ebpf-code/user/stats.c:23-35 | after three events a pid that holds less is put first |
| PidReport.OverFreedComeFirst | ebpf-code/user/stats.c:68-75 | in the report all over-freed pids come first, and within each kind the order is right |
| PidReport.CollectedExactly | ebpf-code/user/stats.c:43-60 | collected are pids of the walk with their numbers, each once, 128 of them or all if there are fewer |
| PidReport.PidStatsTop | ebpf-code/user/stats.c:37-91 | the whole process report over any iteration order: the first 128 pids of the walk, sorted, and the beginning shown |

## Left out

- Floating point: samples and thresholds are exact reals, spectrum slots exact ring elements; π, the cosine, the logarithm, the magnitude and the stage roots are parameters of `DspEngine.Arithmetic`, and what is used of them is stated as laws (`CosineLaws`, `LogarithmLaws`, `Suits`). The rounding of 32-bit samples to float is not modelled.
- Counters, byte totals and capacities are unbounded: the wrap-around of 64-bit counters and of `sym_capacity` is not modelled. The wrapped difference in the process report is, in `PidReport`.
- DspEngine.FloorPow2: asks for n below 2^63, because above it the shift would wrap and the loop would not end; no vector is that long.
- DspEngine.DspEngineWorker.ProcessBlock: asks for fewer than 2^63 samples for the same reason.
- DspEngine.DspEngineWorker.DspLoop: takes the answers of the queue until the stop as a list; that the answers are those of a bounded queue is in `Pipeline`.
- LeakStats.StackTop: its groups carry an oldest age of zero, a field the stack report does not have.
- Frames.BuildFrame: asks for a shared memory of at most 2^63 bytes, with a 64-bit size type and a little-endian host.
- Workers.PersistenceWorker.FlushCache: follows the write loop through finitely many EINTR answers and empty writes (the patience parameter); the loop in the source has no bound. The same holds for the idle rounds of Workers.PersistenceWorker.PersistLoop and Workers.FrameDispatcher.DispatchLoop.
- Playback.Device.PlayWithAlsa: follows the loop until the device has made no progress a given number of times, and says that it is still waiting; the source would go on.
- Workers.FrameDispatcher.DispatchLoop and Workers.PersistenceWorker.PersistLoop: other threads act between rounds there, not between the statements of one round; every interleaving of single accesses is in `RingPipeline`.
- A stage's counter changes together with the queue operation it counts; a reader of the statistics between the two is not modelled.
- That a thread which has synchronised with the end of another reads that thread's newest index is an assumption of `RingPipeline`, taken from the release and acquire operations and the joins at shutdown.
- The analysis worker stops without draining its queue, as in the source; frames left there are only counted (`PipelineTheorems.Ledger`).
- A failed flush ends the persistence loop while the dispatcher goes on; frames dropped because of it appear as persist-queue drops.
- A reader of the transport's shared memory sees it as it is at the moment of the copy; a writer changing it during the copy is not modelled.
- Opening, polling, mapping and closing of devices and files, thread priorities and sleeping are not modelled; their results are free choices.
- The destructors and repeated start or stop of a worker are not modelled.
- Handlers of MemSnoop read an entry's size in one move; the histogram is the sum over the CPUs; stack-id hashing, the event ring and the kernel's map implementation are free choices of the environment.
- A pid's free counts under interference are not bounded, as a free does not insert an entry.
- The walks of the reports see a fixed set of keys, of which some may have gone when they are looked up. A key deleted just before the walk asks for the one after it makes the kernel start again from the first key, so that entries are counted twice; that is not modelled.
- `print_histogram`, the text output, size and age formatting, command line and symbol status messages only print.
- Resampling to another rate is an outside library, a parameter of Playback.Device.PlayWavFile; ALSA configuration is not modelled.
- The Qt window and its one-slot mailbox, the Go and Next.js application, the scraper and the notes are not modelled: easy members or no logic.
