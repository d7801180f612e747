# Verified model of the streaming library's stateful core

This project models, in Dafny, the parts of the library that keep state, count bits or hand work
between threads, and proves that each of them refines something much simpler:

- the reorder queue (`SeqNum`, `ReorderSpec`, `ReorderElements`, `ReorderQueue`, `ReorderRuns`): a ring over wrapping
  sequence numbers refines a window of optional elements over unbounded numbers; conservation and
  in-order delivery are theorems about whole runs of that window, and of the ring;
- the key stream (`Counter`, `KeyState`, `KeyStream`, `KeyRing`): the cache that a background thread
  fills agrees with the direct generator in every interleaving;
- frame assembly (`FrameSpec`, `FrameProcessor`): any k of k+m units give the frame, through erasure
  correction and compaction in place, and fewer never count as one;
- controller feedback (`History`, `Controller`, `FeedbackSender`): states become events, events
  become packets that repeat the newest 16, and a receiver rebuilds what the controller shows;
- the control channel (`ControlStream`, `ControlHandoff`): framing with lockstep counters, and the
  hand-off between threads through a mutex, a queue and a pipe;
- H.265 slice headers (`SliceSpec`, `SliceSyntax`, `SliceHeader`): a reader that stops at start codes and
  removes emulation prevention, the proof that it reads exactly the fields that were written, a patch of
  the reference flags in memory, and exactly when the parser reads back what was patched;
- Base64 text (`Base64`).

`Modular`, `Bytes`, `Sequences` and `Wrappers` hold the arithmetic and the small types they share.
Code that updates fields or buffers in place is a class or a method over arrays, and is proved
against a function on values; the theorems about runs, interleavings and round trips are lemmas
about those functions.

Where the code departs from what its comments or callers suggest, the code is modelled as it is and
the exact condition is proved:

- `seq_num_16_add` adds promoted integers, so the sum is not cut back to 16 bits and a 16-bit queue
  misreads a push just at the wrap (`ReorderQueue.MisreadAtWrap`, `ReorderRuns.MisreadByOrder`,
  `ReorderRuns.MisreadRun`); 32-bit queues do not. Where assertions are compiled out, as in the
  repository's own release builds, this is harmless but for one case, in which an element is
  overwritten and reported to nobody (`ReorderRuns.OverwritesExactly`, `ReorderRuns.OverwriteRun`).
- `chiaki_reorder_queue_drop` reports an element but leaves its slot set, so it can be delivered
  later (`ReorderSpec.ConservationAtTeardown`).
- `counter_add` loses the carry out of 64 bits (`Counter.CounterAddIsAddition`), and the block
  counter is an `int` (`KeyStream.CounterModeRange`).
- A touch slot that goes from one live id to another reports only the end of the first, and merged
  controllers can hold one id twice, which one of them then ends for both
  (`Controller.TouchStepExact`, `Controller.ReplayRunExact`, `Controller.MergedLosesTouch`).
- The video receiver ignores the error of a failed alloc and goes on with a half-updated geometry
  (`FrameProcessor.FrameProcessor.AfterFailedAlloc`).
- The receive loop of the control channel adds a declared length and the header's in 32 bits, which
  wraps for lengths from 2^32 - 8 on, and then goes on beyond its buffer
  (`ControlStream.StatusExact`, `ControlStream.WrappedExample`).
- Sending a PIN resets the pipe before a requested stop is looked at (`ControlHandoff.StopExact`),
  and a signal that comes after its message was taken leaves the pipe set
  (`ControlHandoff.SpinningExact`).
- A failed slice patch has already cleared the flags it passed, if any was set
  (`SliceSpec.FailedPatchOfExact`, `SliceSpec.FailedPatchExample`).
- A slice patch adds no emulation prevention to what it changes, so it can make a start code or what
  looks like emulation prevention (`SliceSpec.ReadBackForeseen`, `SliceSpec.EscapesForeseen`,
  `SliceSpec.PatchMakesStart`).
- Cutting a short unit off at the next start code leaves the reader's data pointer behind the unit, and
  the patch, which counts back from that pointer, then writes to the wrong place
  (`SliceHeader.Reader.Limit`, `SliceSpec.PatchedUnit`, `SliceSpec.PatchMissesShortUnit`).

To verify everything: `dafny verify dfyconfig.toml`.

## Model

| member | source | states |
|---|---|---|
| `SeqNum.SerialDistance` | lib/include/chiaki/seqnum.h:21-37 | the two comparisons see only the distance of the numbers modulo 2^bits: less-than holds iff it is above 0 and below half the range |
| `SeqNum.SerialOrder` | lib/include/chiaki/seqnum.h:21-37 | numbers less than half the range apart compare exactly as the unbounded numbers behind them, over any number of wraps (section 3.2 of RFC 1982) |
| `ReorderSpec.PushBalance` | lib/src/reorderqueue.c:63-127 | one push, accepted, rejected or dropping from the front, keeps the multiset: held after plus handed to the callback equals held before plus the new element |
| `ReorderSpec.StepBalance` | lib/src/reorderqueue.c:48-188 | every operation of the queue keeps the conservation of elements |
| `ReorderSpec.Conservation` | lib/src/reorderqueue.c:48-188 | over any run of pushes with either strategy, pulls and drops, with or without assertions: pushed plus kept-although-reported equals pulled plus reported plus overwritten plus held, and pulled numbers strictly increase |
| `ReorderSpec.KeptExactly` | lib/src/reorderqueue.c:163-188 | an element is reported although it stays, exactly for each explicit drop that finds one in its slot |
| `ReorderSpec.LostExactly` | lib/src/reorderqueue.c:63-124 | an element is overwritten and reported to nobody, exactly for each push of the first number of the window that is misread while its element waits |
| `ReorderSpec.ConservationAtTeardown` | lib/src/reorderqueue.c:48-188 | after the final teardown, pulled plus reported equals pushed if and only if no explicit drop of the run found an element (when no push overwrote one), and if and only if no push overwrote one (when no drop found one) |
| `ReorderSpec.DropReportsThenDelivers` | lib/src/reorderqueue.c:163-188 | a run in which an element is reported as dropped and then delivered |
| `ReorderSpec.PushTracks` | lib/src/reorderqueue.c:63-121 | a number less than a queue length ahead of the first missing one is always kept, whatever the strategy |
| `ReorderSpec.DryTracks` | lib/src/reorderqueue.c:129-146 | pulling dry delivers exactly the unbroken sequence up to the first missing number |
| `ReorderSpec.DeliverPrefix` | lib/src/reorderqueue.c:63-146 | at every moment of an admissible run nothing is dropped and the deliveries are the unbroken sequence so far |
| `ReorderSpec.InOrderDelivery` | lib/src/reorderqueue.c:63-146 | n consecutive numbers, each pushed once in an order where none comes while one a queue length behind is missing, come out in order, nothing is dropped and nothing stays, for unbounded n |
| `ReorderElements.PushAt` | lib/src/reorderqueue.c:63-127 | what one push does to every number: an accepted element takes its place, a number that does not fit moves the start just as far as it must, or to itself when nothing would be left, and every number from the start on keeps the element it had |
| `ReorderElements.PushReports` | lib/src/reorderqueue.c:63-127 | the pushed element itself is reported if it is not accepted, also when its number is waiting already; otherwise exactly the elements before the new start are, lowest number first |
| `ReorderElements.PullExact` | lib/src/reorderqueue.c:129-146 | a pull delivers the element at the start of the window if there is one, and nothing else is ever delivered |
| `ReorderElements.DropExact` | lib/src/reorderqueue.c:163-188 | a drop reports the element that waits at its number, if there is one, and changes nothing else |
| `ReorderElements.StrategyIs` | lib/src/reorderqueue.c:25 | the strategy is the one last set, and to drop what does not fit in a new queue |
| `ReorderElements.AcceptedOnce` | lib/src/reorderqueue.c:63-146 | in a run that overwrites nothing each number is accepted at most once |
| `ReorderElements.FirstAccepted` | lib/src/reorderqueue.c:63-146 | in such a run the element delivered for a number, or still waiting, is the first one accepted with that number and the only one |
| `ReorderQueue.ArithLawful` | lib/src/reorderqueue.c:34-46 | both instantiations of the comparison and addition functions meet the laws the ring needs, for rings up to a quarter of the range |
| `ReorderQueue.MisreadAtWrap` | lib/src/reorderqueue.c:34-46 | a 16-bit queue misreads a push in exactly two cases at the wrap, because the promoted sum is not cut back to 16 bits: the start itself, when the start was moved to 0 modulo 2^16 and something waits behind it; and the number right after a window that ends at 2^16 or beyond |
| `ReorderQueue.Queue.constructor` | lib/src/reorderqueue.c:16-43 | an empty window at the start number |
| `ReorderQueue.Queue.Push` | lib/src/reorderqueue.c:63-127 | the ring with its stale flags computes the push of the window model; with assertions compiled in, line 82 fails exactly for misread numbers; without them the only push that differs overwrites the first element |
| `ReorderQueue.Queue.PushAhead` | lib/src/reorderqueue.c:84-121 | a number at or after the end: reject, drop from the front, or extend, as the window model does; the misread first number is stored over the element in its slot |
| `ReorderQueue.Queue.DropOne` | lib/src/reorderqueue.c:95-101 | gives up the first slot and reports what it held |
| `ReorderQueue.Queue.DropFirst` | lib/src/reorderqueue.c:92-106 | exactly as many slots are dropped as the new number needs, or all, their elements are reported in order, and an emptied queue moves to the new number |
| `ReorderQueue.Queue.DropOverrun` | lib/src/reorderqueue.c:92-102 | the loop stops exactly when the number fits or nothing is left |
| `ReorderQueue.Queue.MoveEnd` | lib/src/reorderqueue.c:109-117 | the loop clears every slot it enters, so stale flags never show |
| `ReorderQueue.Queue.EnterSlot` | lib/src/reorderqueue.c:113-116 | one slot more, cleared |
| `ReorderQueue.Queue.Fill` | lib/src/reorderqueue.c:119-121 | stores an element in the slot of its number |
| `ReorderQueue.Queue.Append` | lib/src/reorderqueue.c:109-121 | a number behind the end extends the window with empty slots and its element |
| `ReorderQueue.Queue.MoveBegin` | lib/src/reorderqueue.c:98-99 | the start moves by one, and the stored number becomes the low bits of the one before plus one |
| `ReorderQueue.Queue.Pull` | lib/src/reorderqueue.c:129-146 | delivers the first element of the window if it has arrived, with its wrapped number |
| `ReorderQueue.Queue.PullAll` | lib/src/reorderqueue.c:129-146 | repeated pulls deliver what the model delivers when pulled dry |
| `ReorderQueue.Queue.Peek` | lib/src/reorderqueue.c:148-161 | finds the element at an offset exactly when it has arrived, and changes nothing |
| `ReorderQueue.Queue.Drop` | lib/src/reorderqueue.c:163-188 | reports the element and leaves the queue as it was; the trimming loop never runs |
| `ReorderQueue.Queue.Fini` | lib/src/reorderqueue.c:48-61 | reports everything still held, in order |
| `ReorderQueue.SumsCanonical32` | lib/src/reorderqueue.c:37 | every 32-bit sum is its own low bits, so a 32-bit queue misreads no push |
| `ReorderRuns.RunOne` | lib/src/reorderqueue.c:63-188 | one operation on the ring is one step of the window model, unless it is a push that is misread and the assertion that then fails is compiled in |
| `ReorderRuns.RunAndTearDown` | lib/src/reorderqueue.c:48-188 | any run of the ring itself and its teardown: it goes through if and only if no push is misread or assertions are compiled out; each pushed element is pulled or handed to the callback exactly once if and only if no explicit drop found an element and no push overwrote one |
| `ReorderRuns.OverwritesExactly` | lib/src/reorderqueue.c:63-124 | a push overwrites an element just without assertions, on a 16-bit queue whose start was moved by one to 0 modulo 2^16, when the number of the start comes again while its element waits |
| `ReorderRuns.OverwriteRun` | lib/src/reorderqueue.c:63-146 | a 16-bit queue without assertions that loses an element in this way |
| `ReorderRuns.StateByOrder` | lib/src/reorderqueue.c:63-146 | in an admissible run the window starts at the first missing number and ends behind the largest one, whatever the order was |
| `ReorderRuns.MisreadByOrder` | lib/src/reorderqueue.c:63-82 | which push of an admissible run a 16-bit queue misreads, by the first missing and the largest number so far alone |
| `ReorderRuns.InOrderNeverMisread` | lib/src/reorderqueue.c:63-146 | numbers that arrive in order are never misread, also across wraps and from any stored start |
| `ReorderRuns.DeliverAll` | lib/src/reorderqueue.c:63-146 | the ring itself, pushed in an admissible order and pulled dry after each push, delivers exactly the unbroken sequence, across any number of wraps, and never calls the drop callback; without assertions always, with them if and only if no push is misread |
| `ReorderRuns.MisreadRun` | lib/src/reorderqueue.c:63-82 | a 16-bit queue, from its constructor to the push that fails the assertion of line 82 |
| `Counter.CounterAddIsAddition` | lib/src/gkcrypt.c:166-179 | counter_add is addition modulo 2^128 if and only if the lowest byte plus the number fits 64 bits |
| `Counter.CountersDiffer` | lib/src/gkcrypt.c:166-179 | different 64-bit numbers give different blocks, also where the 64-bit sum wraps |
| `Counter.LowestFirst` | lib/src/gkcrypt.c:166-179 | the lowest byte of the sum comes first |
| `Counter.CounterAdd` | lib/src/gkcrypt.c:166-179 | the carry loop with its early exit and the copy of the rest leave the bytes of the sum and touch nothing else |
| `KeyState.UnwrapExact` | lib/src/gkcrypt.c:553-565 | exactly which 64-bit positions are returned for their low 32 bits |
| `KeyState.UnwrapNear` | lib/src/gkcrypt.c:553-565 | every position less than 2^31 from the last one, forwards or backwards |
| `KeyState.KeyState.RequestPos` | lib/src/gkcrypt.c:553-565 | computes the unwrapped position and commits it on demand |
| `KeyState.KeyState.Commit` | lib/src/gkcrypt.c:567-570 | remembers a whole position |
| `KeyState.KeyState.Run` | lib/src/gkcrypt.c:548-570 | in any mix of requests, committing or not, and commits, with every requested position less than 2^31 from the last committed one, each request returns its true position |
| `KeyStream.CounterModeRange` | lib/src/gkcrypt.c:247-250 | the block counter is iv plus position / 16, as counter mode asks, exactly for positions below 2^35 |
| `KeyStream.CounterModeDistinct` | lib/src/gkcrypt.c:247-250 | no two blocks of that range share a counter |
| `KeyStream.CounterMode` | lib/src/gkcrypt.c:214-353 | in that range a byte is decrypted with byte position % 16 of the cipher applied to the one block that stands, lowest byte first, for iv plus position / 16 |
| `KeyStream.CryptInvolution` | lib/src/gkcrypt.c:333-353 | decrypting twice gives the data back |
| `Bytes.XorBit` | lib/src/gkcrypt.c:348-349 | a bit of the decrypted byte is set exactly when data and key stream differ in it |
| `KeyStream.CryptSplit` | lib/src/gkcrypt.c:333-353 | decrypting a+b at p equals decrypting a at p and b at p plus its length, aligned or not |
| `KeyStream.StoreCounter` | lib/src/gkcrypt.c:249-250 | one turn of the counter loop extends the counters by a block |
| `KeyStream.EncryptBlock` | lib/src/gkcrypt.c:252-268 | encrypting a block in place turns its counter into key stream |
| `KeyStream.GenKeyStream` | lib/src/gkcrypt.c:214-276 | the two passes produce the direct key stream |
| `KeyRing.DecideOk` | lib/src/gkcrypt.c:522-538 | the decision leaves room for a chunk (so the assertion of line 479 holds), never moves the oldest position back and never shrinks the reach |
| `KeyRing.TurnExact` | lib/src/gkcrypt.c:522-538 | from waking to publishing, whatever is requested in between: a last request beyond the cached range is in the range afterwards, which is then one chunk of 4096; otherwise the range grows by a chunk at its end and loses its first chunk if and only if the ring was full |
| `KeyRing.Settle` | lib/src/gkcrypt.c:505-542 | with no new requests the thread runs out of work after finitely many chunks |
| `KeyRing.SleepsFull` | lib/src/gkcrypt.c:462-475 | it sleeps only with a full ring and the last request at most half a ring ahead; with two chunks or more the ring never lies beyond that request |
| `KeyRing.OneChunkOvertakes` | lib/src/gkcrypt.c:522-538 | with one chunk it can |
| `KeyRing.RequestSignals` | lib/src/gkcrypt.c:290-292 | a reader signals exactly when its request gives a sleeping thread work |
| `KeyRing.NextChunkFree` | lib/src/gkcrypt.c:479-482 | the chunk about to be written does not wrap and meets no readable slot |
| `KeyRing.DecideHolds` | lib/src/gkcrypt.c:522-538 | dropping the oldest chunk or skipping ahead keeps every cached byte right |
| `KeyRing.PublishHolds` | lib/src/gkcrypt.c:490-493 | publishing a written chunk makes the ring agree with the direct key stream on the longer range |
| `KeyRing.WriteKeepsHolds` | lib/src/gkcrypt.c:484-490 | writes without the mutex leave the readable part alone |
| `KeyRing.CopiedBytes` | lib/src/gkcrypt.c:312-323 | one or two pieces of a ring that is right are the direct key stream |
| `KeyRing.GKCrypt.GetKeyStream` | lib/src/gkcrypt.c:283-331 | hit, wrapped hit and miss all return the direct key stream; the last position only grows |
| `KeyRing.GKCrypt.CopyFromRing` | lib/src/gkcrypt.c:312-323 | copying in one or two pieces returns the direct key stream |
| `KeyRing.GKCrypt.Decrypt` | lib/src/gkcrypt.c:333-353 | the buffer is xored in place with the key stream at any position |
| `KeyRing.GKCrypt.WakeUp` | lib/src/gkcrypt.c:505-538 | sleeps on, exits, or decides as `KeyRing.TurnExact` says and begins to write the next chunk |
| `KeyRing.GKCrypt.ChooseChunk` | lib/src/gkcrypt.c:522-538 | skips ahead, drops the oldest chunk of a full ring, or keeps the range, as `KeyRing.TurnExact` says which |
| `KeyRing.GKCrypt.BeginChunk` | lib/src/gkcrypt.c:479-484 | the chunk behind the populated part is free, and the invariant of the cache holds while it is written |
| `KeyRing.GKCrypt.WriteBlock` | lib/src/gkcrypt.c:486 | one block written without the mutex keeps the invariant of the cache |
| `KeyRing.GKCrypt.GenerateFailed` | lib/src/gkcrypt.c:487-541 | a failed generation publishes nothing and ends the thread |
| `KeyRing.GKCrypt.PublishChunk` | lib/src/gkcrypt.c:490-493 | adds the chunk to the populated range |
| `KeyRing.GKCrypt.Turn` | lib/src/gkcrypt.c:505-542 | a whole turn on the fields alone: asleep if and only if the ring is full and the last request at most half a ring ahead; otherwise a chunk is generated where `KeyRing.TurnExact` says |
| `KeyRing.GKCrypt.Run` | lib/src/gkcrypt.c:283-546 | in every interleaving of reads and steps of the thread, each read answers with the direct key stream and the oldest cached position never decreases |
| `FrameSpec.MissingExact` | lib/src/frameprocessor.c:213-229 | the erasure list is the exact ascending list of the empty slots, as long as their number |
| `FrameSpec.GeometryAgrees` | lib/src/frameprocessor.c:67-147 | whichever unit of a well-formed frame arrives first gives the same geometry |
| `FrameSpec.AllocExact` | lib/src/frameprocessor.c:67-147 | alloc_frame fails for less than one byte of data (two for a source unit of a video frame), for more than 256 slots, and when the buffer would need 2^64 bytes or more, and in no other case once there are not more parity units than units |
| `FrameSpec.FirstUnitStays` | lib/src/frameprocessor.c:150-191 | after any packets an empty slot holds the first unit that suited it; filled slots, empty and oversized units and repetitions change nothing |
| `FrameSpec.WireUnit` | lib/src/frameprocessor.c:82-90 | a source unit is two bytes, the higher one first, that say how much it is shorter than the largest one, and its payload |
| `FrameSpec.PutAllHolds` | lib/src/frameprocessor.c:150-191 | after any sequence of puts the slots hold exactly the units that arrived, whatever the order and repetitions |
| `FrameSpec.RepairWorks` | lib/src/frameprocessor.c:231-234 | with at least k of k+m units the erasure code returns the sent word |
| `FrameSpec.ConcatAt` | lib/src/frameprocessor.c:286-305 | in a frame each payload follows those before it |
| `FrameSpec.TrimRestores` | lib/src/frameprocessor.c:246-260 | the padding length in a repaired unit gives its original payload back |
| `FrameSpec.ImpossiblePadding` | lib/src/frameprocessor.c:252-259 | a repaired unit that announces a padding of the whole unit or more is taken as it arrived, and contributes nothing if it did not |
| `FrameSpec.FrameRecovered` | lib/src/frameprocessor.c:67-312 | any k or more of the k+m units, in any order and with repetitions, flush to the payloads in index order; the erasure code is used exactly when a source unit is missing |
| `FrameSpec.FlushOutcome` | lib/src/frameprocessor.c:267-312 | for any units in any order: complete if and only if all source units arrived, repaired if and only if one is missing and at least k different units arrived, failed if and only if fewer did; the frame is then the payloads that arrived, in index order |
| `FrameSpec.FlushWhole` | lib/src/frameprocessor.c:267-312 | for any slots: nothing to flush if and only if no source unit is expected, complete if and only if all source slots are filled, failed with fewer than k filled slots |
| `FrameProcessor.FrameProcessor.constructor` | lib/src/frameprocessor.c:44-59 | no frame, no buffer |
| `FrameProcessor.FrameProcessor.AllocFrame` | lib/src/frameprocessor.c:67-148 | error codes by case; on success an empty frame of the geometry the packet implies, on failure the exact fields that were already taken, with the buffer untouched |
| `FrameProcessor.FrameProcessor.AfterFailedAlloc` | lib/src/frameprocessor.c:67-191 | after a failed alloc every later put stays inside the buffer, unless the packet was rejected for its number of units: then if and only if units of the new size fit into the old buffer at every empty slot; which flushes then stay inside the slots |
| `FrameProcessor.FrameProcessor.TakeGeometry` | lib/src/frameprocessor.c:69-100 | numbers and sizes of units from the first packet |
| `FrameProcessor.FrameProcessor.TakeSlots` | lib/src/frameprocessor.c:102-132 | the slots of the new frame, all empty, unless there are too many; the overflow check |
| `FrameProcessor.FrameProcessor.ClearBuffer` | lib/src/frameprocessor.c:133-145 | the buffer is large enough and its used part is zero |
| `FrameProcessor.FrameProcessor.PutUnit` | lib/src/frameprocessor.c:150-191 | keeps or rejects a unit as the model does; the counters stay equal to the numbers of filled source and parity slots |
| `FrameProcessor.FrameProcessor.CountUnit` | lib/src/frameprocessor.c:185-188 | the counter of the right kind goes up |
| `FrameProcessor.FrameProcessor.StoreUnit` | lib/src/frameprocessor.c:177-183 | the unit lands in its slot, padded with zeros, and no other unit changes |
| `FrameProcessor.FrameProcessor.Erasures` | lib/src/frameprocessor.c:207-229 | builds the list of empty slots; the assertions of lines 222 and 229 cannot fail |
| `FrameProcessor.FrameProcessor.FecDecode` | lib/src/fec.c:17-75 | hands the padded units to the erasure code and lays its result out in the buffer |
| `FrameProcessor.FrameProcessor.RestoreSizes` | lib/src/frameprocessor.c:246-260 | the unit sizes become those the padding fields announce |
| `FrameProcessor.FrameProcessor.Fec` | lib/src/frameprocessor.c:200-265 | buffer and sizes afterwards are those of the model, on success and on failure |
| `FrameProcessor.FrameProcessor.RepairParts` | lib/src/frameprocessor.c:276-284 | erasure correction runs exactly when a source unit is missing; result code and payloads are those of `FrameSpec.FlushOutcome` |
| `FrameProcessor.FrameProcessor.MovePart` | lib/src/frameprocessor.c:289-304 | moving one payload forward never reaches the bytes of a later unit |
| `FrameProcessor.FrameProcessor.Compact` | lib/src/frameprocessor.c:286-305 | compaction in place equals concatenation of the payloads |
| `FrameProcessor.FrameProcessor.Flush` | lib/src/frameprocessor.c:267-312 | result code and frame are those that `FrameSpec.FlushOutcome` and `FrameSpec.FlushWhole` describe |
| `FrameProcessor.FrameProcessor.FlushPossible` | lib/include/chiaki/frameprocessor.h:67-71 | at least as many slots are filled as source units are expected |
| `FrameProcessor.FrameProcessor.ReceiveFrame` | lib/src/frameprocessor.c:67-312 | a whole frame, from the first packet to the flush, with any of its units: the result code by the number of different units, flush_possible if and only if the flush does not fail, and the payloads in index order, of all units or of those that arrived |
| `History.ButtonOctets` | lib/src/feedback.c:87-154 | the octets of the events of all 18 buttons, written out, and no event for any other |
| `History.TouchOctets` | lib/src/feedback.c:156-165 | the octets of a touch that fits: kind, id, and 24 bits with x before y |
| `History.TouchExact` | lib/src/feedback.c:156-165 | a touch survives its encoding if and only if its coordinates fit 12 bits and its id 7 bits |
| `History.ParseOneEncode` | lib/src/feedback.c:87-165 | the first event is read back with its length, whatever follows it |
| `History.ParseEncode` | lib/src/feedback.c:183-199 | the concatenated events are uniquely decodable: a parser that infers lengths 2, 3 or 5 inverts the formatter |
| `History.HistoryBuffer.constructor` | lib/src/feedback.c:167-176 | an empty ring |
| `History.HistoryBuffer.Push` | lib/src/feedback.c:201-208 | the newest event comes first, the oldest falls off a full ring |
| `History.HistoryBuffer.Format` | lib/src/feedback.c:183-199 | succeeds exactly when the events fit, and writes them newest first |
| `Controller.EventsExact` | lib/src/feedbacksender.c:163-236 | exactly what changed between two states is reported: each of 16 buttons and two triggers once, in order, and then the slot that gives up its touch or places it |
| `Controller.SameHistoryNoEvents` | lib/src/feedbacksender.c:130-145 | states that compare equal for the history have no events between them |
| `Controller.EventsSurviveWire` | lib/src/feedbacksender.c:163-236 | everything the sender emits survives the wire while touches stay on a 12-bit pad |
| `Controller.ReplayStep` | lib/src/feedbacksender.c:163-236 | replaying the events of one iteration makes buttons, L2 and R2 right and says what becomes of the touches |
| `Controller.TouchStepExact` | lib/src/feedbacksender.c:214-235 | the touches are right after an iteration if and only if no slot switches between two live ids, none ends a touch the other slot holds afterwards unless it is placed again, and a touch held by both slots is where the first one has it whenever only the second one reports it; states that hold an id twice included |
| `Controller.ReportedOnce` | lib/src/feedbacksender.c:214-235 | for states that hold no id twice: no slot switches between two live ids and the first slot does not take over the id the second gives up |
| `Controller.MergedLosesTouch` | lib/src/controller.c:114-136 | merging two controllers can give both slots the same id; when the first finger is lifted the receiver loses the second touch |
| `Controller.DirectSwitchLosesTouch` | lib/src/feedbacksender.c:216-234 | a switch that loses the new touch |
| `Controller.ReplayRun` | lib/src/feedbacksender.c:253-284 | over any run, replaying all events gives the buttons and triggers of the last state, and its touches when every step was reported completely |
| `Controller.ReplayRunExact` | lib/src/feedbacksender.c:214-284 | over any run, the replayed view equals the state after every iteration, touches included, if and only if every step was reported completely |
| `FeedbackSender.Sender.constructor` | lib/src/feedbacksender.c:12-49 | idle, nothing sent |
| `FeedbackSender.Sender.SetControllerState` | lib/src/feedbacksender.c:63-82 | takes over every field that differs, and marks the state as changed if any does; where a slot is free only its id counts |
| `FeedbackSender.Sender.SendHistoryPacket` | lib/src/feedbacksender.c:147-161 | the 0x300-byte buffer always suffices; one packet with the next 16-bit number |
| `FeedbackSender.Sender.Emit` | lib/src/feedbacksender.c:183-184 | one event is logged and exactly one packet is sent, with the 16 newest events |
| `FeedbackSender.Sender.SendButtons` | lib/src/feedbacksender.c:169-186 | one event for each of the 16 buttons that changed |
| `FeedbackSender.Sender.SendTriggers` | lib/src/feedbacksender.c:188-212 | one event for each trigger that changed |
| `FeedbackSender.Sender.SendTouches` | lib/src/feedbacksender.c:214-235 | up for a slot that lost its id, else down for a live slot that is new or moved |
| `FeedbackSender.Sender.SendHistory` | lib/src/feedbacksender.c:163-236 | the log grows by the events between the two states |
| `FeedbackSender.Sender.Iterate` | lib/src/feedbacksender.c:253-284 | one turn of the thread: reports the difference, and the reported state catches up |
| `FeedbackSender.ServeTurn` | lib/src/feedbacksender.c:253-284 | a turn of the thread adds the events since the state it looked at last |
| `FeedbackSender.PacketAt` | lib/src/feedbacksender.c:147-161 | packet n carries the number n modulo 2^16 and is made of the first n+1 events |
| `FeedbackSender.PayloadParses` | lib/src/feedbacksender.c:147-161 | its payload reads back as the last min(n+1, 16) of them, newest first |
| `FeedbackSender.ReceiveStep` | lib/src/feedbacksender.c:147-161 | a receiver at most 16 packets behind learns exactly the missing events from a packet and its 16-bit number, also from old and repeated packets |
| `FeedbackSender.Recovery` | lib/src/feedbacksender.c:147-236 | with losses, repetitions and reordering, the receiver knows exactly the events up to the newest packet it got |
| `FeedbackSender.LossRecovery` | lib/src/feedbacksender.c:147-236 | if at least one of every 16 consecutive packets arrives the receiver is never 16 events behind, and has the whole log when the last one arrives |
| `FeedbackSender.EndToEnd` | lib/src/feedbacksender.c:147-284 | from states through events, packets, losses and parsing to the replayed view of the last state |
| `FeedbackSender.Serve` | lib/src/feedbacksender.c:63-289 | any schedule of state changes and turns, several changes before one turn and timeouts included: the packets are those of the events between the states looked at, and under any losses that spare one in 16 and the last the console sees the last of those states |
| `ControlStream.HeaderReads` | lib/src/ctrl.c:554-560 | length and type are read back from the header |
| `ControlStream.HeaderOctets` | lib/src/ctrl.c:554-560 | the eight octets of a header: length and type with the highest octet first, and two zeros |
| `ControlStream.ParseAppend` | lib/src/ctrl.c:324-347 | parsing may stop in the middle of a message and go on when more has arrived |
| `ControlStream.ParseMonotone` | lib/src/ctrl.c:324-353 | what has been delivered stays delivered and an error stays an error |
| `ControlStream.RestWaits` | lib/src/ctrl.c:325-338 | what waits in the buffer is shorter than the buffer, so recv always has room |
| `ControlStream.ParseSent` | lib/src/ctrl.c:523-597 | the stream of any messages that fit the buffer is cut into exactly their frames |
| `ControlStream.DeliverFrames` | lib/src/ctrl.c:679-689 | the counters of both sides agree message by message although empty payloads use none, so every message decrypts |
| `ControlStream.CounterCounts` | lib/src/ctrl.c:533-545 | the counter after any messages is the start value plus the number of those with a payload, modulo 2^64 |
| `ControlStream.SentAt` | lib/src/ctrl.c:523-597 | message j on the wire is its header and, if it has a payload, that payload encrypted with the start value plus the number of messages with a payload before it |
| `ControlStream.ReceivedAt` | lib/src/ctrl.c:679-689 | frame j is handed on as it is without a payload, and else decrypted with the start value plus the number of frames with a payload before it, if it decrypts |
| `ControlStream.DamageStaysLocal` | lib/src/ctrl.c:679-689 | a message that arrives damaged, even one that cannot be decrypted, harms no other: it uses its counter value, and all before and behind it are delivered as sent |
| `ControlStream.DeliveredPrefix` | lib/src/ctrl.c:322-353 | at every moment a prefix of the sent messages has been delivered; all of them, with equal counters, once everything has arrived |
| `ControlStream.OversizedStops` | lib/src/ctrl.c:330-353 | a message longer than the buffer ends the channel after all before it were delivered |
| `ControlStream.StatusExact` | lib/src/ctrl.c:327-347 | the receiver stops with a wrapped sum if and only if, behind whole messages that fit, a header declares at least 2^32 - 8; and with an overflow if and only if it declares less but too much |
| `ControlStream.WrappedExample` | lib/src/ctrl.c:327-347 | a header for which the 32-bit sum is 0 |
| `ControlStream.Sender.Send` | lib/src/ctrl.c:523-597 | puts the header on the stream and, behind it, a payload that is not empty, encrypted with the local counter, which moves on by one for such a payload alone |
| `ControlStream.Receiver.constructor` | lib/src/ctrl.c:305-322 | an empty buffer |
| `ControlStream.Receiver.MessageReceived` | lib/src/ctrl.c:679-689 | decrypts a payload that is not empty in place with the remote counter, which moves on by one for such a payload alone; a message that cannot be decrypted is not handed on |
| `ControlStream.Receiver.Discard` | lib/src/ctrl.c:344-346 | memmove keeps the rest |
| `ControlStream.Receiver.TakeFirst` | lib/src/ctrl.c:340-346 | delivers and removes the first message |
| `ControlStream.Receiver.Drain` | lib/src/ctrl.c:324-347 | delivers every complete message in the buffer and tells how it stopped |
| `ControlStream.Receiver.Recv` | lib/src/ctrl.c:492-507 | appends what the socket gave |
| `ControlStream.Receiver.Run` | lib/src/ctrl.c:322-508 | for any chunking of the stream the delivered messages are those of the parse, recv never has zero room, and nothing is left when all has been read |
| `ControlStream.Exchange` | lib/src/ctrl.c:523-597 | sender and receiver together: the delivered messages are the sent ones and both counters end at the start value plus the number of payloads |
| `ControlHandoff.AnnouncedStep` | lib/src/ctrl.c:196-250 | every atomic step keeps queued messages and a pending PIN announced by the pipe or by a sender about to signal |
| `ControlHandoff.InOrderStep` | lib/src/ctrl.c:365-372 | every step keeps: sent messages followed by queued ones are the enqueued ones |
| `ControlHandoff.PinIsLast` | lib/src/ctrl.c:235-250 | of several PINs entered before a turn the last one is pending, and none after it |
| `ControlHandoff.NoLostWakeUp` | lib/src/ctrl.c:355-396 | in every interleaving: no lost wake-up, and messages go out once each in enqueue order |
| `ControlHandoff.TurnWorks` | lib/src/ctrl.c:363-396 | one woken turn sends everything queued in order, then the PIN, and ends the thread iff a stop is requested and no PIN was pending |
| `ControlHandoff.StopExact` | lib/src/ctrl.c:374-390 | the announcement of a stop is lost by a step if and only if that step sends a PIN |
| `ControlHandoff.StopWorks` | lib/src/ctrl.c:169-176 | a stop requested while no PIN is pending, with none entered later, stays announced in every interleaving and the next turn obeys it |
| `ControlHandoff.StopLost` | lib/src/ctrl.c:374-390 | a run in which the stop is lost |
| `ControlHandoff.SpinningExact` | lib/src/ctrl.c:230-232 | the pipe is left signalled for an idle thread if and only if a signal comes after its message was taken |
| `ControlHandoff.SpinsForever` | lib/src/ctrl.c:392-396 | from then on the thread alone wakes for nothing and never reads its socket |
| `ControlHandoff.LateSignal` | lib/src/ctrl.c:219-231 | a run of two senders that leads there |
| `ControlHandoff.Ctrl.QueueMessage` | lib/src/ctrl.c:219-230 | the part of send_message under the mutex is the append step |
| `ControlHandoff.Ctrl.SignalPipe` | lib/src/stoppipe.c:74-85 | one signal |
| `ControlHandoff.Ctrl.SetLoginPin` | lib/src/ctrl.c:235-250 | the PIN step, with its signal under the mutex |
| `ControlHandoff.Ctrl.RequestStop` | lib/src/ctrl.c:169-176 | the stop step |
| `ControlHandoff.Ctrl.HandleNotification` | lib/src/ctrl.c:362-396 | the loop over the queue and the branches after it are the steps of a turn |
| `SliceSpec.PatchedBit` | lib/src/bitstream.c:349-368 | what the patch leaves in memory, bit for bit, on success and on failure: the flag of the chosen entry set, those before it cleared, nothing else changed |
| `SliceSpec.PatchFromReadsBack` | lib/src/bitstream.c:349-368 | a patched reference list, read back from its first n bits, yields the chosen entry if and only if its flag is among them |
| `SliceSpec.PatchExact` | lib/src/bitstream.c:302-372 | the patch of a P slice with an inline list succeeds if and only if the entry exists and its flag can be reached, and reports failure if and only if the entry does not exist and all flags can be reached |
| `SliceSpec.PatchWithoutList` | lib/src/bitstream.c:302-372 | a unit without such a list is never patched |
| `SliceSpec.PatchedUnit` | lib/src/bitstream.c:302-372 | what the patch of a whole unit leaves in memory, bit for bit, wherever its flags are looked for |
| `SliceSpec.UnitEndExact` | lib/src/vl_rbsp.h:314-322 | the unit ends at bit q or before if and only if a start code begins there |
| `SliceSpec.PatchThenParse` | lib/src/bitstream.c:227-372 | on a whole unit: after a successful patch the parser reads a P slice with the chosen reference frame (section 7.3.7 of ITU-T H.265) if and only if the patch has made no start code that ends the unit before the chosen flag; with one, the parser runs past the end of the unit |
| `SliceSpec.PatternAfter` | lib/src/bitstream.c:349-368 | which bits of the unit become a given pattern, told from the unit before the patch |
| `SliceSpec.ReadBackForeseen` | lib/src/bitstream.c:227-372 | the same condition told from the unit before the patch: nowhere up to the chosen flag do the octets become 00 00 01 or 00 00 00 01 when that flag is set and those before it are cleared |
| `SliceSpec.EscapesForeseen` | lib/src/vl_rbsp.h:360-371 | which octets of the patched unit become 00 00 03, told from the unit before the patch |
| `SliceSpec.SafePatchReadsBack` | lib/src/bitstream.c:227-372 | when neither happens in the part that is read, the first bits that were enough to patch the unit are enough to parse it, with the chosen frame as the answer |
| `SliceSpec.SafePatchExample` | lib/src/bitstream.c:302-372 | an eight-byte unit that is safe to patch wherever it lies |
| `SliceSpec.PatchMakesStart` | lib/src/bitstream.c:227-372 | an eighteen-byte unit in which a successful patch makes 00 00 01, after which the parser runs past the end of the unit |
| `SliceSpec.PatchMissesShortUnit` | lib/src/bitstream.c:349-368 | a nine-byte unit in front of another one, in which a successful patch writes three bytes behind the flags, damages the next start code and leaves the reference frame as it was |
| `SliceSpec.FailedPatchFromExact` | lib/src/bitstream.c:349-371 | a failed patch of a list leaves it alone if and only if no flag that can be reached was set, whether the entry is missing or its flag out of reach, and leaves none set |
| `SliceSpec.FailedPatchOfExact` | lib/src/bitstream.c:302-372 | the same for a whole unit, start code included |
| `SliceSpec.FailedPatchLosesReference` | lib/src/bitstream.c:227-372 | after a failed patch of a unit whose flags can all be reached the parser finds no reference frame, unless the patch has made a start code before the last flag |
| `SliceSpec.FailedPatchExample` | lib/src/bitstream.c:302-372 | an eight-byte unit that a failed patch changes |
| `SliceSpec.FirstLoadExact` | lib/src/vl_rbsp.h:63-107 | the first load ends at the first word boundary that is four octets or more into the payload, or with the data |
| `SliceSyntax.GolombReads` | lib/src/vl_rbsp.h:390-399 | the exponential Golomb code of a number is read as that number (section 9.2 of ITU-T H.265) |
| `SliceSyntax.GolombOnly` | lib/src/vl_rbsp.h:390-399 | and a number that is read stands there in its code |
| `SliceSyntax.StartExact` | lib/src/bitstream.c:9-24 | the start code found is the first one that begins at one of the first 65 octets |
| `SliceSyntax.PatternNumbers` | lib/src/vl_rbsp.h:314-322 | a unit ends where 24 bits are the number 1 or 32 bits are, and emulation prevention is the number 3 in 24 bits |
| `SliceSyntax.WrittenIsRead` | lib/src/bitstream.c:227-300 | a unit written from any fields in the order of section 7.3.6.1 of ITU-T H.265 is answered as those fields say: P for slice type 1, I for 2, else unknown; the first entry in use of an inline list, 255 if there is none or the list is one of the SPS; the old reference frame for NAL type 20; more than 16 entries rejected |
| `SliceSyntax.ReadWasWritten` | lib/src/bitstream.c:227-300 | conversely any unit of NAL type 1 or 20 that is read to its end was written from such fields, and the answer is theirs |
| `SliceSyntax.OthersRejected` | lib/src/bitstream.c:227-247 | data without a start code and units of any other type are rejected |
| `SliceSyntax.PatchListExact` | lib/src/bitstream.c:302-348 | the patch works on a list if and only if the unit is written as a P slice of NAL type 1 with at most 16 entries of its own, and finds where they begin |
| `SliceSyntax.PatchRefuses` | lib/src/bitstream.c:302-320 | without a start code and for any other type of NAL unit the patch reports failure and changes nothing |
| `SliceSyntax.PatchRefusesSlice` | lib/src/bitstream.c:330-348 | so it does for a slice of type 1 that is no P slice, or whose list is one of the SPS or has more than 16 entries |
| `SliceSyntax.FlagPlace` | lib/src/bitstream.c:349-352 | the flag of an entry is the last bit of its code |
| `SliceSyntax.SpsListExample` | lib/src/bitstream.c:272-296 | an eight-byte P slice whose list is one of the SPS has reference frame 255 |
| `SliceHeader.Reader.constructor` | lib/src/vl_rbsp.h:115-131 | the reader starts at bit 0 with a filled buffer |
| `SliceHeader.Reader.AlignData` | lib/src/vl_rbsp.h:63-72 | single bytes up to a word boundary, without moving the cursor |
| `SliceHeader.Reader.FillBits` | lib/src/vl_rbsp.h:77-107 | appends to the buffer until it holds 32 bits or all that are left |
| `SliceHeader.Reader.Get` | lib/src/vl_rbsp.h:177-188 | takes the next bits and moves the cursor |
| `SliceHeader.Reader.FindEnd` | lib/src/vl_rbsp.h:314-322 | finds the next start code, of three bytes or four, or the end of the data |
| `SliceHeader.Reader.Limit` | lib/src/vl_rbsp.h:272-292 | nothing is read behind the end of the unit; the data pointer is not moved back when the buffer already reached beyond it, and the skew says by how much it did |
| `SliceHeader.Reader.CheckOctet` | lib/src/vl_rbsp.h:260-267 | an octet is removed exactly when it is a three behind two zero octets in what the buffer still holds |
| `SliceHeader.Reader.RbspInit` | lib/src/vl_rbsp.h:303-336 | cuts the data off at the next start code and removes emulation prevention from the buffer; where there is none, every bit that matters is in place |
| `SliceHeader.Reader.RbspFillBits` | lib/src/vl_rbsp.h:341-371 | makes at least 32 bits available or all that are left, and removes emulation prevention among them; where there is none, every bit that matters is in place |
| `SliceHeader.Reader.ReadU` | lib/src/vl_rbsp.h:376-385 | u(n) at the cursor |
| `SliceHeader.Reader.ReadUE` | lib/src/vl_rbsp.h:390-399 | ue(v) at the cursor (section 9.2 of ITU-T H.265) |
| `SliceHeader.Reader.SkipStartCode` | lib/src/bitstream.c:9-24 | finds the first start code among the first 65 bytes, or fails |
| `SliceHeader.Reader.EnterPayload` | lib/src/bitstream.c:238-252 | the header of the NAL unit, and the beginning of its payload for the types asked for |
| `SliceHeader.Reader.ReadSliceType` | lib/src/bitstream.c:254-270 | the header up to the slice type |
| `SliceHeader.Reader.ReadList` | lib/src/bitstream.c:275-284 | the beginning of the reference list; more than 16 entries are an error |
| `SliceHeader.Reader.FindReference` | lib/src/bitstream.c:285-293 | the loop finds the first entry in use |
| `SliceHeader.Reader.WriteFlag` | lib/src/bitstream.c:352-364 | the mask over the two words before the data pointer changes exactly one bit in memory: the next one to be read, if the data pointer is where the unread bits end |
| `SliceHeader.Reader.PatchEntry` | lib/src/bitstream.c:351-367 | one turn of the loop: the flag of the entry changes in memory, or the bit a skew behind it, and the reader goes on behind it |
| `SliceHeader.Reader.PatchFlags` | lib/src/bitstream.c:349-368 | the loop over the list changes memory as the patch on bits says |
| `SliceHeader.ParseSliceHeader` | lib/src/bitstream.c:227-300 | the parser on memory, at any address, gives the answer of the model whenever some first bits of the unit are enough for one and hold no emulation prevention |
| `SliceHeader.SetReferenceFrame` | lib/src/bitstream.c:302-372 | the patch on memory answers and leaves what the model says, with the skew of its address, whenever some first bits of the unit are enough for that and no emulation prevention is loaded with them |
| `SliceHeader.PatchAndParse` | lib/src/bitstream.c:227-372 | patch and parser one after the other, in memory: the chosen frame comes back whenever that can be foreseen |
| `Base64.Alphabet` | lib/src/base64.c:12 | the alphabet of section 4 of RFC 4648 by ASCII codes |
| `Base64.GroupDigits` | lib/src/base64.c:23-62 | one to three bytes as one number, in two to four digits of six bits, the highest first |
| `Base64.TestTexts` | lib/src/base64.c:10-80 | test texts of section 10 of RFC 4648 |
| `Base64.DigitsLength` | lib/src/base64.c:10-80 | the text of n bytes has 4 * ceil(n / 3) characters |
| `Base64.PutGroup` | lib/src/base64.c:23-62 | one group of up to three bytes, with its bounds checks |
| `Base64.PutPadding` | lib/src/base64.c:67-75 | the padding loop |
| `Base64.Encode` | lib/src/base64.c:10-80 | succeeds if and only if out_size exceeds 4 * ceil(n / 3); writes the text of section 4 of RFC 4648, its terminator and nothing behind it |
| `Base64.Decode` | lib/src/base64.c:100-153 | bytes and errors by case: characters before padding only, line breaks skipped, invalid characters and a small buffer told apart |
| `Base64.DecodeExact` | lib/src/base64.c:100-153 | for any text: how many bytes are decoded, and when the buffer is too small or a character invalid, by the number of digits before the first character that is neither a digit nor a line break |
| `Base64.PackDigits` | lib/src/base64.c:137-149 | the digits of a byte string carry exactly its bytes |
| `Base64.RoundTrip` | lib/src/base64.c:10-153 | decoding encoded text, with line breaks anywhere in it, gives the bytes back whenever they fit |

## Left out

- ReorderQueue.Queue.constructor: rings are at most a quarter of the number range.
- ReorderQueue.Queue.Push: numbers exactly half the range from the start of the window are excluded, where section 3.2 of RFC 1982 leaves the order undefined.
- ReorderQueue.Queue.Drop: the trimming loop at its end is not written out, because its condition is false whenever it is reached.
- KeyStream.CounterModeRange: the `int` block counter is taken as two's complement when it overflows, which C leaves undefined.
- KeyRing.GKCrypt.GetKeyStream: positions are unbounded, so sums of 64-bit positions that would wrap are outside the model; a read is one atomic step, also on a miss, when the source generates after it has released the mutex.
- KeyRing.GKCrypt.Run: condition variables are not modelled; a step of the thread may happen at any time.
- FrameProcessor.FrameProcessor.PutUnit: an index equal to the number of slots passes the source's check and writes behind the slots; such packets are excluded. What puts after a flush or after a failed alloc store is outside the model; where they write is not (`AfterFailedAlloc`).
- FrameProcessor.FrameProcessor.Flush: a frame is flushed once; a second flush of the same frame would compact what is already compacted, and a flush after a failed alloc works on a half-updated geometry.
- FrameProcessor.FrameProcessor.FecDecode: the erasure code of the jerasure library is a parameter assumed to restore up to m erasures among k+m units of equal size and to refuse more, as `jerasure_matrix_decode` does.
- FeedbackSender.Sender.SetControllerState: motion is one opaque value compared for equality, where the source compares floats with a tolerance.
- FeedbackSender.Sender.Iterate: the packets with sticks and motion, and their float tolerances are not modelled. The flags that initialisation leaves alone are taken as false.
- ControlStream.Sender.Send: send is taken to write everything it is given, and encryption not to fail.
- ControlStream.Receiver.Drain: a declared length of 2^32 - 8 or more, where the 32-bit sum wraps, stops the model with a status of its own; what the source then reads lies outside its buffer.
- ControlHandoff.NoLostWakeUp: connecting is one place in which the mutex is free; what the handshake holds it for is not modelled, and any failure just ends the thread.
- ControlHandoff.Ctrl.HandleNotification: the linked list of messages is a sequence; sending is taken to succeed.
- ControlHandoff.Ctrl.SignalPipe: the pipe is a count of pending signals, and reset takes all of them; a full pipe is not modelled.
- SliceHeader.Reader.FillBits: bytes are eight bits, so loads and stores in network order move bits without changing them.
- SliceHeader.Reader.FindEnd: the search runs over bytes in memory, where the source runs a second reader over them.
- SliceHeader.Reader.CheckOctet: shifts by negative amounts, which C leaves undefined, remove nothing.
- SliceHeader.Reader.RbspFillBits: what is read where emulation prevention has been removed is not said; the removal itself is modelled, with what it takes for it when fewer than sixteen bits are left.
- SliceHeader.Reader.ReadU: reads of more than sixteen bits have no result, because they may leave fewer bits than are needed to tell emulation prevention from data; nor have reads past the end of the unit, for which the source fails an assertion.
- SliceHeader.Reader.ReadUE: codes with sixteen or more leading zeros have no result, for the same reason; no field of a slice header needs one except the address of a slice behind 65534 coding tree blocks.
- SliceHeader.Reader.PatchEntry: what the source writes when a flag lies behind the end of the data, by a shift by minus one, is not modelled.
- SliceHeader.SetReferenceFrame: when emulation prevention is loaded together with the flags nothing is promised; a flag would be looked for one octet further on for each octet removed.
- SliceHeader.ParseSliceHeader: what a failed parse leaves in the result structure is not modelled.
- Base64.Decode: characters are taken as unsigned; the source indexes its table with a plain `char`.
- Sockets, real pipes, mutexes, clocks and thread creation: threads are steps, and whatever the network does is a parameter of the run.
- AES, the control channel's cipher and the Galois-field arithmetic: parameters with the laws stated in the contracts.
- GMAC keys and tags: a chain of library calls.
- The RUDP branches of the control channel, its handshake, and the handlers of single message types: network plumbing and plain dispatch.
- The SPS parsers, the H.264 slice parser, the feedback state formats, congestion control, audio, discovery, registration, settings and user interface: plain field reading, tables or floating point.
- Log calls and allocation failures.
