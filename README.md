# SimpleDB buffer manager in Dafny

A model of `BasicBufferMgr`, the buffer pool of the SimpleDB database server,
with proofs about it. The pool is a fixed array of buffer frames. Each frame
caches at most one disk block. Clients pin and unpin frames, and the manager
counts the available (unpinned) frames. When a requested block is not
resident, one of four victim-selection strategies picks an unpinned frame to
reuse:

- Naive (code 0) takes the first unpinned frame in slot order.
- FIFO (code 1) takes the unpinned frame with the oldest usable pin stamp
  (see the notes below for which stamps are usable).
- LRU (code 2) takes the unpinned frame with the oldest usable unpin stamp.
- Clock (code 3) takes the first unpinned frame in circular order from the
  rotating pointer `buffPointer`.

Files:

- `frames.dfy` (module `Frames`) holds the frame record (`Frame`: block, pin
  count, pin and unpin stamps, modifying transaction), the disk block
  identity, the count of unpinned frames and the residency predicates.
- `strategies.dfy` (module `Strategies`) states what each strategy must return
  as a predicate over the frame records. `IsFirstUnpinned` covers Naive,
  `IsTimedVictim` covers FIFO and LRU, `IsClockVictim` covers Clock and
  `IsVictim` covers the dispatch on the strategy code. The lemmas there prove
  that any victim is unpinned, that a victim is missing exactly when every
  frame is pinned, and that each choice is unique. A few concrete pools show
  each rule at work.
- `buffer_mgr.dfy` (module `BufferMgr`) holds the class `BasicBufferMgr`. Its
  frames live in an `array<Frame>`, beside `numAvailable`, `strategy`,
  `buffPointer` and a logical clock `ticks`. Its methods mirror the Java
  methods and their loops. The class invariant `Valid()` says that
  `numAvailable` equals the number of unpinned frames and that
  `0 <= buffPointer <= n`. Each scanning method is proved against the matching
  predicate of `Strategies`.

A buffer handle (a `Buffer` object in Java) is the index of its slot.
`Arrays.asList(bufferpool).indexOf(buff)` is therefore that index, since the
pool holds distinct objects. The wall-clock stamps become values of `ticks`,
which advances once per pin and once per unpin. Every stamp handed out is at
least 1, so 0 still means "never stamped", as the FIFO/LRU scans assume. The
sentinel 10^15 is kept as `Strategies.Sentinel`. Stamps are non-negative, so
the Java test `min - t > 0` on longs is exactly `t < min`.

Notes on behaviour of the code that a reader might not expect, all of which
the model keeps:

- FIFO and LRU compare only unpinned frames whose stamp is nonzero and below
  10^15, rather than taking the plain minimum stamp. A never-stamped frame is
  taken only when no unpinned frame has a usable stamp
  (`Strategies.TimedSkipsUnstamped`).
- `unpin` has no guard against unpinning a frame that is already free (see
  `BufferMgr.BasicBufferMgr.Unpin` under "Left out").
- The clock pointer moves on every successful `pin` and `pinNew`, and also on
  every `unpin` that brings a frame to zero pins (line 138), in each case to
  just past that frame.

## Model

| member | source | states |
|---|---|---|
| `Frames.CountUnpinned` | server/src/main/java/simpledb/buffer/BasicBufferMgr.java:142-149 | the number of available frames never exceeds the pool size |
| `Frames.CountUnpinnedUpdate` | server/src/main/java/simpledb/buffer/BasicBufferMgr.java:95-98 | pinning or unpinning one frame changes the available count by exactly that frame's change of status |
| `Frames.CountUnpinnedSamePins` | server/src/main/java/simpledb/buffer/BasicBufferMgr.java:68-74 | an operation that changes no pin count (flushing) leaves the available count unchanged |
| `Frames.CountUnpinnedZero` | server/src/main/java/simpledb/buffer/BasicBufferMgr.java:88-91 | the available count is zero if and only if every frame is pinned |
| `Frames.CountUnpinnedAll` | server/src/main/java/simpledb/buffer/BasicBufferMgr.java:55-61 | the available count equals the pool size if and only if every frame is unpinned |
| `Frames.FirstHoldingIsOnly` | server/src/main/java/simpledb/buffer/BasicBufferMgr.java:151-159 | in a pool without duplicate blocks, the frame the lookup finds is the only frame holding that block |
| `Frames.AssignKeepsNoDuplicates` | server/src/main/java/simpledb/buffer/BasicBufferMgr.java:85-93 | assigning a frame a block no other frame holds keeps every block in at most one frame |
| `Strategies.ClockDistance` | server/src/main/java/simpledb/buffer/BasicBufferMgr.java:277-288 | a slot's position in the circular order from the pointer is below n and maps back to that slot |
| `Strategies.SlotAt` | server/src/main/java/simpledb/buffer/BasicBufferMgr.java:277-288 | the slot at each position of the circular order is a valid slot |
| `Strategies.SlotAtDistance` | server/src/main/java/simpledb/buffer/BasicBufferMgr.java:277-288 | the circular order visits each position's slot at that position, so it is a permutation of the slots |
| `Strategies.VictimIsUnpinned` | server/src/main/java/simpledb/buffer/BasicBufferMgr.java:161-174 | under every strategy code a chosen victim is an unpinned frame of the pool |
| `Strategies.VictimNoneIff` | server/src/main/java/simpledb/buffer/BasicBufferMgr.java:161-174 | no victim is found if and only if the strategy code is not 0-3 or every frame is pinned |
| `Strategies.VictimIsUnique` | server/src/main/java/simpledb/buffer/BasicBufferMgr.java:161-174 | each strategy's rule determines a single result for given frames and pointer, ties going to the earliest slot |
| `Strategies.NaiveIgnoresTimes` | server/src/main/java/simpledb/buffer/BasicBufferMgr.java:197-204 | Naive takes the lowest unpinned slot whatever the stamps |
| `Strategies.FIFOTakesOldestPin` | server/src/main/java/simpledb/buffer/BasicBufferMgr.java:211-234 | with unpinned frames pinned at times 5, 2 and 8, FIFO takes exactly the frame pinned at time 2 |
| `Strategies.LRUTakesOldestUnpin` | server/src/main/java/simpledb/buffer/BasicBufferMgr.java:241-263 | with unpinned frames last unpinned at times 5, 2 and 8, LRU takes exactly the frame unpinned at time 2; once that frame is pinned again, exactly the frame unpinned at time 5 |
| `Strategies.TimedSkipsUnstamped` | server/src/main/java/simpledb/buffer/BasicBufferMgr.java:218-228 | a never-stamped unpinned frame loses to a later stamped one |
| `Strategies.ClockWrapsAround` | server/src/main/java/simpledb/buffer/BasicBufferMgr.java:273-297 | with the pointer at 3 and frames 3 and 4 pinned in a pool of five, Clock wraps around and takes frame 0 |
| `BufferMgr.BasicBufferMgr.constructor` | server/src/main/java/simpledb/buffer/BasicBufferMgr.java:55-61 | a new pool of n frames has every frame unassigned and unpinned (so no duplicate blocks), n available, strategy Naive and pointer 0 |
| `BufferMgr.BasicBufferMgr.FlushAll` | server/src/main/java/simpledb/buffer/BasicBufferMgr.java:68-74 | exactly the frames modified by the transaction are flushed; no pin count, block, available count or pointer changes |
| `BufferMgr.BasicBufferMgr.Pin` | server/src/main/java/simpledb/buffer/BasicBufferMgr.java:85-102 | a resident block's first frame is reused without reassignment, otherwise the strategy's victim gets the block; the frame's pins go up by one, the available count drops iff it was unpinned, the pointer moves past it; None (nothing changed) iff the block is not resident and the code is invalid or no frame is free; no duplicates are created, in a duplicate-free pool a resident block is pinned in its only frame, and only unpinned frames change block |
| `BufferMgr.BasicBufferMgr.PinNew` | server/src/main/java/simpledb/buffer/BasicBufferMgr.java:113-125 | the strategy's victim gets the appended block with one pin and a clean mark, the available count drops by one and the pointer moves past it; None (nothing changed) iff the code is invalid or no frame is free |
| `BufferMgr.BasicBufferMgr.Unpin` | server/src/main/java/simpledb/buffer/BasicBufferMgr.java:132-140 | the frame loses one pin and gets a fresh unpin stamp; when its pins reach zero the available count rises by one and the pointer moves past it; the count invariant is kept |
| `BufferMgr.BasicBufferMgr.Available` | server/src/main/java/simpledb/buffer/BasicBufferMgr.java:147-149 | returns the number of unpinned frames, between 0 and n, and 0 exactly when every frame is pinned |
| `BufferMgr.BasicBufferMgr.FindExistingBuffer` | server/src/main/java/simpledb/buffer/BasicBufferMgr.java:151-159 | returns the lowest slot holding the block, and None iff the block is not resident |
| `BufferMgr.BasicBufferMgr.ChooseUnpinnedBuffer` | server/src/main/java/simpledb/buffer/BasicBufferMgr.java:161-174 | returns the victim the rule of the current strategy code prescribes, None for an unknown code |
| `BufferMgr.BasicBufferMgr.SetStrategy` | server/src/main/java/simpledb/buffer/BasicBufferMgr.java:188-190 | sets the strategy code, any integer, and changes nothing else |
| `BufferMgr.BasicBufferMgr.UseNaiveStrategy` | server/src/main/java/simpledb/buffer/BasicBufferMgr.java:197-204 | returns the lowest unpinned slot, and None iff every frame is pinned |
| `BufferMgr.BasicBufferMgr.UseTimedStrategy` | server/src/main/java/simpledb/buffer/BasicBufferMgr.java:211-263 | returns the earliest unpinned slot with the minimum nonzero stamp below 10^15, or the first unpinned slot if none has one, or None if all are pinned |
| `BufferMgr.BasicBufferMgr.UseFIFOStrategy` | server/src/main/java/simpledb/buffer/BasicBufferMgr.java:211-234 | the timed rule applied to the pin stamps |
| `BufferMgr.BasicBufferMgr.UseLRUStrategy` | server/src/main/java/simpledb/buffer/BasicBufferMgr.java:241-263 | the timed rule applied to the unpin stamps |
| `BufferMgr.BasicBufferMgr.UseClockStrategy` | server/src/main/java/simpledb/buffer/BasicBufferMgr.java:273-297 | returns the first unpinned slot in circular order from the pointer, and None iff every frame is pinned |

## Left out

- Transactions and the quiescent checkpoint (`Transaction.java`, `QCPThread.java`) are not part of this model. They are thread coordination (shared static flags, wait/notify, sleeps) plus calls into recovery, concurrency and buffer-list managers not shown here.
- The query layer (join and semi-join plans and scans) is not part of this model. It wraps scan, predicate and schema classes not shown here.
- The test classes are not part of this model. They are generated prototypes that assert nothing.
- Disk and log I/O inside `Buffer` (reading a block in, writing it back, formatting a new page, flushing the log first) is left out. Assigning a block only sets the frame's block and clears its dirty mark. Flushing only clears the dirty mark.
- How a frame becomes dirty (`Buffer`'s write methods, called by transactions) is not part of this model. `modifiedBy` is left free in the pool's state.
- Wall-clock `Timestamp` values are replaced by the logical clock `ticks`.
- `synchronized` is not modelled. Each public method is one atomic step.
- `getBuffers` (lines 179-181) hands out the pool array itself. The model's pool is a public constant field, so callers read it directly; aliasing by outside writers is not modelled.
- `BufferMgr.BasicBufferMgr.Unpin` requires a pinned frame of the pool. The Java method does not guard either condition. What `Buffer.unpin` does to an unpinned frame is not part of this model, and the available-count invariant holds only under this precondition.
- `BufferMgr.BasicBufferMgr.PinNew` takes the new block number as a parameter standing for the file store's append, and drops the page formatter. It keeps the pool free of duplicates only if that block is not already resident. This is a property of the external file store.
- `BufferMgr.BasicBufferMgr.constructor` takes a `nat`. A negative size makes the Java array allocation throw.
- Java `int` widths are not modelled. `numAvailable` and `buffPointer` stay within 0..n, so they cannot overflow.
