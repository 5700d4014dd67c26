# Buddy suballocator (allocator.c), modelled and verified in Dafny

allocator.c manages one power-of-two arena, acquired once by `sal_init`,
with a buddy scheme:

- Every block starts with a 16-byte header: `magic`, `size`, `next` and
  `prev`. The links are byte offsets into the arena.
- Free blocks form a circular doubly linked list, kept in ascending address
  order from the anchor `free_list_ptr`.
- `sal_malloc` picks a best fit and halves it while its half still holds
  the request plus a header. It hands out the upper half each time, then
  unlinks the chosen block and tags it ALLOC.
- `sal_free` tags the block FREE and links it in at its address position.
  `checkMerge` and `merge` then join it with an adjacent, equal-sized
  neighbour when `validMerge` accepts the alignment, and recheck after
  every merge.

The model has two layers.

- **ArenaModel** (`arena.dfy`) states the allocator's state as a value. An
  `Arena` holds:
  - the capacity;
  - the free list as a sequence of offsets, starting at the anchor;
  - the set of allocated blocks;
  - the size of every live block.

  There is one function per routine: `InitSpec`, `BestFit`, `Reduce`, `Carve`,
  `Take`, `MallocSpec`, `InsertPos`, `Release`, `CheckMergeSpec`,
  `MergeSpec` and `FreeSpec`. `WellFormed` is the allocator's invariant.
  It says that:
  - the list is ascending;
  - free and allocated blocks partition the live blocks;
  - every block is a power of two aligned to its size;
  - no two blocks overlap.

  `arena_facts.dfy` proves that every routine keeps this invariant, and
  proves what each routine promises.
- **Allocator** (`allocator.dfy`) is the program as it runs. The class
  `SubAllocator` holds:
  - the globals `memory != NULL`, `memory_size` and `free_list_ptr`;
  - `headers`, a map from byte offset to header record. Since all links are
    offsets, `getHeader` and `getIndex` are the identity.

  Each routine is a method with the source's loops and recursion.
  - `Valid()` says that the headers *realise* the ghost `Model: Arena`: the
    FREE headers form exactly the circle of `Model.free`, every live block's
    header holds its size, and the ALLOC headers are exactly the allocated
    blocks, with links -1.
  - Every method is proved to change `Model` as the matching ArenaModel
    function says.
  - The in-place header rewrites of each routine are the functions
    `SplitHeaders`, `UnlinkHeaders`, `LinkInHeaders` and `MergeHeaders` in
    `headers.dfy`. Each performs the source's writes in the source's order.
    Each is proved to realise the matching step of the abstract state.

Supporting modules:

- `powers.dfy` covers powers of two and rounding up.
- `layout.dfy` holds the header, the constants and the pointer type.
- `ring.dfy` covers circular lists realised by header links.
- `scenarios.dfy` holds concrete traces, worked out on ArenaModel's
  functions.

`checkCorruption` (allocator.c:192-198) aborts only when a header met on the
circle is not tagged FREE. `Valid()` makes that impossible: at each call
site an assertion, proved from `Valid()`, states that the header handed to
it is tagged FREE.
Freeing a block that is not tagged ALLOC does abort: `Free` returns
`aborted`, and `FreeSpec` returns `Aborted`.

The code differs from what a reader might expect in these places, and the
model follows the code:

- Best fit never compares the anchor. Among the other blocks that fit, the
  last one of least size wins (allocator.c:116-126).
- The `else` of `checkMerge` belongs to the adjacency test. The previous
  neighbour is not examined when the next one is adjacent and equal-sized
  but misaligned. Buddies are therefore not always reunited:
  `Scenarios.NoFullCoalescence` leaves three free blocks after everything
  is freed.
- `sal_init(100)` acquires 128 bytes, but `sal_malloc(50)` is refused
  because 66 is more than half of 128 (`Scenarios.HalfArenaLimit`).
- A second `sal_init` changes nothing (`InitSpec`).
- The header copies at allocator.c:110-112 and 122-124 write back the
  values already there, so the model omits them.

## Model

| member | source | states |
|---|---|---|
| Powers.RoundUp | allocator.c:86-92 | the result is a power of two, at least n, and its half is below n (or it is 1) |
| Powers.RoundUpUnique | allocator.c:86-92 | those three conditions determine the rounded value: it is the least power of two at or above n |
| Powers.RoundUpFixesPow2 | allocator.c:86-92 | a power of two is returned unchanged |
| Powers.RoundUpLeast | allocator.c:86-92 | the rounded value is at most every power of two that is at least n |
| Allocator.PowerOfTwo | allocator.c:86-92 | the doubling loop returns the least power of two at or above the request, for requests up to 2^31 |
| Allocator.SubAllocator.constructor | allocator.c:38-41 | the zeroed globals realise the empty, unacquired arena |
| Allocator.SubAllocator.Init | allocator.c:53-83 | on an unacquired arena and a size below MAX_SIZE, one FREE header at offset 0 of size power_of_two(size), linked to itself, which is the anchor; otherwise nothing changes |
| ArenaFacts.InitWellFormed | allocator.c:53-83 | sal_init keeps the allocator's invariant |
| Allocator.SubAllocator.ValidMerge | allocator.c:318-337 | the stride walk answers valid exactly when memory_size minus index is a multiple of twice the size |
| Allocator.SubAllocator.ScanBestFit | allocator.c:113-129 | the walk round the circle from the anchor's successor returns the block at list position BestFit, and its offset |
| ArenaFacts.BestFitChoice | allocator.c:116-129 | the anchor is chosen only if no other free block fits; otherwise the block chosen fits, none fits more tightly, and every later fitting block is larger, so ties go to the last |
| Allocator.SubAllocator.ReduceMemory | allocator.c:159-189 | repeated halving rewrites the headers to realise Reduce, and returns the last upper half and its list position |
| Headers.SplitHeaders | allocator.c:161-181 | the three header writes of one halving realise SplitStep: the upper half is linked in, tagged FREE, right after the lower half; the three headers then checked are tagged FREE |
| Headers.SplitWritesHold | allocator.c:161-176 | those writes, in source order, set exactly the upper half's header, the lower half's size and next, and the successor's prev |
| ArenaFacts.ReduceFacts | allocator.c:159-189 | halving keeps the invariant and the anchor; the block returned holds the request but its half does not, and it ends where the chosen block ended |
| ArenaFacts.ReduceKeepsSizes | allocator.c:159-189 | every live block other than the one split keeps its size |
| Allocator.SubAllocator.HandOut | allocator.c:138-150 | the anchor moves to its successor only when it is the block handed out; the block leaves the circle tagged ALLOC (Take) |
| Headers.UnlinkHeaders | allocator.c:142-150 | the header writes that tag the block ALLOC, join its neighbours and set its links to -1 realise Take |
| Headers.TakeWritesHold | allocator.c:142-150 | those four writes, in source order, change exactly the block and its two neighbours' links |
| ArenaFacts.TakeUnlinks | allocator.c:138-150 | the block handed out is no longer on the free list, and the anchor changes only when the anchor is handed out |
| Allocator.SubAllocator.Allocate | allocator.c:131-152 | once the chosen block holds the request: halve it while its half still does, hand out the block reached and return its offset plus 16 |
| Allocator.SubAllocator.Malloc | allocator.c:94-156 | the headers and result realise MallocSpec: NULL for an empty or oversized request, for a single unsplittable block, or when nothing fits; otherwise the carved block |
| ArenaFacts.MallocFails | allocator.c:95-155 | NULL is returned exactly when n is 0, when n+16 exceeds half the arena, when the only free block cannot be halved, or when no free block holds n+16; NULL changes nothing |
| ArenaFacts.MallocSucceeds | allocator.c:131-152 | on success the block 16 bytes below the result is newly allocated, has size RoundUp(n+16), is the top end of the best fit, and is off the free list; the anchor moves only if it was handed out; other allocated blocks keep their sizes |
| ArenaFacts.MallocWellFormed | allocator.c:94-189 | sal_malloc keeps the invariant, so the free list is never left empty |
| ArenaModel.InsertPos | allocator.c:231-242 | the released block's position: every free block before it is below it, and the one at it is above it |
| Allocator.SubAllocator.FindInsertPoint | allocator.c:226-242 | the walk from the anchor, plus one step forward at the end and one step back, returns the free block that precedes the released block's address position on the circle |
| Headers.LinkInHeaders | allocator.c:229-252 | tagging the block FREE and linking it between that block and its successor realises Release |
| Headers.InsertWritesHold | allocator.c:229-252 | those four writes, in source order, change exactly the block and its two neighbours' links |
| ArenaFacts.ReleaseWellFormed | allocator.c:229-259 | the released block joins the ascending list at its address position, becomes the anchor when it lies below the old anchor, and stops being allocated; the invariant holds |
| Allocator.SubAllocator.ReleaseBlock | allocator.c:224-264 | the free of an allocated block realises Release followed by checkMerge at its position |
| Allocator.SubAllocator.Free | allocator.c:212-265 | NULL changes nothing; a pointer whose header is not tagged ALLOC aborts with nothing changed; otherwise the state becomes FreeSpec's |
| Headers.FreeAborts | allocator.c:212-222 | on headers that realise the state, sal_free aborts exactly on a non-NULL pointer whose header is missing or not tagged ALLOC; NULL is a no-op |
| ArenaFacts.DoubleFreeAborts | allocator.c:219-222 | freeing the same block twice aborts the second time |
| ArenaFacts.ReleaseMergeFacts | allocator.c:212-265 | after a free the invariant holds, the block is not allocated and lies in a free block, the anchor is the lower of the block and the old anchor, and other allocated blocks keep their sizes |
| ArenaFacts.FreeWellFormed | allocator.c:212-265 | sal_free keeps the invariant |
| Allocator.SubAllocator.CheckMerge | allocator.c:269-290 | the successor test, then (only in its else) the predecessor test, each gated by validMerge, realises CheckMergeSpec |
| ArenaFacts.CheckMergeChoice | allocator.c:269-290 | checkMerge merges only an adjacent, equal-sized, aligned pair whose upper block is not the anchor, and otherwise changes nothing |
| Allocator.SubAllocator.Merge | allocator.c:293-314 | absorbing the successor and rechecking realises MergeSpec |
| Headers.MergeHeaders | allocator.c:295-310 | relinking past the successor, zeroing its header, linking back and doubling the size realises Absorb; the headers checked before and after are tagged FREE |
| Headers.MergeWritesHold | allocator.c:295-307 | those four writes, in source order, change exactly the block, the zeroed successor and the next block's prev |
| ArenaFacts.AbsorbWellFormed | allocator.c:293-314 | a merge keeps the invariant, the anchor, and the allocated blocks with their sizes |
| ArenaFacts.CheckMergeFacts | allocator.c:269-314 | cascading merges keep the invariant and the anchor, never touch allocated blocks, and every byte that lay in a free block still does |
| ArenaFacts.InitOnce | allocator.c:53-83 | InitSpec: on an unacquired arena and a size below MAX_SIZE, the capacity is the least power of two at or above the size and one free block at offset 0, the anchor, covers the whole arena with nothing allocated; otherwise nothing changes, so a second sal_init is a no-op |
| ArenaFacts.ScanFromFits | allocator.c:116-129 | ScanFrom and BestFit: the scan keeps its current choice or moves to a later position whose block holds need bytes and is no larger than the best so far |
| ArenaFacts.SplitStepWellFormed | allocator.c:161-181 | SplitStep: one halving keeps the invariant |
| ArenaFacts.TakeWellFormed | allocator.c:138-150 | Take: handing out a block while another stays free keeps the invariant |
| ArenaFacts.CarveHandsOut | allocator.c:131-152 | Carve: the address returned is 16 bytes past a newly allocated block of size RoundUp(need), the top end of the chosen block, off the free list, with the anchor moved only if it was handed out and other allocations unchanged |
| ArenaFacts.BuddyAlignedPlaced | allocator.c:318-337 | BuddyAligned: in a power-of-two arena, a block that validMerge accepts starts on a boundary of its doubled size |
| ArenaFacts.MergeFacts | allocator.c:293-314 | MergeSpec: absorbing the successor and rechecking keeps the invariant, the anchor, the allocated blocks with their sizes, and every free byte free |
| Ring.LinkedMember | allocator.c:192-198 | every member of the circle has a header tagged FREE, which is all checkCorruption checks |
| Scenarios.NoFullCoalescence | allocator.c:269-290 | init(128), three malloc(10) calls, then freeing the second, third and first block leaves nothing allocated but three free blocks, where sal_init left one |
| Scenarios.HalfArenaLimit | allocator.c:53-95 | sal_init(100) gives a 128-byte arena on which sal_malloc(50) returns NULL |
| Scenarios.AllocateAndRelease | allocator.c:94-314 | on a 64-byte arena, malloc(10) hands out offset 32, and freeing it restores the state sal_init left (as an abstract state; the header zeroed by merge stays in memory) |

## Left out

- The host `malloc` of the arena and its failure abort, the `fprintf`
  diagnostics, and `sal_end`'s `free` (allocator.c:60-65, 339-349). These
  are host memory management and output, and the model has no host heap.
- `sal_stats` (allocator.c:351-360) only prints and assigns globals to
  themselves.
- Payload bytes. The arena is modelled by its headers alone, so the zeroing
  loop of `sal_init` (allocator.c:68-72) is not modelled. It would run zero
  times anyway, because `memory_size` is still 0 when it runs.
- Allocator.SubAllocator.Init: sizes from 2^31+1 to 2^32-2 are excluded by
  its precondition. For them `power_of_two` doubles its 32-bit counter past
  2^31 to 0 and never returns.
- Allocator.SubAllocator.Init: for sizes up to 8, `power_of_two` gives a
  capacity of 1 to 8 bytes, and the source then writes its 16-byte header
  (allocator.c:78-81) past the end of that buffer. The model records the
  header anyway and treats the arena as well formed. The overflow is not
  captured. On such an arena every `sal_malloc` returns NULL, since n + 16
  exceeds half the capacity.
- Allocator.PowerOfTwo: requires a request of at most 2^31, for the same
  reason.
- Integer widths. Header fields and offsets are unbounded `nat`s, with the
  arena bounded by 2^31. Within that bound the source's 32-bit sums do not
  wrap. The subtractions in `checkMerge` can wrap, for instance when the
  successor is the anchor, but never to a value equal to a block size. On LP64, `n + HEADER_SIZE` is computed in 64
  bits. The signed `int` variables `bestMemorySize` (allocator.c:116) and
  `newIndex` (allocator.c:321) cannot hold 2^31, the largest capacity. The
  comparisons convert them back to unsigned, so the results are unaffected.
- Allocator.SubAllocator.Free: a pointer whose header offset lies outside
  the arena, or at an offset that never held a header, is treated as
  failing the ALLOC tag test and aborts. The source reads whatever bytes lie
  there. A free before `sal_init` is covered by the same rule.
- `checkCorruption`'s abort is not modelled as an outcome. At every call
  site an assertion proves that the header it inspects is tagged FREE.
- `HandOut`, `Allocate`, `FindInsertPoint` and `ReleaseBlock` are not
  routines of allocator.c. They are stretches of `sal_malloc` and
  `sal_free` given their own contracts.
