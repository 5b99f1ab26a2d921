# A model of the Malloc heap allocator

This project models `src/malloc.c`, a replacement for the C library's `malloc`, `free`,
`realloc` and `calloc`. The allocator keeps one singly linked list of blocks, in address
order. Each block is a `struct _block` header (size, next, free) followed by its payload. The
list starts at `heapList`, and the heap grows with `sbrk`. The build chooses one placement
policy: first fit, best fit, worst fit or next fit. Next fit keeps a cursor in
`next_fit_ptr`. With no policy selected, the search returns the head. Nine global counters
record what happened.

The model has three layers.

- `Heap` (heap.dfy) models header memory as a map from header addresses to headers.
  - A ghost sequence `blocks` is the list view: the blocks that following `next` from
    `heapList` visits.
  - The list invariant `Tiles` says the links visit exactly `blocks`. It also says each
    payload ends where the next header starts and every size is a multiple of 4. The
    blocks cover `[base, top)`, where `top` is the program break.
  - `SetFree`, `Split`, `Absorb` and `Grown` are the in-place header writes of the source.
    The `*Tiles` lemmas say which of these writes keep the invariant.
- `Align`, `Placement` and `Engine` describe each operation as a function of the whole
  allocator state (`Store`):
  - `ALIGN4` is computed in 64-bit `size_t` arithmetic.
  - Each policy is a search over the headers in list order.
  - `Find`, `SplitSpec`, `GrowSpec`, `AllocSpec`/`MallocSpec`, `FreeSpec`, `ReallocSpec`
    and `CoalesceSpec` model the operations, as they are coded.
- `Malloc.Allocator` (allocator.dfy) is the allocator as an object:
  - The globals are its fields.
  - Each C function is a method that updates the fields in place, with the source's loops
    and their invariants.
  - Payload memory is a field `mem` from addresses to bytes.
  - Every method is proved to leave exactly the state its `Engine` function describes.
  - `realloc` and `calloc` are also proved to have the effect of `memcpy`/`memset` on `mem`.

The property lemmas are in `MallocProps`, `FreeProps`, `ReallocProps` and `CoalesceProps`.
They are stated on the `Engine` functions.

Environment inputs are parameters:
- The program break before the first `sbrk` is the constructor's `base`.
- Whether a call to `sbrk` succeeds is the `granted` flag of each allocating call.
- The initial memory contents are the constructor's `mem`.

`sizeof(struct _block)` is 24 (LP64).

## Behaviours as coded

The model follows the code where the code and its comments or the usual contract of the
C functions differ. The lemmas named below prove each of these behaviours.

- **The backward merge of `free` looks at the wrong block.** The predecessor scan stops at
  the block *before* the block whose `next` is the released one. So `last` is the
  predecessor's predecessor (`BackwardTarget`):
  - For the head's successor, `last` is null.
  - For the head, the scan runs off the end, so `last` is the tail.
  - When that block is free, it absorbs the released block:
    - Two or more places down, it leaps over the real predecessor. Its new size covers the
      predecessor's header, and a gap is left before the next block (`FreeLosesPredecessor`).
    - Releasing the head while the tail is free makes the tail link back into the list.
      The walk from `heapList` then never ends (`FreeHeadCycles`).
    - Releasing the only block makes it absorb itself. Its size then runs past the break,
      and `num_blocks` drops to 0 (`FreeSoleBlockOverruns`).
  - Freeing two adjacent in-use blocks i and i + 1 can merge them in one order only, and
    only when the blocks around the pair are in use:
    - Upper first, then lower, merges them into one free block. This needs block i - 2 not
      free. If block i is the head, the heap needs more than two blocks and a tail that is
      in use (`UpperThenLowerCoalesce`).
    - Lower first, then upper, leaves two free blocks, when blocks i - 1 and i + 2 are not
      free (`LowerThenUpperStaysSplit`).
    - Outside these conditions the backward step can fire. For example, on a heap of just
      these two blocks, freeing the upper and then the lower one makes the freed tail absorb
      the head. The list then cycles, and neither order merges the pair (`FreeHeadCycles`).
  - When the backward step does not fire, `free` keeps the invariant (`FreePreservesInv`).
- **The cursor repair in `free` tests the free flag, not the block.** A cursor on any free
  block moves to the merged block (`RepairMovesAnyFreeCursor`).
- **Next fit returns the cursor when nothing fits.** The second scan stops at
  `next_fit_ptr` without testing it. So a block that is in use or too small can be handed
  out (`NextFitMissReturnsCursor`). As a result, `realloc` under next fit can return the
  payload address it has just freed (`NextFitReallocReturnsFreedPointer`).
- **With no policy compiled in**, `findFreeBlock` returns `heapList`. Every request on a
  non-empty heap is answered with the head (`NoPolicyReturnsHead`).
- **`ALIGN4` wraps.** `ALIGN4(s)` is 0 for `s == 0` and for the three largest `size_t`
  values (`Align4Zero`).
  - `malloc` of those sizes returns null (`MallocZero`).
  - `realloc` of those sizes takes the in-place path with a 0-byte request
    (`ReallocHugeShrinks`). A block of more than H + 4 = 28 bytes is split down to an empty
    payload. A smaller block comes back unchanged (`InPlaceOutcome`).
- **`calloc` does not check `num * size` for overflow.** It allocates
  `(num * size) mod 2^64` bytes and zeroes that many bytes (`Malloc.Allocator.Calloc`).
- **The split thresholds differ.** `malloc` splits a block of at least `n + H + 4` bytes,
  while `realloc` splits one of more than `n + H + 4` bytes (`ReallocKeepsBoundaryBlock`).
- **`realloc` counts the request twice** when it has to move: once itself, and once in
  `malloc` (`ReallocMoves`).
- **Only the standalone `coalesce` lowers `max_heap`.** The merges inside `free` leave it
  as it was (`FreeOutcome`). `coalesce` also does not repair `next_fit_ptr`, so a cursor on
  the absorbed block is stranded (`CoalesceStrandsCursor`). Its `nextBlock != heapList` guard
  can never fail on a well-formed list (`CoalesceHeadGuardRedundant`).

## Model

| member | source | states |
|---|---|---|
| `Align.Align4` | src/malloc.c:9 | ALIGN4 on size_t is a multiple of 4 below 2^64 |
| `Align.Align4Rounds` | src/malloc.c:9 | for 0 < s <= 2^64 - 4, ALIGN4(s) is the least multiple of 4 that is at least s |
| `Align.Align4Zero` | src/malloc.c:9 | ALIGN4(s) is 0 exactly when s is 0 or one of the three sizes whose rounding wraps |
| `Align.Align4Aligned` | src/malloc.c:9 | an aligned non-zero size is its own alignment |
| `Heap.Ordered` | src/malloc.c:48-56 | on a well-formed list, list order is address order: each earlier block ends at or before every later one |
| `Heap.Bounded` | src/malloc.c:48-56 | every listed block lies within [base, break) |
| `Heap.Distinct` | src/malloc.c:48-56 | no block is listed twice |
| `Heap.WalkVisitsList` | src/malloc.c:48-56 | following next k times from block j reaches block j + k, and null past the tail |
| `Heap.CoversHeap` | src/malloc.c:48-56 | headers plus payloads of the listed blocks account for every byte between the first break and the current one |
| `Heap.SetFreeTiles` | src/malloc.c:325 | writing a free flag keeps the list and changes only that header's flag |
| `Heap.SplitTiles` | src/malloc.c:220-238 | splitBlock's header writes insert the remainder after the block and keep the tiling |
| `Heap.AbsorbTiles` | src/malloc.c:249-252 | a block absorbing its successor drops the successor from the list and keeps the tiling |
| `Heap.GrowTiles` | src/malloc.c:183-195 | attaching a block at the break after the tail keeps the tiling of the grown heap |
| `Heap.SplitKeepsOthers` | src/malloc.c:220-238 | splitBlock's two header writes leave every other listed header as it was |
| `Heap.GrownKeepsOthers` | src/malloc.c:183-195 | growHeap's header writes leave every listed header but the old tail's as it was |
| `Heap.SetFree` | src/malloc.c:355 | writing a free flag changes that header's flag and nothing else |
| `Heap.Split` | src/malloc.c:222-228 | the block shrinks to n bytes and ends where the free remainder starts; the remainder inherits the link and ends where the block used to end |
| `Heap.Absorb` | src/malloc.c:369-370 | only the absorbing header is written: it takes over the absorbed block's link, keeps its flag, and ends where the absorbed block ended when the two were adjacent |
| `Heap.Grown` | src/malloc.c:183-195 | the new header at the old break is in use, ends the list and ends H + n bytes up; the old tail links to it; nothing else is written |
| `Placement.FirstFitIn` | src/malloc.c:80-84 | the first free block of at least n bytes, all blocks before it misfits; None exactly when none fits |
| `Placement.BestFitIndex` | src/malloc.c:89-102 | a fitting block of least size, strictly smaller than every earlier fit; None exactly when none fits |
| `Placement.WorstFitIndex` | src/malloc.c:107-120 | a fitting block of greatest size, strictly larger than every earlier fit; None exactly when none fits |
| `Placement.NextFitIndex` | src/malloc.c:125-145 | without a cursor, first fit; with one, the first fit after it if any, else the first fit before it, else the cursor itself |
| `Placement.WrapStop` | src/malloc.c:136-145 | the wrapped scan stops at the first fit before the cursor, or at the cursor |
| `Placement.Search` | src/malloc.c:73-149 | the policy's answer is a listed index |
| `Placement.SearchFits` | src/malloc.c:78-121 | first, best and worst fit answer a fitting block and fail exactly when nothing fits |
| `Placement.SearchFindsWhenSomethingFits` | src/malloc.c:73-149 | when some block fits, every policy answers |
| `Placement.NextFitFailsOnlyWithoutCursor` | src/malloc.c:125-145 | next fit fails only with a null cursor and no fitting block |
| `Placement.MissLeavesTail` | src/malloc.c:73-149 | when the search fails, *last is the tail (null for an empty list) |
| `Placement.LastVisited` | src/malloc.c:75-146 | *last is null or a listed index |
| `Placement.LastPrecedesFound` | src/malloc.c:75-146 | *last is the block just before the one answered, null when the scan that found it stopped on its first block; the tail for best and worst fit |
| `Engine.InitialInv` | src/malloc.c:13-22 | the initial state (empty list, null cursor, counters 0) satisfies the invariant |
| `Engine.CursorIndex` | src/malloc.c:71 | next_fit_ptr is null or the address of a listed block |
| `Engine.Find` | src/malloc.c:147-148 | findFreeBlock changes only next_fit_ptr, which becomes the returned block |
| `Engine.Count` | src/malloc.c:291 | counting the request keeps the invariant |
| `Engine.SplitSpec` | src/malloc.c:220-238 | splitBlock keeps the invariant, the break, heapList, the cursor, every listed block, and every counter but splits, blocks and max_heap |
| `Engine.GrowSpec` | src/malloc.c:163-205 | growHeap answers exactly when sbrk succeeds, with the old break; on failure nothing changes; the invariant holds |
| `Engine.MarkUsed` | src/malloc.c:324-331 | the epilogue only marks the block and counts the malloc |
| `Engine.ReuseSpec` | src/malloc.c:300-310 | reusing a found block keeps the invariant and counts one reuse and one malloc |
| `Engine.AllocSpec` | src/malloc.c:286-331 | malloc of a non-zero aligned n keeps the invariant and every listed block, counts n, and on failure leaves headers, list and break as they were |
| `Engine.GrowUsed` | src/malloc.c:312-331 | the growth path keeps the invariant |
| `Engine.AllocFound` | src/malloc.c:288-310 | when the search answers b, malloc is the reuse of b after counting n |
| `Engine.AllocMissed` | src/malloc.c:312-322 | when the search fails, *last is the tail and malloc is growHeap after it |
| `Engine.MallocSpec` | src/malloc.c:268-332 | malloc keeps the invariant and every listed block, and frees and coalesces are unchanged |
| `Engine.Release` | src/malloc.c:352-356 | marking the block free and counting the free keeps the invariant |
| `Engine.Released` | src/malloc.c:352 | free's pointer minus the header size is a listed block |
| `Engine.BackwardIndex` | src/malloc.c:359-366 | the scan searches for the block whose next is the released one (none for the head), and *last is the block it passed last |
| `Engine.BackwardFires` | src/malloc.c:367 | the backward merge never fires for the head's successor, and always fires when the released block is the only one |
| `Engine.Repair` | src/malloc.c:376-380 | next_fit_ptr moves to the surviving block when the header it points at says free, and otherwise stays |
| `Engine.Merge` | src/malloc.c:367-383 | the absorbing block grows by one header plus the absorbed payload and takes over its link; num_coalesces +1, num_blocks -1, max_heap unchanged; the cursor stays or moves to the absorbing block |
| `Engine.ForwardMerge` | src/malloc.c:385-400 | with a free successor, the block absorbs it and one coalesce is counted; otherwise nothing changes; max_heap never changes |
| `Engine.FreeSpec` | src/malloc.c:344-401 | free keeps the break and heapList, adds one free for a non-null pointer and leaves the other non-merge counters and max_heap alone |
| `Engine.ResizeInPlace` | src/malloc.c:420-428 | the in-place path keeps the invariant, the break and the counts of requests and mallocs |
| `Engine.Relocate` | src/malloc.c:430-437 | the moving path returns what malloc returned and keeps its request count |
| `Engine.ReallocSpec` | src/malloc.c:403-438 | realloc keeps the heap base, and realloc(p, 0) returns null |
| `Engine.ResizeSpec` | src/malloc.c:416-437 | a block already holding n bytes comes back at the same address, with the invariant and the break kept |
| `Engine.ReallocResizes` | src/malloc.c:403-418 | past the null and zero-size returns, realloc is the resize to ALIGN4(size) |
| `Engine.ReallocInPlace` | src/malloc.c:417-428 | a block already holding n bytes comes back unmoved after the in-place resize |
| `Engine.ResizeMoved` | src/malloc.c:430-437 | a smaller block: malloc(n) after counting n, then free of the old block on success |
| `MallocProps.Choice` | src/malloc.c:289 | the search's answer is a listed index |
| `MallocProps.FindSetsCursor` | src/malloc.c:147 | next_fit_ptr becomes the block returned, under every policy; on a miss *last is the tail |
| `MallocProps.SplitOutcome` | src/malloc.c:220-238 | exact headers of the block and its free remainder, every other listed header unchanged, the list with the remainder inserted, the same bytes covered, the counters |
| `MallocProps.MallocZero` | src/malloc.c:277-284 | malloc(0) and the wrapping sizes return null and change nothing |
| `MallocProps.MallocReuses` | src/malloc.c:300-310 | a found block is returned in use as the cursor without growth; reuses, mallocs and requested go up |
| `MallocProps.MallocSplitsLargeBlock` | src/malloc.c:302-305 | a block of at least n + H + 4 bytes is split to exactly n bytes with a free remainder of at least 4 |
| `MallocProps.SplitSpecKeeps` | src/malloc.c:220-238 | splitBlock leaves every listed header but the split block's as it was |
| `MallocProps.ReuseKeeps` | src/malloc.c:300-310 | the reuse of a block, split or not, leaves every other listed header as it was |
| `MallocProps.MallocReuseKeepsOthers` | src/malloc.c:300-331 | when the search answers a block, every other listed header, free flag included, is unchanged by malloc |
| `MallocProps.MallocKeepsSmallBlock` | src/malloc.c:302-310 | a smaller found block is handed out whole; only its flag changes |
| `MallocProps.MallocGrows` | src/malloc.c:312-331 | on a miss with sbrk granted: a new in-use block of n bytes at the old break after the old tail, exact counters |
| `MallocProps.MallocGrowKeepsOthers` | src/malloc.c:312-331 | on a miss with sbrk granted: the old tail's header changes only its link, and every other listed header, free flag included, is unchanged |
| `MallocProps.GrowUsedKeeps` | src/malloc.c:183-195 | growHeap and the in-use epilogue rewrite only the old tail's link among the listed headers |
| `MallocProps.MallocOutOfMemory` | src/malloc.c:318-322 | on a miss with sbrk refused: null, and only the request count and the cleared cursor change |
| `MallocProps.MallocResultFits` | src/malloc.c:268-332 | under first, best and worst fit a returned payload is in a block in use of at least n bytes |
| `MallocProps.ReusedBlockFits` | src/malloc.c:300-331 | the same for a reused block |
| `MallocProps.MallocAvoidsUsedBlocks` | src/malloc.c:286-331 | under first, best and worst fit an in-use block is never handed out |
| `MallocProps.MallocKeepsSmallerBlocks` | src/malloc.c:430-433 | malloc(n) never changes the size of a listed block smaller than n |
| `MallocProps.ReuseKeepsSmallerBlock` | src/malloc.c:300-305 | reusing another block leaves a smaller block's size alone |
| `MallocProps.MallocReusesBeforeGrowing` | src/malloc.c:286-316 | when some block fits, malloc succeeds without moving the break |
| `MallocProps.NextFitMissReturnsCursor` | src/malloc.c:136-147 | next fit with a cursor and nothing fitting returns the cursor block, even in use, without growth |
| `MallocProps.NoPolicyReturnsHead` | src/malloc.c:73-76 | with no policy, a non-empty heap answers with the head |
| `FreeProps.FreeNull` | src/malloc.c:346-349 | free(NULL) changes nothing |
| `FreeProps.BackwardTarget` | src/malloc.c:359-366 | the scan leaves the predecessor's predecessor in *last, null for index 1, the tail for the head |
| `FreeProps.ForwardMergeInv` | src/malloc.c:385-400 | the forward merge keeps the invariant, moving the cursor off the absorbed block |
| `FreeProps.FreePreservesInv` | src/malloc.c:344-401 | free keeps the invariant when the backward step does not fire |
| `FreeProps.FreeOutcome` | src/malloc.c:352-400 | the block is free and listed, one free counted, max_heap unchanged, and either no merge or exactly one |
| `FreeProps.FreeMergesFreeSuccessor` | src/malloc.c:386-393 | a free successor is absorbed: exact new header, list without it, every other listed header unchanged, one coalesce |
| `FreeProps.RepairMovesAnyFreeCursor` | src/malloc.c:395-399 | after a forward merge any cursor on a free block moves to the merged block |
| `FreeProps.FreeWithoutMerge` | src/malloc.c:352-356 | with no merge, free only sets the flag and counts the free |
| `FreeProps.NoBackward` | src/malloc.c:359-367 | the backward step stays off when *last is another block in use |
| `FreeProps.ReleaseBeforeFreeSuccessor` | src/malloc.c:352-400 | releasing a block before a free successor merges the two and keeps the invariant |
| `FreeProps.ReleaseUpper` | src/malloc.c:344-401 | releasing the upper of an in-use pair, with blocks i - 1 and i + 2 not free, only marks it |
| `FreeProps.LowerHasNoBackward` | src/malloc.c:359-367 | after that, the lower block's backward step stays off |
| `FreeProps.UpperThenLowerCoalesce` | src/malloc.c:344-401 | upper then lower: one free block of both payloads plus a header, invariant kept |
| `FreeProps.ReleaseAlone` | src/malloc.c:344-401 | a block with no free neighbour in reach is only marked free |
| `FreeProps.LowerThenUpperStaysSplit` | src/malloc.c:359-383 | lower then upper: two separate free blocks, no coalesce counted |
| `FreeProps.LowerLeavesUpperAlone` | src/malloc.c:359-367 | after the lower release, the upper block has no free neighbour in reach |
| `FreeProps.FreeLosesPredecessor` | src/malloc.c:359-383 | a free block two below absorbs the released one, covering the predecessor's header and leaving a gap below the next block |
| `FreeProps.BackwardMergeState` | src/malloc.c:367-383 | in that case the headers are the release followed by the absorb into the block two below, with one coalesce and one block fewer |
| `FreeProps.FreeSoleBlockOverruns` | src/malloc.c:359-383 | the only block absorbs itself, running H + size bytes past the break, and num_blocks becomes 0 |
| `FreeProps.ClosedWalk` | src/malloc.c:359-365 | a walk from a listed block of a closed list never reaches null |
| `FreeProps.FreeHeadCloses` | src/malloc.c:359-383 | releasing the head into a free tail leaves every listed header linking to a listed block |
| `FreeProps.FreeHeadCycles` | src/malloc.c:359-383 | so the walk from heapList never reaches null |
| `ReallocProps.ReallocDelegates` | src/malloc.c:405-414 | realloc(NULL, size) is malloc(size); realloc(p, 0) is free(p) returning null |
| `ReallocProps.InPlaceOutcome` | src/malloc.c:420-428 | in place: split only above n + H + 4 bytes with exact headers, otherwise nothing changes; break kept |
| `ReallocProps.ReallocKeepsBoundaryBlock` | src/malloc.c:423 | a block of exactly n + H + 4 bytes is returned unsplit |
| `ReallocProps.ReallocHugeShrinks` | src/malloc.c:416-428 | the wrapping sizes resize in place to 0 bytes |
| `ReallocProps.ReallocMoves` | src/malloc.c:430-437 | moving returns malloc's answer, counts n twice, frees the old block on success and leaves the heap alone on failure |
| `ReallocProps.NextFitMissAfterCount` | src/malloc.c:430 | under next fit the inner malloc answers the cursor, the block being resized |
| `ReallocProps.NextFitReallocReturnsFreedPointer` | src/malloc.c:430-437 | so realloc returns the payload address it frees |
| `CoalesceProps.CoalesceHeadGuardRedundant` | src/malloc.c:246 | the successor of a listed block is never the head |
| `CoalesceProps.CoalesceOutcome` | src/malloc.c:240-266 | exact merged header, list, and counters (max_heap - H) with a free successor, every other listed header unchanged; otherwise no change |
| `CoalesceProps.CoalescePreservesInv` | src/malloc.c:240-266 | coalesce keeps the invariant unless the cursor is on the absorbed block |
| `CoalesceProps.CoalesceStrandsCursor` | src/malloc.c:240-266 | a cursor on the absorbed block is kept, no longer listed, and the invariant fails |
| `Engine.CoalesceSpec` | src/malloc.c:240-266 | coalesce never moves the cursor, the break or heapList; it adds at most one coalesce, and each one removes one block and lowers max_heap by H |
| `Malloc.Allocator.constructor` | src/malloc.c:13-22 | process start: empty heap at the initial break, counters 0 |
| `Malloc.Allocator.FirstFitScan` | src/malloc.c:80-84 | the loop finds FirstFitIn's block, and *last is the block passed before it |
| `Malloc.Allocator.BestFitScan` | src/malloc.c:89-102 | the loop finds BestFitIndex's block, and *last is the tail |
| `Malloc.Allocator.WorstFitScan` | src/malloc.c:107-120 | the loop finds WorstFitIndex's block, and *last is the tail |
| `Malloc.Allocator.NextFitScan` | src/malloc.c:125-145 | the two loops find NextFitIndex's block and the *last they record |
| `Malloc.Allocator.ScanAfterCursor` | src/malloc.c:125-134 | the first loop finds the first fit after the cursor |
| `Malloc.Allocator.ScanFromHead` | src/malloc.c:136-145 | the wrapped loop stops at WrapStop or at the first fit |
| `Malloc.Allocator.FindFreeBlock` | src/malloc.c:73-149 | the state, result and *last that Find describes |
| `Malloc.Allocator.SplitBlock` | src/malloc.c:220-238 | the state SplitSpec describes, returning the block |
| `Malloc.Allocator.GrowHeap` | src/malloc.c:163-205 | the state GrowSpec describes |
| `Malloc.Allocator.Malloc` | src/malloc.c:268-332 | the state and payload MallocSpec describes; payload memory unchanged |
| `Malloc.Allocator.Alloc` | src/malloc.c:286-331 | the state and payload AllocSpec describes |
| `Malloc.Allocator.Grow` | src/malloc.c:312-331 | the state and payload GrowUsed describes |
| `Malloc.Allocator.Reuse` | src/malloc.c:300-310 | the state ReuseSpec describes |
| `Malloc.Allocator.MarkInUse` | src/malloc.c:324-331 | the state MarkUsed describes |
| `Malloc.Allocator.Free` | src/malloc.c:344-401 | the state FreeSpec describes |
| `Malloc.Allocator.BackwardStep` | src/malloc.c:367-383 | the backward merge fires exactly when *last is free, and merges into it |
| `Malloc.Allocator.Forward` | src/malloc.c:385-400 | the forward merge ForwardMerge describes |
| `Malloc.Allocator.MergeInto` | src/malloc.c:369-380 | one merge with the cursor repair, as Merge describes |
| `Malloc.Allocator.PredecessorScan` | src/malloc.c:359-366 | the scan stops with *last at BackwardIndex |
| `Malloc.Allocator.Coalesce` | src/malloc.c:240-266 | the state CoalesceSpec describes |
| `Malloc.Allocator.Realloc` | src/malloc.c:403-438 | the state and result ReallocSpec describes; when it moves, the old payload is copied to the new one |
| `Malloc.Allocator.Resize` | src/malloc.c:416-437 | the state and result ResizeSpec describes, with the copy when it moves |
| `Malloc.Allocator.ResizeHere` | src/malloc.c:420-428 | the state ResizeInPlace describes |
| `Malloc.Allocator.Move` | src/malloc.c:430-437 | malloc, memcpy of the old size, then free: Relocate of AllocSpec |
| `Malloc.Allocator.Calloc` | src/malloc.c:439-454 | malloc of (num * size) mod 2^64, then that many zero bytes at the payload |
| `Malloc.MemCopy` | src/malloc.c:433 | k bytes from src land at dst; every other byte is unchanged |
| `Malloc.MemSet` | src/malloc.c:450 | k bytes at dst become v; every other byte is unchanged |

## Left out

- `printStatistics` and its `atexit` registration (src/malloc.c:34-46, 271-275) are output only. The counters they print are modelled.
- `sbrk` is not modelled as a system call. Each allocating call takes a `granted` flag that says whether the break moves. The source has no path that returns null for a refused extension. The `-1` test at src/malloc.c:172 checks the result of `sbrk(0)` at line 166, not the extending call at line 167. A refused extension is caught only by `assert(curr == prev)` at line 169, which aborts the process. Built with NDEBUG, `growHeap` would write a header past the unchanged break and return it. The null result for `granted == false` is the model's abstraction of a refused extension, not something the source does.
- The counters are C `int`s. The model keeps them unbounded, so it does not model the 32-bit overflow, or the truncation of `size_t` growth into `max_heap` and `num_requested`.
- The split tests of `malloc` (src/malloc.c:302, `next->size >= size + sizeof(struct _block) + 4`) and of `realloc` (src/malloc.c:423, `curr->size > size + sizeof(struct _block) + 4`) are computed in `size_t`. For an aligned n >= 2^64 - 28 the threshold wraps to n + 28 - 2^64, which is below 28. The source then calls `splitBlock` on a block smaller than n, writing the remainder header inside the block's own header and wrapped sizes into both headers. The model compares unbounded integers, so in that range it hands such a block out whole. First, best and worst fit reach this only with a block of at least n bytes. Next fit on a miss and the no-policy search reach it with any block. The members below are stated for the unwrapped comparison:
- Engine.ReuseSpec: splits only when the size reaches n + H + 4 as an unbounded integer; for n >= 2^64 - 28 the source also splits smaller blocks and corrupts their headers.
- Malloc.Allocator.Reuse: the same unwrapped test as Engine.ReuseSpec.
- MallocProps.MallocKeepsSmallBlock: false of the source for n >= 2^64 - 28, where any found block of at least n + 28 - 2^64 bytes (at most 24) is split.
- MallocProps.MallocKeepsSmallerBlocks: false of the source for n >= 2^64 - 28 under next fit and no policy, which can hand out, and then split, a block smaller than n.
- MallocProps.ReuseKeepsSmallerBlock: the same range and cause as MallocProps.MallocKeepsSmallerBlocks.
- Engine.AllocSpec: its invariant holds for the model. Under next fit and no policy with n >= 2^64 - 28, the source's wrapped split breaks the list instead.
- Engine.MallocSpec: the same as Engine.AllocSpec, for the sizes whose alignment is at least 2^64 - 28.
- Engine.ResizeInPlace: splits only above n + H + 4 as an unbounded integer; for n >= 2^64 - 28 the source's wrapped test also splits a block of n to n + 28 bytes, with a wrapped remainder size.
- Malloc.Allocator.ResizeHere: the same unwrapped test as Engine.ResizeInPlace.
- ReallocProps.InPlaceOutcome: false of the source for n >= 2^64 - 28, where a block of at most n + H + 4 bytes is split.
- ReallocProps.ReallocKeepsBoundaryBlock: false of the source for n >= 2^64 - 28, where the boundary block is split.
- Addresses are unbounded naturals. The pointer arithmetic of `splitBlock` and `growHeap` does not wrap at 2^64.
- The increment `sizeof(struct _block) + size` that `growHeap` passes to `sbrk` (src/malloc.c:167) is a `size_t`, and `sbrk` takes it as a signed `intptr_t`. `malloc(SIZE_MAX - 3)` aligns to n = 2^64 - 4 and, when nothing fits, reaches `growHeap`. What the source does, by range of the aligned n:
  - From 2^64 - 24 to 2^64 - 4, the increment wraps to n + 24 - 2^64, between 0 and 20 bytes. `sbrk` succeeds and the assert at line 169 holds. `growHeap` records a block of n bytes whose payload lies past the new break, and `malloc` returns non-null.
  - From 2^63 - 24 to 2^64 - 28, the increment is negative as an `intptr_t`. `sbrk` lowers the break, and the new header is written at the old break, above it.
  - Below 2^63 - 24, a request the system cannot grant ends in the assert's abort, not in null (see the `sbrk` line above).

  The model raises the break by the unbounded H + n whenever `granted` holds. It has no state for a block that runs past the break, because the list invariant forbids one. The members below are stated for that unwrapped increment:
- Engine.GrowSpec: raises the break by H + n; for n >= 2^63 - 24 the source moves it by the wrapped increment, down or by at most 20 bytes, and leaves the new block's payload past the break.
- Malloc.Allocator.GrowHeap: the same unwrapped increment as Engine.GrowSpec.
- MallocProps.MallocGrows: its `r.0.top == st.top + H + n` is false of the source for n >= 2^63 - 24, where the break moves by the wrapped increment.
- MallocProps.MallocGrows: does not itself say that the other listed headers are unchanged. MallocProps.MallocGrowKeepsOthers states that for the same call, as a separate lemma to keep each proof small.
- MallocProps.MallocSplitsLargeBlock: does not itself say that the other listed headers are unchanged. MallocProps.MallocReuseKeepsOthers states that for every reused block, split or not, as a separate lemma to keep each proof small.
- Payload bytes and headers live in separate memories (`mem` and `hdr`). So the model does not capture a `memcpy` or `memset` that runs past its block into the next header. That can happen with the small blocks next fit and the no-policy search hand out. Nor does it capture what header writes do to payload bytes.
- `free` and `realloc` are modelled only for null or the payload of a listed block (`FreeArg`). Freeing a foreign pointer or a block twice is undefined in the source.
- `Malloc.Allocator.Free` requires the list invariant and does not promise it afterwards. This is deliberate: when the backward step fires, the source breaks the list (see `FreeProps`). Later calls need the invariant again.
- Concurrency: the source has no locking, and the model is sequential.
- `tests/test_malloc.c` is a driver program and not part of this model.
