# mempool in Dafny

A model of the pool engine of the `mempool` block allocator (mymalloc.c) and of the intrusive
list primitives it is built on (mymalloc.h), with proofs about both.

The allocator carves a 1 MiB buffer into regions measured in 8-byte quanta. A *block list*
of descriptors covers the buffer. A *reserve* of spare descriptors, built once at
initialisation, supplies the remainder descriptor of each split and takes back the
descriptors that coalescing frees. Placement is first-fit, best-fit or next-fit.

- `Lists` (lists.dfy): the circular doubly linked list abstracted to a sequence. `Next` and
  `Prev` stand for the links and `Head` for the sentinel. The file covers `INIT_LIST_HEAD`,
  `__list_add`, `list_add`, `list_add_tail`, `list_del`, `list_move`, `list_move_tail`,
  `list_empty` and the forward iterators.
- `MemPool` (mempool.dfy): the descriptors (`Block`), the pool (`Pool`), caller pointers as
  byte offsets (`Ptr`), the invariant `Valid`, and pool creation.
  - `Valid` states that the counts of the list sum to `BLOCK_COUNT` (131072).
  - It also states that `|blocks| + |reserve|` is 16385, that every block is non-empty and
    that every spare descriptor is free.
  - Each descriptor carries an `id` standing for its address. This keeps the `next_block`
    cursor expressible and lets the model state that no descriptor is lost or created: the
    multiset `Descriptors` is preserved.
- `Placement` (placement.dfy): the three searches and the dispatch of `mymalloc`.
- `Allocator` (allocator.dfy): `mymalloc` with its split, `myfree` with both coalescing
  steps, `myrealloc`, and preservation of `Valid` and `Descriptors` by each of them.
- `Scenarios` (scenarios.dfy): concrete first-fit runs whose outcomes are fixed by their
  contracts. They are composed from small step members (`FirstFitSplitStep`, `FreeStep`,
  `ReallocSplitStep`) over any state with a given block list.

The process-wide `pool` pointer is an `Option<Pool>`, with `None` before `myinit`. Every
operation is a pure function from that value to the new value and the pointer it returns.

The model follows the code as written, also where the code does something other than what
it evidently aims at, and where it leaves behaviour undefined:

- **Split remainder.** It is appended at the tail of the block list (mymalloc.c:260), not
  right after the split block. Coalescing (mymalloc.c:282-294) merges a block with its list
  neighbours, which is only right if list neighbours are memory neighbours. After a split of
  a block that is not last, they are not, and coalescing can merge regions that are not
  adjacent (`Scenarios.CoalescingMergesNonAdjacentRegions`). No sortedness or non-overlap
  invariant is claimed; conservation of quanta is.
- **Exact fit.** A fit of exactly the requested size is marked allocated, yet `mymalloc`
  returns NULL (mymalloc.c:253-264), although its signature (mymalloc.h:12) and its split
  path (mymalloc.c:262) hand out the block's address. The caller cannot reach or free the
  block.
- **Next-fit.** `next_block` is kept "for use in next fit algorithm" (mymalloc.c:76-77), and
  the search loads it into its iterator (mymalloc.c:199). `list_for_each` then reassigns
  the iterator to the first element (mymalloc.c:201, mymalloc.h:137-138). So the scan starts
  at the list head, and the cursor is only written.
- **Empty reserve.** A split takes the reserve's first entry with `list_first_entry`
  (mymalloc.c:255) and has no emptiness test. On an empty reserve that entry is the
  sentinel read as a descriptor, which is undefined behaviour. It is a precondition
  (`Allocator.MallocDefined`).
- **Unmatched pointer.** The block searches of `myfree` (mymalloc.c:275-278) and
  `myrealloc` (mymalloc.c:309-312) have no not-found case. When nothing matches, the cursor
  ends on the sentinel read as a block.
  - `myfree` then writes through it (mymalloc.c:279). That is undefined behaviour, also for
    a NULL caller variable.
  - `myrealloc` reads it only after a successful allocation (mymalloc.c:315-318). So it is
    defined when the allocation fails (`Scenarios.ReallocUnmatchedFailedAllocation`).
  - `myfree` of a block at either end of the list reads the sentinel as a neighbour
    (mymalloc.c:282-283, mymalloc.c:289-290). The `tmp != NULL` tests never fire.
  - These are preconditions (`Allocator.FreeDefined`, `Allocator.ReallocDefined`).
- **Rounding.** A request of 0-3 bytes rounds to 0 quanta and is rejected as an invalid
  size (mymalloc.c:223-228).
- **Realloc copy length.** `myrealloc` reads the old block's count after its `mymalloc`
  (mymalloc.c:318) and does not clamp it to the new size.

## Model

| member | source | states |
|---|---|---|
| Lists.ListEmpty | mymalloc.h:223-226 | `list_empty` holds exactly when the list has no element |
| Lists.InitListHead | mymalloc.h:26-27 | `INIT_LIST_HEAD` yields a list that `list_empty` reports empty |
| Lists.Next | mymalloc.h:21-23 | a node's `next` is the following element, the sentinel's `next` is the first element, and the last element's `next` is the sentinel |
| Lists.Prev | mymalloc.h:21-23 | a node's `prev` is the preceding element, the sentinel's `prev` is the last element, and the first element's `prev` is the sentinel |
| Lists.NextPrevInverse | mymalloc.h:21-23 | the `next` and `prev` links of the ring are mutually inverse, at the sentinel and at every element |
| Lists.ListInsert | mymalloc.h:37-45 | `__list_add` between the nodes around position k makes the new node element k; the elements before k keep their index, and those after shift by one |
| Lists.ListAdd | mymalloc.h:48-54 | `list_add` makes the node the first element; the old elements follow in order |
| Lists.ListAddTail | mymalloc.h:57-63 | `list_add_tail` makes the node the last element; the old elements precede it in order |
| Lists.ListDel | mymalloc.h:66-76 | `list_del` removes exactly element i and keeps the rest in order |
| Lists.ListDelElements | mymalloc.h:73-76 | `list_del` loses exactly the unlinked element (multiset) |
| Lists.ListMove | mymalloc.h:79-83 | `list_move`: the source becomes exactly `list_del` of the node, and the node heads the destination, followed by the old destination |
| Lists.ListMoveTail | mymalloc.h:86-90 | `list_move_tail`: the source becomes exactly `list_del` of the node, and the node ends the destination, after the old destination |
| Lists.MoveKeepsElements | mymalloc.h:79-90 | both moves neither lose nor create an element across the two lists |
| Lists.MoveTailIsDelThenAddTail | mymalloc.h:86-90 | `list_move_tail` is `list_del` followed by `list_add_tail` |
| Lists.ReAddLinkedNode | mymalloc.h:37-45 | `__list_add(n, n->prev, n->next)` on a linked node leaves the list unchanged |
| Lists.ForEachFromSuffix | mymalloc.h:168-171 | iteration from element k visits exactly elements k.. in order, stopping at the sentinel |
| Lists.ListForEach | mymalloc.h:137-138 | `list_for_each` visits every element once, in sequence order |
| MemPool.PtrOf | mymalloc.c:259 | a block's pointer is quantum-aligned and addresses its base quantum |
| MemPool.TotalUpdate | mymalloc.c:257-258 | changing one descriptor's count changes the sum of counts by the difference |
| MemPool.NewBlock | mymalloc.c:23-35 | `create_mem_block(count)` yields a free descriptor of that count |
| MemPool.FreeList | mymalloc.c:51-56 | after n iterations of the loop, the reserve holds n descriptors, the k-th created k-th, each free with count `nr` |
| MemPool.CreateFreeList | mymalloc.c:46-57 | `create_free_list(count)` builds `count / 8` free descriptors of count `count / 8`, in creation order |
| MemPool.CreateMemPool | mymalloc.c:86-135 | the pool holds one free block spanning all `count` quanta at offset 0, the full reserve, the cursor at the list head and the algorithm code |
| MemPool.Init | mymalloc.c:215-218 | `myinit` yields a valid pool: one free block of 131072 quanta at offset 0 and 16384 free spare descriptors, for any algorithm code |
| Placement.Claim | mymalloc.c:172-173 | claiming clears exactly the chosen block's free flag; the re-link changes nothing else |
| Placement.ScanFirstFit | mymalloc.c:170-177 | the first-fit loop yields the first fitting block in list order, or none when no block fits |
| Placement.FindFirstFit | mymalloc.c:166-178 | NULL exactly when no block fits, with nothing changed; otherwise the first fitting block, claimed |
| Placement.ScanBestFit | mymalloc.c:185-189 | the best-fit loop yields a fitting block of least count, the earliest among equals, or none when no block fits |
| Placement.FindBestFit | mymalloc.c:180-195 | NULL exactly when no block fits, with nothing changed; otherwise a smallest fitting block, earliest on ties, claimed |
| Placement.FindNextFit | mymalloc.c:197-211 | NULL exactly when no block fits, with nothing changed; otherwise the first fitting block from the list head, claimed and recorded in the cursor |
| Placement.KnownAlg | mymalloc.c:238-250 | the codes the switch accepts are exactly 0, 1 and 2 (`FIRST_FIT`, `NEXT_FIT`, `BEST_FIT`) |
| Placement.Find | mymalloc.c:238-251 | `FIRST_FIT` runs first-fit, `BEST_FIT` best-fit and `NEXT_FIT` next-fit; a fitting block is returned iff one exists, the best one under best-fit and the first one otherwise; only that block's flag changes, and only next-fit moves the cursor, to that block |
| Placement.FirstFitUnique | mymalloc.c:170-175 | the first fit in list order is unique |
| Placement.NextFitIsFirstFit | mymalloc.c:199-206 | next-fit picks the same block as first-fit and differs only in the cursor |
| Placement.NextFitIgnoresCursor | mymalloc.c:199-201 | the cursor's value never changes the block next-fit picks |
| Placement.BestFitVersusFirstFit | mymalloc.c:166-195 | best-fit and first-fit fail together; best-fit's block is never larger than first-fit's and never earlier in the list |
| Allocator.RequestCount | mymalloc.c:223 | the request is the byte size over 8, rounded to nearest with halves up; it is 0 exactly for sizes below 4 |
| Allocator.Split | mymalloc.c:253-262 | the block shrinks to the request; the first spare descriptor takes the rest at base + request, is appended at the list tail and becomes the cursor; all other blocks are unchanged |
| Allocator.SplitKeepsValid | mymalloc.c:255-260 | a split keeps quanta, descriptors and the pool invariant, and the remainder it links is free |
| Allocator.Malloc | mymalloc.c:220-265 | NULL with no change, in this order, for a request of 0 quanta, no pool or an unknown algorithm; then no fit gives NULL with no change, an exact fit NULL with the block allocated, and a larger fit a split with the block's address; allocated blocks are never touched |
| Allocator.MallocKeepsValid | mymalloc.c:238-264 | `mymalloc` keeps the pool invariant and every descriptor |
| Allocator.FindBlock | mymalloc.c:275-278 | the block search yields the first block whose pointer equals the value, or none when none does |
| Allocator.MarkFree | mymalloc.c:279 | only the found block's free flag is set; the sum of counts and the descriptors are unchanged |
| Allocator.ForwardCoalesce | mymalloc.c:282-287 | a free successor is absorbed and moves to the reserve tail; otherwise nothing changes |
| Allocator.BackwardCoalesce | mymalloc.c:289-294 | a free predecessor absorbs the block, which moves to the reserve tail; otherwise nothing changes |
| Allocator.AbsorbKeepsValid | mymalloc.c:282-294 | absorbing a free list neighbour keeps quanta, descriptors and the pool invariant |
| Allocator.FreeStepsShape | mymalloc.c:279-294 | marking, then the forward step, then the backward step: at most one merge per direction, and absorbed descriptors reach the reserve tail successor first |
| Allocator.FreeKeepsAllocatedBlocks | mymalloc.c:282-294 | coalescing merges only free neighbours, so freeing one block leaves every other allocated block in the list unchanged, an allocated predecessor at its place |
| Allocator.Free | mymalloc.c:267-295 | no change at all without a pool; otherwise the caller's variable becomes NULL and the first block at the pointer is freed and coalesced with its list neighbours |
| Allocator.FreeKeepsValid | mymalloc.c:279-294 | `myfree` keeps the pool invariant and every descriptor, so every descriptor returned to the reserve is free |
| Allocator.Realloc | mymalloc.c:297-321 | NULL without a pool; `mymalloc` for a NULL pointer; a failed allocation returns NULL with `mymalloc`'s effect and leaves every allocated block unchanged, whether or not the pointer matches a block; success copies the old block's extent, frees it and returns the new pointer |
| Allocator.ReallocKeepsValid | mymalloc.c:304-320 | `myrealloc` keeps the pool invariant and every descriptor |
| Allocator.ReallocCopiesOldExtent | mymalloc.c:318 | the copy length is the old block's whole extent, which exceeds the new block when the request shrinks |
| Scenarios.FirstFitSplitStep | mymalloc.c:240-262 | a first-fit split of the first fitting block appends the next spare descriptor as a free remainder at the list tail |
| Scenarios.FreeStep | mymalloc.c:274-294 | freeing an inner block keeps the untouched prefix of the reserve and yields `FreedList` |
| Scenarios.ReallocSplitStep | mymalloc.c:314-320 | a first-fit `myrealloc` that splits another block copies the old block's extent and frees it where the split left it |
| Scenarios.ReplayTestPrefix | test.c:23-48 | the driver's allocations land at offsets 0, 1 and 101 quanta with 1, 100 and 13 quanta; `myrealloc(c, 256)` places 32 quanta at 114, copies 104 bytes and merges nothing; the following `myfree(&a)` is undefined |
| Scenarios.CoalescingMergesNonAdjacentRegions | mymalloc.c:260 | after a split of a non-last block, coalescing produces two free blocks whose regions overlap and leaves the last quantum in no block |
| Scenarios.ExactFitReturnsNullButAllocates | mymalloc.c:253-264 | an exact fit returns NULL while its block stays allocated |
| Scenarios.ReallocUnmatchedFailedAllocation | mymalloc.c:308-316 | `myrealloc` of an unmatched pointer whose allocation fails is defined and returns NULL with the pool unchanged |
| Scenarios.BestFitVersusFirstFitExample | mymalloc.c:180-211 | with free blocks of 50 and 10 quanta and a request of 8, best-fit takes the second and first-fit and next-fit the first |

## Left out

- test.c is an interactive driver. Only its allocation prefix is replayed (`Scenarios.ReplayTestPrefix`); its later frees hit the list-end case, which is undefined.
- Host `malloc`/`free` and `printf`: every acquisition is assumed to succeed, so the failure paths of `create_mem_block`, the skipped reserve entries (mymalloc.c:53-54) and the rollback of `create_mem_pool` (mymalloc.c:119-134) are not modelled.
- `destroy_mem_block`, `destroy_free_list`, `destroy_mem_pool` and `mycleanup` only release memory. The global `pool` is never reset, so a call after cleanup is a use after free, not an uninitialised pool.
- The single-precision rounding of `mymalloc` (mymalloc.c:223) is exact only below 2^24 bytes; larger sizes are excluded by the precondition `size < MaxSize`.
- Buffer contents and the bytes `memcpy` moves: only the copy length is modelled (`Moved.copied`).
- Undefined behaviour is a precondition rather than invented behaviour: an empty reserve at a split, a pointer matching no block in `myfree` (including a NULL caller variable) or in a `myrealloc` whose allocation succeeds, and a freed block at either end of the list.
- Raw links and container-of arithmetic (`list_entry`, `offsetof`, `typeof`, the GNU `?:` of `list_prepare_entry`): nodes are sequence elements.
- `list_replace`, `list_for_each_safe`, the backward iterators, `list_prepare_entry`, `list_for_each_entry_continue` and `list_for_each_entry_from`: no core operation uses them. `list_for_each_entry_safe` appears only in the destroy functions.
- Allocator.Realloc: the copy length is stated only when the old block is allocated. For a pointer to a free block, `mymalloc` may claim that very block first, and the length then read is its new count.
- Reserve descriptors are created with a NULL `mem_ptr`; the model stores base 0 there, which nothing reads before a split overwrites it.
