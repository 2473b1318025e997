/** Concrete runs of the allocator, each pinned down by its contract: the allocation prefix
    of the test driver, the places where the code does something other than what it evidently
    aims at (merging regions that are not adjacent, NULL for an allocated exact fit), and a
    `myrealloc` whose failed allocation never looks at the unmatched pointer. */
module Scenarios {
  import opened Optional
  import opened MemPool
  import opened Placement
  import opened Allocator

  /** A first-fit pool whose block list is `blocks` and whose reserve still starts with the
      untouched descriptors `next`, `next + 1`, ..., `RESERVE_SIZE - 1`, in creation order. */
  predicate Reached(g: Option<Pool>, blocks: seq<Block>, next: nat)
  {
    && g.Some? && Valid(g.value) && g.value.alg == FirstFit && g.value.blocks == blocks
    && next <= ReserveSize && |g.value.reserve| + next >= ReserveSize
    && (forall k :: 0 <= k < ReserveSize - next ==> g.value.reserve[k].id == next + k)
  }

  /** `myinit(FIRST_FIT)`: one free block over the whole buffer, the full reserve behind it. */
  method InitAt() returns (g: Option<Pool>)
    ensures g == Init(FirstFit)
    ensures Reached(g, [Block(ReserveSize, 0, BlockCount, true)], 0)
  {
    g := Init(FirstFit);
  }

  /** A first-fit `mymalloc` whose first fitting block i is larger than the request: block i
      shrinks to the request and is allocated, the next untouched reserve descriptor becomes
      the free remainder at the tail of the list, and block i's address is returned. */
  lemma FirstFitSplitStep(g: Option<Pool>, blocks: seq<Block>, next: nat, size: nat, i: nat)
    requires Reached(g, blocks, next) && next < ReserveSize && size < MaxSize
    requires IsFirstFit(blocks, RequestCount(size), i) && 0 < RequestCount(size) < blocks[i].count
    ensures MallocDefined(g, size)
    ensures Malloc(g, size).ptr == PtrOf(blocks[i])
    ensures var count, b := RequestCount(size), blocks[i];
            Reached(Malloc(g, size).pool,
                    blocks[i := b.(isFree := false, count := count)] + [Block(next, b.base + count, b.count - count, true)],
                    next + 1)
  {
    var p, count := g.value, RequestCount(size);
    var m := Find(p, count);
    FirstFitUnique(p.blocks, count, i, m.hit.value);
    MallocKeepsValid(g, size);
    var q := Malloc(g, size).pool.value;
    assert q == Split(m.pool, i, count);
    assert q.blocks == p.blocks[i := p.blocks[i].(isFree := false, count := count)] + [q.blocks[|p.blocks|]];
  }

  /** The same call as `FirstFitSplitStep`, stated on fresh variables. */
  method MallocAt(g: Option<Pool>, blocks: seq<Block>, next: nat, size: nat, i: nat, after: seq<Block>)
    returns (s: Step)
    requires Reached(g, blocks, next) && next < ReserveSize && size < MaxSize
    requires IsFirstFit(blocks, RequestCount(size), i) && 0 < RequestCount(size) < blocks[i].count
    requires after == blocks[i := blocks[i].(isFree := false, count := RequestCount(size))]
                      + [Block(next, blocks[i].base + RequestCount(size), blocks[i].count - RequestCount(size), true)]
    ensures MallocDefined(g, size)
    ensures s.ptr == PtrOf(blocks[i]) && Reached(s.pool, after, next + 1)
  {
    FirstFitSplitStep(g, blocks, next, size, i);
    s := Malloc(g, size);
  }

  /** A first-fit `mymalloc` whose first fitting block is an exact fit: the block is allocated
      and nothing else changes, yet NULL is returned. */
  method MallocExactAt(g: Option<Pool>, blocks: seq<Block>, next: nat, size: nat, i: nat)
    returns (s: Step)
    requires Reached(g, blocks, next) && size < MaxSize
    requires IsFirstFit(blocks, RequestCount(size), i) && 0 < RequestCount(size) == blocks[i].count
    ensures MallocDefined(g, size)
    ensures s.ptr == Null && Reached(s.pool, blocks[i := blocks[i].(isFree := false)], next)
  {
    var m := Find(g.value, RequestCount(size));
    FirstFitUnique(blocks, RequestCount(size), i, m.hit.value);
    MallocKeepsValid(g, size);
    s := Malloc(g, size);
  }

  /** The block search of `myfree` finds the first block at `v`. */
  lemma FindBlockAt(blocks: seq<Block>, v: Ptr, i: nat)
    requires i < |blocks| && PtrOf(blocks[i]) == v
    requires forall j :: 0 <= j < i ==> PtrOf(blocks[j]) != v
    ensures FindBlock(blocks, v, 0) == Some(i)
  {
  }

  /** `myfree` of the block i that is the first at `v`, with a block on each side: the list
      becomes `FreedList`, the reserve keeps its untouched prefix, and the caller's variable
      becomes NULL. */
  lemma FreeStep(g: Option<Pool>, blocks: seq<Block>, next: nat, v: Ptr, i: nat)
    requires Reached(g, blocks, next) && 0 < i && i + 1 < |blocks|
    requires PtrOf(blocks[i]) == v && forall j :: 0 <= j < i ==> PtrOf(blocks[j]) != v
    ensures FreeDefined(g, v) && FindBlock(blocks, v, 0) == Some(i)
    ensures Free(g, v).ptr == Null && Reached(Free(g, v).pool, FreedList(blocks, i), next)
  {
    FindBlockAt(blocks, v, i);
    FreeKeepsValid(g, v);
    assert Free(g, v).pool.value.reserve[..|g.value.reserve|] == g.value.reserve;
  }

  /** The same call as `FreeStep`, stated on fresh variables. */
  method FreeAt(g: Option<Pool>, blocks: seq<Block>, next: nat, v: Ptr, i: nat, after: seq<Block>)
    returns (s: Step)
    requires Reached(g, blocks, next) && 0 < i && i + 1 < |blocks|
    requires PtrOf(blocks[i]) == v && forall j :: 0 <= j < i ==> PtrOf(blocks[j]) != v
    requires after == FreedList(blocks, i)
    ensures FreeDefined(g, v)
    ensures s.ptr == Null && Reached(s.pool, after, next)
  {
    FreeStep(g, blocks, next, v, i);
    s := Free(g, v);
  }

  /** The list a first-fit split of block i leaves, `next` being the remainder's descriptor. */
  function SplitList(blocks: seq<Block>, next: nat, i: nat, count: nat): (r: seq<Block>)
    requires i < |blocks| && count < blocks[i].count
    ensures |r| == |blocks| + 1 && r[|blocks|].id == next && r[|blocks|].isFree
    ensures r[i].base == blocks[i].base && !r[i].isFree && r[i].count == count
    ensures forall j :: 0 <= j < |blocks| && j != i ==> r[j] == blocks[j]
  {
    var b := blocks[i];
    blocks[i := b.(isFree := false, count := count)] + [Block(next, b.base + count, b.count - count, true)]
  }

  /** A first-fit `mymalloc` that splits block i, followed by `myfree` of another block k
      with a block on each side: the free sees block k at the same index, with the same
      address. */
  lemma FreeAfterSplitStep(g: Option<Pool>, blocks: seq<Block>, next: nat, v: Ptr, size: nat, i: nat, k: nat)
    requires Reached(g, blocks, next) && next < ReserveSize && size < MaxSize
    requires IsFirstFit(blocks, RequestCount(size), i) && 0 < RequestCount(size) < blocks[i].count
    requires 0 < k < |blocks| && k != i
    requires PtrOf(blocks[k]) == v && forall j :: 0 <= j < k ==> PtrOf(blocks[j]) != v
    ensures MallocDefined(g, size) && Malloc(g, size).ptr == PtrOf(blocks[i])
    ensures Malloc(g, size).pool.value.blocks[k] == blocks[k]
    ensures FreeDefined(Malloc(g, size).pool, v)
    ensures Reached(Free(Malloc(g, size).pool, v).pool, FreedList(SplitList(blocks, next, i, RequestCount(size)), k), next + 1)
  {
    var mid := SplitList(blocks, next, i, RequestCount(size));
    FirstFitSplitStep(g, blocks, next, size, i);
    assert Malloc(g, size).pool.value.blocks == mid;
    forall j | 0 <= j < k
      ensures PtrOf(mid[j]) != v
    {
      assert PtrOf(mid[j]) == PtrOf(blocks[j]);
    }
    FreeStep(Malloc(g, size).pool, mid, next + 1, v, k);
  }

  /** A first-fit `myrealloc` of the allocated block k that splits another block i: the new
      block's address is returned, the old block's whole extent is copied, and the old block
      is then freed in the list the split left, where it keeps index k. */
  lemma ReallocSplitStep(g: Option<Pool>, blocks: seq<Block>, next: nat, v: Ptr, size: nat, i: nat, k: nat)
    requires Reached(g, blocks, next) && next < ReserveSize && size < MaxSize
    requires IsFirstFit(blocks, RequestCount(size), i) && 0 < RequestCount(size) < blocks[i].count
    requires 0 < k < |blocks| && k != i && !blocks[k].isFree
    requires PtrOf(blocks[k]) == v && forall j :: 0 <= j < k ==> PtrOf(blocks[j]) != v
    ensures ReallocDefined(g, v, size)
    ensures Realloc(g, v, size).ptr == PtrOf(blocks[i])
    ensures Realloc(g, v, size).copied == blocks[k].count * BlockSize
    ensures Reached(Realloc(g, v, size).pool, FreedList(SplitList(blocks, next, i, RequestCount(size)), k), next + 1)
  {
    FreeAfterSplitStep(g, blocks, next, v, size, i, k);
    FindBlockAt(blocks, v, k);
  }

  /** The same call as `ReallocSplitStep`, stated on fresh variables. */
  method ReallocAt(g: Option<Pool>, blocks: seq<Block>, next: nat, v: Ptr, size: nat, i: nat, k: nat,
                   after: seq<Block>) returns (m: Moved)
    requires Reached(g, blocks, next) && next < ReserveSize && size < MaxSize
    requires IsFirstFit(blocks, RequestCount(size), i) && 0 < RequestCount(size) < blocks[i].count
    requires 0 < k < |blocks| && k != i && !blocks[k].isFree
    requires PtrOf(blocks[k]) == v && forall j :: 0 <= j < k ==> PtrOf(blocks[j]) != v
    requires after == FreedList(SplitList(blocks, next, i, RequestCount(size)), k)
    ensures ReallocDefined(g, v, size)
    ensures m.ptr == PtrOf(blocks[i]) && m.copied == blocks[k].count * BlockSize
    ensures Reached(m.pool, after, next + 1)
  {
    ReallocSplitStep(g, blocks, next, v, size, i, k);
    m := Realloc(g, v, size);
  }

  /** The buffer is split as the driver in test.c does under first-fit:
      `mymalloc(10)`, `mymalloc(800)`, `mymalloc(100)`, then `myrealloc(c, 256)`. The last
      call copies the 13 quanta of `c`, frees it, and does not merge it: both of its list
      neighbours are allocated. The driver's next call, `myfree(&a)`, is undefined: `a` is the
      first block, whose list predecessor is the sentinel. */
  method ReplayTestPrefix() returns (a: Ptr, b: Ptr, c: Ptr, c2: Ptr, copied: nat, final: Option<Pool>)
    ensures a == Addr(0) && b == Addr(8) && c == Addr(808)
    ensures c2 == Addr(912) && copied == 104
    ensures final.Some? && Valid(final.value)
    ensures final.value.blocks == [
      Block(ReserveSize, 0, 1, false), Block(0, 1, 100, false), Block(1, 101, 13, true),
      Block(2, 114, 32, false), Block(3, 146, BlockCount - 146, true)]
    ensures !FreeDefined(final, a)
  {
    var g3;
    a, b, c, g3 := DriverAllocations();
    var blocks3 := [Block(ReserveSize, 0, 1, false), Block(0, 1, 100, false), Block(1, 101, 13, false),
      Block(2, 114, BlockCount - 114, true)];
    var m := ReallocAt(g3, blocks3, 3, c, 256, 3, 2, [Block(ReserveSize, 0, 1, false), Block(0, 1, 100, false),
      Block(1, 101, 13, true), Block(2, 114, 32, false), Block(3, 146, BlockCount - 146, true)]);
    c2 := m.ptr;
    copied := m.copied;
    final := m.pool;
  }

  /** `myinit(FIRST_FIT)`, then the driver's `mymalloc(10)`, `mymalloc(800)` and
      `mymalloc(100)`: 1, 100 and 13 quanta in address and list order. */
  method DriverAllocations() returns (a: Ptr, b: Ptr, c: Ptr, g: Option<Pool>)
    ensures a == Addr(0) && b == Addr(8) && c == Addr(808)
    ensures Reached(g, [Block(ReserveSize, 0, 1, false), Block(0, 1, 100, false), Block(1, 101, 13, false),
                        Block(2, 114, BlockCount - 114, true)], 3)
  {
    var g0 := InitAt();
    var s1 := MallocAt(g0, [Block(ReserveSize, 0, BlockCount, true)], 0, 10, 0,
      [Block(ReserveSize, 0, 1, false), Block(0, 1, BlockCount - 1, true)]);
    a := s1.ptr;
    var s2 := MallocAt(s1.pool, [Block(ReserveSize, 0, 1, false), Block(0, 1, BlockCount - 1, true)], 1, 800, 1,
      [Block(ReserveSize, 0, 1, false), Block(0, 1, 100, false), Block(1, 101, BlockCount - 101, true)]);
    b := s2.ptr;
    var s3 := MallocAt(s2.pool,
      [Block(ReserveSize, 0, 1, false), Block(0, 1, 100, false), Block(1, 101, BlockCount - 101, true)], 2, 100, 2,
      [Block(ReserveSize, 0, 1, false), Block(0, 1, 100, false), Block(1, 101, 13, false),
       Block(2, 114, BlockCount - 114, true)]);
    c := s3.ptr;
    g := s3.pool;
  }

  /** Two regions overlap in the buffer. */
  predicate Overlap(x: Block, y: Block)
  {
    x.base < y.base + y.count && y.base < x.base + x.count
  }

  /** Because a split remainder goes to the tail of the block list, list neighbours need not
      be memory neighbours, and coalescing by list neighbour then merges regions that are not
      adjacent: here the final list has two free blocks whose regions overlap, while the last
      quantum of the buffer belongs to no block (the counts still sum to `BLOCK_COUNT`). */
  method CoalescingMergesNonAdjacentRegions() returns (final: Option<Pool>)
    ensures final.Some? && Valid(final.value)
    ensures final.value.blocks == [
      Block(ReserveSize, 0, 1, false), Block(0, 1, BlockCount - 2, true), Block(3, 2, 1, true)]
    ensures Overlap(final.value.blocks[1], final.value.blocks[2])
    ensures forall k :: 0 <= k < |final.value.blocks| ==>
              final.value.blocks[k].base + final.value.blocks[k].count < BlockCount
  {
    var g := ReuseFreedRegion();
    // free C (quantum 3): it absorbs its list successor, the free tail of the buffer
    var blocks := [Block(ReserveSize, 0, 1, false), Block(0, 1, 1, false), Block(1, 3, 1, false),
      Block(2, 4, BlockCount - 4, true), Block(3, 2, 1, true)];
    var after := [Block(ReserveSize, 0, 1, false), Block(0, 1, 1, false),
      Block(1, 3, BlockCount - 3, true), Block(3, 2, 1, true)];
    var s := FreeAt(g, blocks, 4, Addr(24), 2, after);
    // free B (quantum 1): it absorbs C's region, which now runs to the end of the buffer
    blocks, after := after, [Block(ReserveSize, 0, 1, false), Block(0, 1, BlockCount - 2, true),
      Block(3, 2, 1, true)];
    s := FreeAt(s.pool, blocks, 4, Addr(8), 1, after);
    final := s.pool;
  }

  /** After `AllocateThree`, B is freed (neither list neighbour is free) and `mymalloc(8)`
      takes its first quantum; the remainder, quantum 2, goes to the list tail, after the
      free tail of the buffer. */
  method ReuseFreedRegion() returns (g: Option<Pool>)
    ensures Reached(g, [Block(ReserveSize, 0, 1, false), Block(0, 1, 1, false), Block(1, 3, 1, false),
                        Block(2, 4, BlockCount - 4, true), Block(3, 2, 1, true)], 4)
  {
    var g3, s := AllocateThree();
    var blocks := [Block(ReserveSize, 0, 1, false), Block(0, 1, 2, false), Block(1, 3, 1, false),
      Block(2, 4, BlockCount - 4, true)];
    var after := [Block(ReserveSize, 0, 1, false), Block(0, 1, 2, true), Block(1, 3, 1, false),
      Block(2, 4, BlockCount - 4, true)];
    s := FreeAt(g3, blocks, 3, Addr(8), 1, after);
    blocks, after := after, [Block(ReserveSize, 0, 1, false), Block(0, 1, 1, false), Block(1, 3, 1, false),
      Block(2, 4, BlockCount - 4, true), Block(3, 2, 1, true)];
    s := MallocAt(s.pool, blocks, 3, 8, 1, after);
    g := s.pool;
  }

  /** `myinit(FIRST_FIT)` followed by `mymalloc(8)`, `mymalloc(16)` and `mymalloc(8)`: regions
      A (quantum 0), B (quanta 1-2) and C (quantum 3), in address and list order. */
  method AllocateThree() returns (g: Option<Pool>, s: Step)
    ensures s.ptr == Addr(24)
    ensures Reached(s.pool, [Block(ReserveSize, 0, 1, false), Block(0, 1, 2, false), Block(1, 3, 1, false),
                             Block(2, 4, BlockCount - 4, true)], 3)
    ensures g == s.pool
  {
    g := InitAt();
    s := MallocAt(g, [Block(ReserveSize, 0, BlockCount, true)], 0, 8, 0,
      [Block(ReserveSize, 0, 1, false), Block(0, 1, BlockCount - 1, true)]);
    s := MallocAt(s.pool, [Block(ReserveSize, 0, 1, false), Block(0, 1, BlockCount - 1, true)], 1, 16, 1,
      [Block(ReserveSize, 0, 1, false), Block(0, 1, 2, false), Block(1, 3, BlockCount - 3, true)]);
    s := MallocAt(s.pool, [Block(ReserveSize, 0, 1, false), Block(0, 1, 2, false), Block(1, 3, BlockCount - 3, true)],
      2, 8, 2,
      [Block(ReserveSize, 0, 1, false), Block(0, 1, 2, false), Block(1, 3, 1, false), Block(2, 4, BlockCount - 4, true)]);
    g := s.pool;
  }

  /** An exact fit is claimed, so the block is allocated, yet `mymalloc` returns NULL: the
      caller never learns the address, and since coalescing merges only free neighbours
      (`Allocator.FreeKeepsAllocatedBlocks`), the two quanta stay allocated for good. */
  method ExactFitReturnsNullButAllocates() returns (p: Ptr, final: Option<Pool>)
    ensures p == Null
    ensures final.Some? && |final.value.blocks| == 4 && final.value.blocks[1] == Block(0, 1, 2, false)
  {
    var g, s := AllocateThree();
    var blocks := [Block(ReserveSize, 0, 1, false), Block(0, 1, 2, false), Block(1, 3, 1, false),
      Block(2, 4, BlockCount - 4, true)];
    var after := [Block(ReserveSize, 0, 1, false), Block(0, 1, 2, true), Block(1, 3, 1, false),
      Block(2, 4, BlockCount - 4, true)];
    s := FreeAt(g, blocks, 3, Addr(8), 1, after);
    s := MallocExactAt(s.pool, after, 3, 16, 1);
    p := s.ptr;
    final := s.pool;
  }

  /** `myrealloc` of a pointer that matches no block is still defined when its allocation
      fails: 2^23 bytes exceed the buffer, so NULL is returned and the pool is unchanged. */
  lemma ReallocUnmatchedFailedAllocation()
    ensures ReallocDefined(Init(FirstFit), Addr(8), 0x80_0000)
    ensures FindBlock(Init(FirstFit).value.blocks, Addr(8), 0).None?
    ensures Realloc(Init(FirstFit), Addr(8), 0x80_0000) == Moved(Init(FirstFit), Null, 0)
  {
    var g := Init(FirstFit);
    assert !Fits(g.value.blocks[0], RequestCount(0x80_0000));
    assert Malloc(g, 0x80_0000) == Step(g, Null);
  }

  /** Free blocks of 50 and then 10 quanta, a request of 8: first-fit and next-fit take the
      first block, best-fit the smaller one. */
  lemma BestFitVersusFirstFitExample()
    ensures var p := Pool([Block(0, 0, 50, true), Block(1, 50, 10, true)], [], ListHead, BlockCount, BestFit);
            && FindBestFit(p, 8).hit == Some(1)
            && FindFirstFit(p, 8).hit == Some(0)
            && FindNextFit(p, 8).hit == Some(0)
  {
  }
}
