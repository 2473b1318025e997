/** The pool state of mymalloc.c: block descriptors, the block list that covers the buffer, the
    reserve of spare descriptors, and pool creation (`create_mem_block`, `create_free_list`,
    `create_mem_pool`, `myinit`).

    The backing buffer is never read or written by the bookkeeping, so it is not modelled; a
    caller-visible pointer is a byte offset into it. */
module MemPool {
  import opened Optional
  import opened Lists

  /** Bytes per quantum (`BLOCK_SIZE`). */
  const BlockSize: nat := 8
  /** Quanta in the 1 MiB buffer (`BLOCK_COUNT`). */
  const BlockCount: nat := (1024 * 1024) / BlockSize
  /** Spare descriptors built at initialisation: `create_free_list` makes `count / 8` of them. */
  const ReserveSize: nat := BlockCount / 8

  /** Algorithm codes of mymalloc.h. */
  const FirstFit: int := 0
  const NextFit: int := 1
  const BestFit: int := 2

  /** A block descriptor (`struct mem_block`). `id` stands for the descriptor's own address,
      which never changes while it moves between the block list and the reserve; `base` is the
      offset of its region in quanta; `count` is the region's length in quanta. A descriptor
      still in the reserve since creation has a NULL `mem_ptr`; its `base` is 0 here, and no
      operation reads the base of a reserve descriptor before a split overwrites it. */
  datatype Block = Block(id: nat, base: nat, count: nat, isFree: bool)

  /** The `next_block` cursor: the block-list sentinel or a descriptor. */
  datatype Cursor = ListHead | Desc(id: nat)

  /** `struct mem_pool`: `blocks` is `mem_block_list`, `reserve` is `free_list`. */
  datatype Pool = Pool(blocks: seq<Block>, reserve: seq<Block>, nextBlock: Cursor, count: nat, alg: int)

  /** A caller-visible pointer: NULL or a byte offset into the buffer. */
  datatype Ptr = Null | Addr(offset: nat)

  /** The pointer a block hands out: `mem_ptr`, i.e. buffer start + base quanta. */
  function PtrOf(b: Block): (p: Ptr)
    ensures p.Addr? && p.offset % BlockSize == 0 && p.offset / BlockSize == b.base
  {
    Addr(b.base * BlockSize)
  }

  /** Sum of the counts of a descriptor sequence. */
  function Total(s: seq<Block>): nat
  {
    if |s| == 0 then 0 else s[0].count + Total(s[1..])
  }

  lemma {:induction false} TotalConcat(a: seq<Block>, b: seq<Block>)
    ensures Total(a + b) == Total(a) + Total(b)
  {
    if |a| == 0 {
      assert a + b == b;
    } else {
      assert (a + b)[1..] == a[1..] + b;
      TotalConcat(a[1..], b);
    }
  }

  lemma TotalAt(s: seq<Block>, i: nat)
    requires i < |s|
    ensures Total(s) == Total(s[..i]) + s[i].count + Total(s[i + 1..])
  {
    assert s == s[..i] + ([s[i]] + s[i + 1..]);
    TotalConcat(s[..i], [s[i]] + s[i + 1..]);
    assert ([s[i]] + s[i + 1..])[1..] == s[i + 1..];
  }

  /** Changing one descriptor changes the total by the difference of the two counts. */
  lemma TotalUpdate(s: seq<Block>, i: nat, b: Block)
    requires i < |s|
    ensures Total(s[i := b]) + s[i].count == Total(s) + b.count
  {
    TotalAt(s, i);
    TotalAt(s[i := b], i);
    assert s[i := b][..i] == s[..i];
    assert s[i := b][i + 1..] == s[i + 1..];
  }

  /** Appending a descriptor adds exactly its count to the total. */
  lemma TotalAddTail(s: seq<Block>, x: Block)
    ensures Total(ListAddTail(x, s)) == Total(s) + x.count
  {
    assert ListAddTail(x, s) == s + [x];
    TotalConcat(s, [x]);
    assert [x][1..] == [];
  }

  /** The identities of a descriptor sequence, with multiplicity. */
  function Ids(s: seq<Block>): multiset<nat>
  {
    multiset(seq(|s|, k requires 0 <= k < |s| => s[k].id))
  }

  lemma IdsConcat(a: seq<Block>, b: seq<Block>)
    ensures Ids(a + b) == Ids(a) + Ids(b)
  {
    var f := seq(|a + b|, k requires 0 <= k < |a + b| => (a + b)[k].id);
    var fa := seq(|a|, k requires 0 <= k < |a| => a[k].id);
    var fb := seq(|b|, k requires 0 <= k < |b| => b[k].id);
    assert f == fa + fb;
  }

  /** Replacing a descriptor by one with the same identity keeps the identities. */
  lemma IdsUpdate(s: seq<Block>, i: nat, b: Block)
    requires i < |s| && b.id == s[i].id
    ensures Ids(s[i := b]) == Ids(s)
  {
    var f := seq(|s|, k requires 0 <= k < |s| => s[k].id);
    var g := seq(|s[i := b]|, k requires 0 <= k < |s[i := b]| => s[i := b][k].id);
    assert f == g;
  }

  lemma IdsAddTail(s: seq<Block>, x: Block)
    ensures Ids(ListAddTail(x, s)) == Ids(s) + multiset{x.id}
  {
    assert ListAddTail(x, s) == s + [x];
    IdsConcat(s, [x]);
  }

  /** Every descriptor the pool owns, wherever it is linked. */
  function Descriptors(p: Pool): multiset<nat>
  {
    Ids(p.blocks) + Ids(p.reserve)
  }

  /** The invariants every operation keeps: the block list accounts for every quantum of the
      buffer, no descriptor is lost or created, every block is non-empty, and every spare
      descriptor is marked free. List order and address order are NOT related (see
      `Allocator.Split`), so neither sortedness nor non-overlap is part of it. */
  predicate Valid(p: Pool)
  {
    && p.count == BlockCount
    && Total(p.blocks) == BlockCount
    && |p.blocks| + |p.reserve| == ReserveSize + 1
    && (forall k :: 0 <= k < |p.blocks| ==> p.blocks[k].count > 0)
    && (forall k :: 0 <= k < |p.reserve| ==> p.reserve[k].isFree)
  }

  /** `create_mem_block(count)`: a free descriptor with a NULL region. */
  function NewBlock(id: nat, count: nat): (b: Block)
    ensures b.id == id && b.count == count && b.isFree
  {
    Block(id, 0, count, true)
  }

  /** The reserve after the first n iterations of `create_free_list`'s loop, each descriptor
      created with count `nr` and appended with `list_add_tail`. */
  function FreeList(n: nat, nr: nat): (r: seq<Block>)
    ensures |r| == n
    ensures forall k :: 0 <= k < n ==> r[k] == NewBlock(k, nr)
  {
    if n == 0 then InitListHead() else ListAddTail(NewBlock(n - 1, nr), FreeList(n - 1, nr))
  }

  /** `create_free_list(head, count)`: `count / 8` free spare descriptors, each with count
      `count / 8`, in creation order. */
  function CreateFreeList(count: nat): (r: seq<Block>)
    ensures |r| == count / 8
    ensures forall k :: 0 <= k < |r| ==> r[k].isFree && r[k].count == count / 8 && r[k].id == k
  {
    FreeList(count / 8, count / 8)
  }

  /** `create_mem_pool(alg, count)` when every host allocation succeeds: the reserve is built
      first, then one free descriptor spanning the whole buffer becomes the only block. */
  function CreateMemPool(alg: int, count: nat): (p: Pool)
    ensures p.blocks == [Block(count / 8, 0, count, true)]
    ensures |p.reserve| == count / 8
    ensures forall k :: 0 <= k < |p.reserve| ==> p.reserve[k].isFree && p.reserve[k].id == k
    ensures p.nextBlock == ListHead && p.count == count && p.alg == alg
  {
    var reserve := CreateFreeList(count);
    var first := NewBlock(|reserve|, count).(base := 0, count := count, isFree := true);
    Pool(ListAddTail(first, InitListHead()), reserve, ListHead, count, alg)
  }

  /** `myinit(alg)`: the process-wide pool becomes a fresh pool of `BLOCK_COUNT` quanta. Any
      algorithm code is accepted here; an unknown one is only rejected by `mymalloc`. */
  function Init(alg: int): (g: Option<Pool>)
    ensures g.Some? && Valid(g.value)
    ensures g.value.blocks == [Block(ReserveSize, 0, BlockCount, true)]
    ensures |g.value.reserve| == ReserveSize
    ensures forall k :: 0 <= k < ReserveSize ==> g.value.reserve[k].isFree && g.value.reserve[k].id == k
    ensures g.value.alg == alg && g.value.nextBlock == ListHead
  {
    var p := CreateMemPool(alg, BlockCount);
    assert Total(p.blocks) == BlockCount by {
      assert p.blocks[1..] == [];
    }
    Some(p)
  }
}
