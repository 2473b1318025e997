/** `mymalloc`, `myfree` and `myrealloc` of mymalloc.c over the process-wide pool, which is
    `None` before `myinit`. Every operation is a pure function from the pool to the new pool
    and the pointer it returns (for `myfree`, the new value of the caller's pointer variable).

    Behaviour is modelled as written, including where it departs from what the code itself
    evidently aims at:
    - a split puts the remainder at the TAIL of the block list, not after the split block, so
      list order stops following address order, and coalescing, which looks only at list
      neighbours, may merge regions that are not adjacent in memory
      (`Scenarios.CoalescingMergesNonAdjacentRegions`);
    - an exact fit returns NULL although the block stays allocated, so `mymalloc`'s NULL no
      longer means that nothing was allocated;
    - next-fit scans from the list head, so the `next_block` cursor, kept "for use in next fit
      algorithm", is never read (see `Placement.FindNextFit`).
    Paths that the code leaves undefined are preconditions: a split with an empty reserve
    (`MallocDefined`), a pointer that matches no block, and a freed block at either end of the
    list, whose "neighbour" would be the list sentinel read as a block (`FreeDefined`,
    `ReallocDefined`). */
module Allocator {
  import opened Optional
  import opened Lists
  import opened MemPool
  import opened Placement

  /** `mymalloc` converts the byte size with floating-point arithmetic,
      `(size_t)(size / (float)8 + 0.5)`; below 2^24 that is exact and equals `(size + 4) / 8`.
      Larger requests are outside the model. */
  const MaxSize: nat := 0x100_0000

  /** The request in quanta: the byte size divided by the quantum, rounded to the nearest
      integer with halves rounded up. */
  function RequestCount(size: nat): (count: nat)
    requires size < MaxSize
    ensures count * BlockSize <= size + BlockSize / 2 < (count + 1) * BlockSize
    ensures count == 0 <==> size < BlockSize / 2
  {
    (size + BlockSize / 2) / BlockSize
  }

  /** The process-wide pool after a call, and the pointer the call produced. */
  datatype Step = Step(pool: Option<Pool>, ptr: Ptr)

  /** The split of `mymalloc`: block i keeps the first `count` quanta; the descriptor at the
      head of the reserve takes the rest, is appended at the TAIL of the block list and becomes
      the cursor. The remainder keeps the free flag it had in the reserve. */
  function Split(p: Pool, i: nat, count: nat): (q: Pool)
    requires i < |p.blocks| && count < p.blocks[i].count && |p.reserve| > 0
    ensures |q.blocks| == |p.blocks| + 1
    ensures q.blocks[i] == p.blocks[i].(count := count)
    ensures forall j :: 0 <= j < |p.blocks| && j != i ==> q.blocks[j] == p.blocks[j]
    ensures q.blocks[|p.blocks|].id == p.reserve[0].id
    ensures q.blocks[|p.blocks|].isFree == p.reserve[0].isFree
    ensures q.blocks[|p.blocks|].base == p.blocks[i].base + count
    ensures q.blocks[|p.blocks|].count + count == p.blocks[i].count
    ensures q.reserve == p.reserve[1..]
    ensures q.nextBlock == Desc(p.reserve[0].id)
    ensures q.count == p.count && q.alg == p.alg
  {
    var mb := p.blocks[i];
    var rem := p.reserve[0].(count := mb.count - count, base := mb.base + count);
    var (reserve', blocks') := ListMoveTail(p.reserve[0 := rem], 0, p.blocks[i := mb.(count := count)]);
    assert reserve' == p.reserve[1..];
    p.(blocks := blocks', reserve := reserve', nextBlock := Desc(rem.id))
  }

  /** A split keeps every pool invariant and every descriptor, and the remainder it links is
      free: quanta move from one block to the remainder, one descriptor moves from the reserve
      to the block list. */
  lemma SplitKeepsValid(p: Pool, i: nat, count: nat)
    requires Valid(p)
    requires i < |p.blocks| && 0 < count < p.blocks[i].count && |p.reserve| > 0
    ensures Valid(Split(p, i, count))
    ensures Descriptors(Split(p, i, count)) == Descriptors(p)
    ensures Split(p, i, count).blocks[|p.blocks|].isFree
  {
    var q := Split(p, i, count);
    var mb := p.blocks[i];
    var shrunk := p.blocks[i := mb.(count := count)];
    var rem := q.blocks[|p.blocks|];
    assert q.blocks == ListAddTail(rem, shrunk);
    TotalUpdate(p.blocks, i, mb.(count := count));
    TotalAddTail(shrunk, rem);
    IdsUpdate(p.blocks, i, mb.(count := count));
    IdsAddTail(shrunk, rem);
    assert p.reserve == [p.reserve[0]] + p.reserve[1..];
    IdsConcat([p.reserve[0]], p.reserve[1..]);
    assert Ids([p.reserve[0]]) == multiset{p.reserve[0].id} by {
      assert seq(1, k requires 0 <= k < 1 => [p.reserve[0]][k].id) == [p.reserve[0].id];
    }
  }

  /** The search picks a block that must be split. */
  predicate NeedsSplit(p: Pool, count: nat)
    requires KnownAlg(p.alg)
  {
    var m := Find(p, count);
    m.hit.Some? && p.blocks[m.hit.value].count > count
  }

  /** `mymalloc` is defined unless it would split with an empty reserve, where
      `list_first_entry` would take the reserve's sentinel for a descriptor. */
  predicate MallocDefined(g: Option<Pool>, size: nat)
    requires size < MaxSize
  {
    var count := RequestCount(size);
    count == 0 || g.None? || !KnownAlg(g.value.alg) || !NeedsSplit(g.value, count) || |g.value.reserve| > 0
  }

  /** `mymalloc(size)`. Checks, in order: a request that rounds to 0 quanta, an uninitialised
      pool, an unknown algorithm code — each returns NULL with no change. Otherwise the
      pool's search runs: no fit returns NULL with no change; a larger block is split and its
      address returned; an exact fit stays allocated but NULL is returned. */
  function Malloc(g: Option<Pool>, size: nat): (r: Step)
    requires size < MaxSize
    requires MallocDefined(g, size)
    ensures RequestCount(size) == 0 || g.None? ==> r == Step(g, Null)
    ensures g.Some? && !KnownAlg(g.value.alg) ==> r == Step(g, Null)
    ensures g.Some? ==> r.pool.Some? && r.pool.value.count == g.value.count && r.pool.value.alg == g.value.alg
    ensures g.Some? ==> |r.pool.value.blocks| >= |g.value.blocks|
    ensures g.Some? ==> forall j :: 0 <= j < |g.value.blocks| && !g.value.blocks[j].isFree ==>
                          r.pool.value.blocks[j] == g.value.blocks[j]
    ensures RequestCount(size) > 0 && g.Some? && KnownAlg(g.value.alg) ==>
      var p, count := g.value, RequestCount(size);
      var m := Find(p, count);
      && (m.hit.None? ==> r == Step(g, Null))
      && (m.hit.Some? ==>
            var i := m.hit.value;
            var b := p.blocks[i];
            && b.isFree && b.count >= count
            && r.pool.value.blocks[i] == b.(isFree := false, count := count)
            && (b.count == count ==> r.ptr == Null && r.pool == Some(m.pool))
            && (b.count > count ==> r.ptr == PtrOf(b) && r.pool == Some(Split(m.pool, i, count))))
  {
    var count := RequestCount(size);
    if count == 0 then Step(g, Null)
    else if g.None? then Step(g, Null)
    else if !KnownAlg(g.value.alg) then Step(g, Null)
    else
      var m := Find(g.value, count);
      if m.hit.Some? && m.pool.blocks[m.hit.value].count > count then
        var mb := m.pool.blocks[m.hit.value];
        Step(Some(Split(m.pool, m.hit.value, count)), PtrOf(mb))
      else
        Step(Some(m.pool), Null)
  }

  /** `mymalloc` keeps every pool invariant and every descriptor. */
  lemma MallocKeepsValid(g: Option<Pool>, size: nat)
    requires size < MaxSize && MallocDefined(g, size)
    requires g.Some? && Valid(g.value)
    ensures Valid(Malloc(g, size).pool.value)
    ensures Descriptors(Malloc(g, size).pool.value) == Descriptors(g.value)
  {
    var p := g.value;
    var count := RequestCount(size);
    if count > 0 && KnownAlg(p.alg) {
      var m := Find(p, count);
      if m.hit.Some? {
        var i := m.hit.value;
        TotalUpdate(p.blocks, i, p.blocks[i].(isFree := false));
        IdsUpdate(p.blocks, i, p.blocks[i].(isFree := false));
        assert Valid(m.pool);
        if p.blocks[i].count > count {
          SplitKeepsValid(m.pool, i, count);
        }
      }
    }
  }

  /** The `list_for_each_entry` loop of `myfree` and `myrealloc` from index k onward: the first
      block whose pointer equals `v`. */
  function FindBlock(blocks: seq<Block>, v: Ptr, k: nat): (r: Option<nat>)
    requires k <= |blocks|
    requires forall j :: 0 <= j < k ==> PtrOf(blocks[j]) != v
    ensures r.None? ==> forall j :: 0 <= j < |blocks| ==> PtrOf(blocks[j]) != v
    ensures r.Some? ==> r.value < |blocks| && PtrOf(blocks[r.value]) == v
    ensures r.Some? ==> forall j :: 0 <= j < r.value ==> PtrOf(blocks[j]) != v
    decreases |blocks| - k
  {
    if k == |blocks| then None
    else if PtrOf(blocks[k]) == v then Some(k)
    else FindBlock(blocks, v, k + 1)
  }

  /** `myfree` is defined when the pool is uninitialised, or when some block has the
      pointer's value and that block has a real block on both sides in the list: otherwise the
      search, `list_next_entry` or `list_prev_entry` would take the list sentinel for a
      block. A NULL pointer variable matches no block and is therefore not defined either. */
  predicate FreeDefined(g: Option<Pool>, v: Ptr)
  {
    g.None? ||
    var h := FindBlock(g.value.blocks, v, 0);
    h.Some? && Next(g.value.blocks, At(h.value)).At? && Prev(g.value.blocks, At(h.value)).At?
  }

  /** Block t absorbs the count of block t + 1 (its list successor). */
  function Absorbed(blocks: seq<Block>, t: nat): (b: Block)
    requires t + 1 < |blocks|
    ensures b.count == blocks[t].count + blocks[t + 1].count
    ensures b.id == blocks[t].id && b.base == blocks[t].base && b.isFree == blocks[t].isFree
  {
    blocks[t].(count := blocks[t].count + blocks[t + 1].count)
  }

  /** The forward step of `myfree`: if the list successor of block i is free, block i absorbs
      its count and the successor moves to the reserve tail. */
  function ForwardCoalesce(p: Pool, i: nat): (q: Pool)
    requires i + 1 < |p.blocks|
    ensures !p.blocks[i + 1].isFree ==> q == p
    ensures p.blocks[i + 1].isFree ==>
      && q.blocks == p.blocks[..i] + [Absorbed(p.blocks, i)] + p.blocks[i + 2..]
      && q.reserve == p.reserve + [p.blocks[i + 1]]
    ensures q.nextBlock == p.nextBlock && q.count == p.count && q.alg == p.alg
  {
    var mb := p.blocks[i];
    var tmp := p.blocks[i + 1];
    if tmp.isFree then
      var (blocks', reserve') := ListMoveTail(p.blocks[i := mb.(count := mb.count + tmp.count)], i + 1, p.reserve);
      assert reserve' == p.reserve + [tmp];
      assert blocks' == p.blocks[..i] + [Absorbed(p.blocks, i)] + p.blocks[i + 2..];
      p.(blocks := blocks', reserve := reserve')
    else
      p
  }

  /** The backward step of `myfree`: if the list predecessor of block i is free, it absorbs
      block i's count and block i moves to the reserve tail. */
  function BackwardCoalesce(p: Pool, i: nat): (q: Pool)
    requires 0 < i < |p.blocks|
    ensures !p.blocks[i - 1].isFree ==> q == p
    ensures p.blocks[i - 1].isFree ==>
      && q.blocks == p.blocks[..i - 1] + [Absorbed(p.blocks, i - 1)] + p.blocks[i + 1..]
      && q.reserve == p.reserve + [p.blocks[i]]
    ensures q.nextBlock == p.nextBlock && q.count == p.count && q.alg == p.alg
  {
    var mb := p.blocks[i];
    var tmp := p.blocks[i - 1];
    if tmp.isFree then
      var (blocks', reserve') := ListMoveTail(p.blocks[i - 1 := tmp.(count := tmp.count + mb.count)], i, p.reserve);
      assert reserve' == p.reserve + [mb];
      assert blocks' == p.blocks[..i - 1] + [Absorbed(p.blocks, i - 1)] + p.blocks[i + 1..];
      p.(blocks := blocks', reserve := reserve')
    else
      p
  }

  lemma AbsorbTotal(s: seq<Block>, t: nat)
    requires t + 1 < |s|
    ensures Total(s[..t] + [Absorbed(s, t)] + s[t + 2..]) == Total(s)
  {
    var q := s[..t] + [Absorbed(s, t)] + s[t + 2..];
    assert Total(s) == Total(s[..t]) + s[t].count + s[t + 1].count + Total(s[t + 2..]) by {
      TotalAt(s, t);
      assert s[t + 1..][0] == s[t + 1] && s[t + 1..][1..] == s[t + 2..];
    }
    assert Total(q) == Total(s[..t]) + Absorbed(s, t).count + Total(s[t + 2..]) by {
      TotalAt(q, t);
      assert q[..t] == s[..t] && q[t + 1..] == s[t + 2..];
    }
  }

  lemma AbsorbIds(s: seq<Block>, t: nat)
    requires t + 1 < |s|
    ensures Ids(s[..t] + [Absorbed(s, t)] + s[t + 2..]) + multiset{s[t + 1].id} == Ids(s)
  {
    var front, back := s[..t], s[t + 2..];
    var x, y, m := s[t], s[t + 1], Absorbed(s, t);
    assert s == front + [x] + [y] + back;
    IdsConcat(front + [x] + [y], back);
    IdsConcat(front + [x], [y]);
    IdsConcat(front, [x]);
    IdsConcat(front + [m], back);
    IdsConcat(front, [m]);
    assert Ids([x]) == multiset{x.id} && Ids([y]) == multiset{y.id} && Ids([m]) == multiset{m.id} by {
      assert seq(1, k requires 0 <= k < 1 => [x][k].id) == [x.id];
      assert seq(1, k requires 0 <= k < 1 => [y][k].id) == [y.id];
      assert seq(1, k requires 0 <= k < 1 => [m][k].id) == [m.id];
    }
  }

  /** Block t absorbing its free list successor, which moves to the reserve tail, keeps the
      total, the descriptors and the invariants. Both coalescing steps are instances. */
  lemma AbsorbKeepsValid(p: Pool, t: nat, q: Pool)
    requires Valid(p) && t + 1 < |p.blocks| && p.blocks[t + 1].isFree
    requires q.blocks == p.blocks[..t] + [Absorbed(p.blocks, t)] + p.blocks[t + 2..]
    requires q.reserve == p.reserve + [p.blocks[t + 1]] && q.count == p.count
    ensures Valid(q)
    ensures Descriptors(q) == Descriptors(p)
  {
    AbsorbTotal(p.blocks, t);
    AbsorbIds(p.blocks, t);
    IdsConcat(p.reserve, [p.blocks[t + 1]]);
    assert Ids([p.blocks[t + 1]]) == multiset{p.blocks[t + 1].id} by {
      assert seq(1, k requires 0 <= k < 1 => [p.blocks[t + 1]][k].id) == [p.blocks[t + 1].id];
    }
    assert forall j :: 0 <= j < |q.blocks| ==> q.blocks[j].count > 0 by {
      forall j | 0 <= j < |q.blocks|
        ensures q.blocks[j].count > 0
      {
        if j < t {
          assert q.blocks[j] == p.blocks[j];
        } else if j > t {
          assert q.blocks[j] == p.blocks[j + 1];
        }
      }
    }
  }

  /** The first step of `myfree`: block i is marked free. Only that flag changes, so the
      quanta and the descriptors the pool accounts for stay the same. */
  function MarkFree(p: Pool, i: nat): (q: Pool)
    requires i < |p.blocks|
    ensures |q.blocks| == |p.blocks| && forall j :: 0 <= j < |p.blocks| && j != i ==> q.blocks[j] == p.blocks[j]
    ensures q.blocks[i].isFree && q.blocks[i] == p.blocks[i].(isFree := true)
    ensures q.reserve == p.reserve && q.nextBlock == p.nextBlock && q.count == p.count && q.alg == p.alg
    ensures Total(q.blocks) == Total(p.blocks) && Descriptors(q) == Descriptors(p)
  {
    var b := p.blocks[i].(isFree := true);
    TotalUpdate(p.blocks, i, b);
    IdsUpdate(p.blocks, i, b);
    p.(blocks := p.blocks[i := b])
  }

  /** The block list after freeing block i, which has a block on both sides: block i is
      marked free and absorbs its list successor if that is free; then its list predecessor
      absorbs it if that is free. Every other block keeps its place in list order. */
  function FreedList(blocks: seq<Block>, i: nat): seq<Block>
    requires 0 < i && i + 1 < |blocks|
  {
    var b, next, prev := blocks[i], blocks[i + 1], blocks[i - 1];
    var freed := b.(isFree := true, count := b.count + (if next.isFree then next.count else 0));
    var rest := if next.isFree then blocks[i + 2..] else blocks[i + 1..];
    blocks[..i - 1] + (if prev.isFree then [prev.(count := prev.count + freed.count)] else [prev, freed]) + rest
  }

  /** The outcome of freeing block i of `p`: the list becomes `FreedList`, and each absorbed
      descriptor goes to the reserve tail — at most one per direction, the successor first. */
  predicate FreedShape(p: Pool, i: nat, q: Pool)
    requires 0 < i && i + 1 < |p.blocks|
  {
    var b, next, prev := p.blocks[i], p.blocks[i + 1], p.blocks[i - 1];
    var freed := b.(isFree := true, count := b.count + (if next.isFree then next.count else 0));
    && q.count == p.count && q.alg == p.alg && q.nextBlock == p.nextBlock
    && q.reserve == p.reserve + (if next.isFree then [next] else []) + (if prev.isFree then [freed] else [])
    && q.blocks == FreedList(p.blocks, i)
  }

  /** Freeing block i changes no other allocated block: coalescing absorbs only free
      neighbours, so an allocated block can never be merged into a free one. */
  lemma FreeKeepsAllocatedBlocks(blocks: seq<Block>, i: nat)
    requires 0 < i && i + 1 < |blocks|
    ensures !blocks[i - 1].isFree ==> FreedList(blocks, i)[i - 1] == blocks[i - 1]
    ensures forall j :: 0 <= j < |blocks| && j != i && !blocks[j].isFree ==> blocks[j] in FreedList(blocks, i)
  {
  }

  /** The list after marking block i free and the forward step: its predecessor, the freed
      block (grown by a free successor) and the rest of the list. */
  lemma MarkThenForward(p: Pool, i: nat)
    requires 0 < i && i + 1 < |p.blocks|
    ensures
      var next := p.blocks[i + 1];
      var freed := p.blocks[i].(isFree := true, count := p.blocks[i].count + (if next.isFree then next.count else 0));
      var rest := if next.isFree then p.blocks[i + 2..] else p.blocks[i + 1..];
      var forward := ForwardCoalesce(MarkFree(p, i), i);
      && forward.blocks == p.blocks[..i - 1] + [p.blocks[i - 1], freed] + rest
      && forward.reserve == p.reserve + (if next.isFree then [next] else [])
  {
    var marked := MarkFree(p, i);
    var next, prev := p.blocks[i + 1], p.blocks[i - 1];
    var freed := p.blocks[i].(isFree := true, count := p.blocks[i].count + (if next.isFree then next.count else 0));
    assert p.blocks[..i] == p.blocks[..i - 1] + [prev];
    if next.isFree {
      assert marked.blocks[..i] == p.blocks[..i];
      assert marked.blocks[i + 2..] == p.blocks[i + 2..];
      assert Absorbed(marked.blocks, i) == freed;
    } else {
      assert marked.blocks == p.blocks[..i - 1] + [prev, freed] + p.blocks[i + 1..];
    }
  }

  /** Marking, the forward step and the backward step together have the outcome `FreedShape`
      describes. */
  lemma FreeStepsShape(p: Pool, i: nat)
    requires 0 < i && i + 1 < |p.blocks|
    ensures FreedShape(p, i, BackwardCoalesce(ForwardCoalesce(MarkFree(p, i), i), i))
  {
    var forward := ForwardCoalesce(MarkFree(p, i), i);
    var next, prev := p.blocks[i + 1], p.blocks[i - 1];
    var freed := p.blocks[i].(isFree := true, count := p.blocks[i].count + (if next.isFree then next.count else 0));
    var rest := if next.isFree then p.blocks[i + 2..] else p.blocks[i + 1..];
    MarkThenForward(p, i);
    var fb := p.blocks[..i - 1] + [prev, freed] + rest;
    assert forward.blocks[..i - 1] == p.blocks[..i - 1] && forward.blocks[i + 1..] == rest by {
      assert forward.blocks == fb;
    }
    assert forward.blocks[i - 1] == prev && forward.blocks[i] == freed;
    var q := BackwardCoalesce(forward, i);
    var moved := if next.isFree then [next] else [];
    if prev.isFree {
      var merged := prev.(count := prev.count + freed.count);
      assert Absorbed(forward.blocks, i - 1) == merged;
      assert q.blocks == p.blocks[..i - 1] + [merged] + rest;
      assert q.reserve == p.reserve + moved + [freed];
    } else {
      assert q == forward;
      assert q.blocks == p.blocks[..i - 1] + [prev, freed] + rest;
      assert q.reserve == p.reserve + moved + [];
    }
  }

  /** `myfree(&v)`. On an uninitialised pool nothing happens, not even to the caller's
      variable. Otherwise the caller's variable becomes NULL and the first block at `v` is
      freed and coalesced as `FreedShape` states. */
  function Free(g: Option<Pool>, v: Ptr): (r: Step)
    requires FreeDefined(g, v)
    ensures g.None? ==> r == Step(g, v)
    ensures g.Some? ==> r.ptr == Null && r.pool.Some?
    ensures g.Some? ==>
      var i := FindBlock(g.value.blocks, v, 0).value;
      PtrOf(g.value.blocks[i]) == v && FreedShape(g.value, i, r.pool.value)
  {
    if g.None? then Step(g, v)
    else
      var p := g.value;
      var i := FindBlock(p.blocks, v, 0).value;
      FreeStepsShape(p, i);
      Step(Some(BackwardCoalesce(ForwardCoalesce(MarkFree(p, i), i), i)), Null)
  }

  /** `myfree` keeps every pool invariant and every descriptor; in particular every descriptor
      it returns to the reserve is free. */
  lemma FreeKeepsValid(g: Option<Pool>, v: Ptr)
    requires FreeDefined(g, v)
    requires g.Some? && Valid(g.value)
    ensures Valid(Free(g, v).pool.value)
    ensures Descriptors(Free(g, v).pool.value) == Descriptors(g.value)
  {
    var p := g.value;
    var i := FindBlock(p.blocks, v, 0).value;
    var marked := MarkFree(p, i);
    TotalUpdate(p.blocks, i, marked.blocks[i]);
    IdsUpdate(p.blocks, i, marked.blocks[i]);
    assert Valid(marked);
    var forward := ForwardCoalesce(marked, i);
    if marked.blocks[i + 1].isFree {
      AbsorbKeepsValid(marked, i, forward);
    }
    assert forward.blocks[i].isFree;
    var backward := BackwardCoalesce(forward, i);
    if forward.blocks[i - 1].isFree {
      AbsorbKeepsValid(forward, i - 1, backward);
    }
    assert Free(g, v).pool.value == backward;
  }

  /** The pool after `myrealloc`, the pointer it returned, and the number of bytes its
      `memcpy` copied (0 when it copied nothing). */
  datatype Moved = Moved(pool: Option<Pool>, ptr: Ptr, copied: nat)

  /** `myrealloc` is defined on an uninitialised pool, and otherwise when its `mymalloc` is.
      The block found for the pointer is only read after a successful allocation, so only then
      must some block have the pointer's value, and the final `myfree` be defined on the pool
      `mymalloc` leaves. */
  predicate ReallocDefined(g: Option<Pool>, v: Ptr, size: nat)
    requires size < MaxSize
  {
    || g.None?
    || (v.Null? && MallocDefined(g, size))
    || (&& v.Addr?
        && MallocDefined(g, size)
        && (Malloc(g, size).ptr.Addr? ==>
              FindBlock(g.value.blocks, v, 0).Some? && FreeDefined(Malloc(g, size).pool, v)))
  }

  /** `myrealloc(v, size)`: NULL on an uninitialised pool; `mymalloc(size)` for a NULL `v`;
      otherwise a new allocation, and if it fails NULL is returned with `mymalloc`'s effect
      and the old block untouched, whether or not `v` matches a block. On success the old
      block's whole extent is copied — its count is read after the allocation, and it is not
      clamped to the new size — then the old block is freed and the new pointer returned. */
  function Realloc(g: Option<Pool>, v: Ptr, size: nat): (r: Moved)
    requires size < MaxSize
    requires ReallocDefined(g, v, size)
    ensures g.None? ==> r == Moved(g, Null, 0)
    ensures g.Some? && v.Null? ==> r == Moved(Malloc(g, size).pool, Malloc(g, size).ptr, 0)
    ensures g.Some? && v.Addr? && Malloc(g, size).ptr.Null? ==> r == Moved(Malloc(g, size).pool, Null, 0)
    ensures g.Some? && v.Addr? && Malloc(g, size).ptr.Null? ==>
      forall j :: 0 <= j < |g.value.blocks| && !g.value.blocks[j].isFree ==> r.pool.value.blocks[j] == g.value.blocks[j]
    ensures g.Some? && v.Addr? && Malloc(g, size).ptr.Addr? ==>
      var i := FindBlock(g.value.blocks, v, 0).value;
      var s := Malloc(g, size);
      var prior := g.value.blocks[i];
      && r.ptr == s.ptr && r.pool == Free(s.pool, v).pool
      && (!prior.isFree ==> r.copied == prior.count * BlockSize)
  {
    if g.None? then Moved(g, Null, 0)
    else if v.Null? then
      var s := Malloc(g, size);
      Moved(s.pool, s.ptr, 0)
    else
      var s := Malloc(g, size);
      if s.ptr.Null? then Moved(s.pool, Null, 0)
      else
        var i := FindBlock(g.value.blocks, v, 0).value;
        var copied := s.pool.value.blocks[i].count * BlockSize;
        var f := Free(s.pool, v);
        Moved(f.pool, s.ptr, copied)
  }

  /** `myrealloc` keeps every pool invariant and every descriptor. */
  lemma ReallocKeepsValid(g: Option<Pool>, v: Ptr, size: nat)
    requires size < MaxSize && ReallocDefined(g, v, size)
    requires g.Some? && Valid(g.value)
    ensures Valid(Realloc(g, v, size).pool.value)
    ensures Descriptors(Realloc(g, v, size).pool.value) == Descriptors(g.value)
  {
    MallocKeepsValid(g, size);
    var s := Malloc(g, size);
    if v.Addr? && s.ptr.Addr? {
      FreeKeepsValid(s.pool, v);
    }
  }

  /** A successful reallocation of an allocated block copies the old block's whole extent,
      which exceeds the new block whenever the request shrinks. */
  lemma ReallocCopiesOldExtent(g: Option<Pool>, v: Ptr, size: nat)
    requires size < MaxSize && ReallocDefined(g, v, size)
    requires g.Some? && v.Addr? && Malloc(g, size).ptr.Addr?
    requires !g.value.blocks[FindBlock(g.value.blocks, v, 0).value].isFree
    ensures var prior := g.value.blocks[FindBlock(g.value.blocks, v, 0).value];
            Realloc(g, v, size).copied == prior.count * BlockSize
            && (RequestCount(size) < prior.count ==> Realloc(g, v, size).copied > RequestCount(size) * BlockSize)
  {
  }
}
