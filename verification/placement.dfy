/** The three placement searches of mymalloc.c. Each scans the block list in list order,
    clears the free flag of the block it picks, re-links that block between its own neighbours
    (a no-op) and returns it, or returns NULL and changes nothing. */
module Placement {
  import opened Optional
  import opened Lists
  import opened MemPool

  /** A block can satisfy a request of `count` quanta. */
  predicate Fits(b: Block, count: nat)
  {
    b.isFree && b.count >= count
  }

  /** No block among the first `hi` fits. */
  predicate NoFitBelow(blocks: seq<Block>, count: nat, hi: nat)
  {
    forall j :: 0 <= j < hi && j < |blocks| ==> !Fits(blocks[j], count)
  }

  /** Block i is the first one in list order that fits. */
  predicate IsFirstFit(blocks: seq<Block>, count: nat, i: nat)
  {
    i < |blocks| && Fits(blocks[i], count) && NoFitBelow(blocks, count, i)
  }

  /** Among the first `hi` blocks, block i fits, no fitting block is smaller, and every
      fitting block before it is strictly larger (the earliest of the smallest wins). */
  predicate BestFitBelow(blocks: seq<Block>, count: nat, i: nat, hi: nat)
  {
    && i < hi <= |blocks|
    && Fits(blocks[i], count)
    && (forall j :: 0 <= j < hi && Fits(blocks[j], count) ==> blocks[i].count <= blocks[j].count)
    && (forall j :: 0 <= j < i && Fits(blocks[j], count) ==> blocks[i].count < blocks[j].count)
  }

  predicate IsBestFit(blocks: seq<Block>, count: nat, i: nat)
  {
    BestFitBelow(blocks, count, i, |blocks|)
  }

  /** The pool after a search, and the index of the block it returned (None for NULL). */
  datatype Match = Match(pool: Pool, hit: Option<nat>)

  /** What a search does to the block it picks: `is_free = 0`, then `__list_add(&mb->list,
      mb->list.prev, mb->list.next)`, which re-links the node where it already is. Only that
      block's free flag changes. */
  function Claim(p: Pool, i: nat): (q: Pool)
    requires i < |p.blocks|
    ensures q.blocks == p.blocks[i := p.blocks[i].(isFree := false)]
    ensures q.reserve == p.reserve && q.nextBlock == p.nextBlock && q.count == p.count && q.alg == p.alg
  {
    var claimed := p.blocks[i := p.blocks[i].(isFree := false)];
    ReAddLinkedNode(claimed, i);
    p.(blocks := ListInsert(ListDel(claimed, i), i, claimed[i]))
  }

  /** The `list_for_each_entry` loop of `find_block_first_fit` from index k onward. */
  function ScanFirstFit(blocks: seq<Block>, count: nat, k: nat): (r: Option<nat>)
    requires k <= |blocks|
    requires NoFitBelow(blocks, count, k)
    ensures r.None? ==> NoFitBelow(blocks, count, |blocks|)
    ensures r.Some? ==> IsFirstFit(blocks, count, r.value)
    decreases |blocks| - k
  {
    if k == |blocks| then None
    else if Fits(blocks[k], count) then Some(k)
    else ScanFirstFit(blocks, count, k + 1)
  }

  /** `find_block_first_fit`: the first fitting block in list order is claimed; with no fit,
      nothing changes. */
  function FindFirstFit(p: Pool, count: nat): (m: Match)
    ensures m.hit.None? <==> NoFitBelow(p.blocks, count, |p.blocks|)
    ensures m.hit.None? ==> m.pool == p
    ensures m.hit.Some? ==> IsFirstFit(p.blocks, count, m.hit.value) && m.pool == Claim(p, m.hit.value)
  {
    var hit := ScanFirstFit(p.blocks, count, 0);
    if hit.None? then Match(p, None) else Match(Claim(p, hit.value), hit)
  }

  /** The `list_for_each_entry` loop of `find_block_best_fit` from index k onward, `min` being
      the best block among the first k. A block replaces `min` only if strictly smaller. */
  function ScanBestFit(blocks: seq<Block>, count: nat, k: nat, min: Option<nat>): (r: Option<nat>)
    requires k <= |blocks|
    requires min.None? ==> NoFitBelow(blocks, count, k)
    requires min.Some? ==> BestFitBelow(blocks, count, min.value, k)
    ensures r.None? ==> NoFitBelow(blocks, count, |blocks|)
    ensures r.Some? ==> IsBestFit(blocks, count, r.value)
    decreases |blocks| - k
  {
    if k == |blocks| then min
    else if Fits(blocks[k], count) && (min.None? || blocks[k].count < blocks[min.value].count) then
      ScanBestFit(blocks, count, k + 1, Some(k))
    else
      ScanBestFit(blocks, count, k + 1, min)
  }

  /** `find_block_best_fit`: a fitting block of least count, the earliest among equals, is
      claimed; with no fit, nothing changes. */
  function FindBestFit(p: Pool, count: nat): (m: Match)
    ensures m.hit.None? <==> NoFitBelow(p.blocks, count, |p.blocks|)
    ensures m.hit.None? ==> m.pool == p
    ensures m.hit.Some? ==> IsBestFit(p.blocks, count, m.hit.value) && m.pool == Claim(p, m.hit.value)
  {
    var hit := ScanBestFit(p.blocks, count, 0, None);
    if hit.None? then Match(p, None) else Match(Claim(p, hit.value), hit)
  }

  /** `find_block_next_fit` as written: `iter` is loaded from `next_block`, but
      `list_for_each(iter, head)` reassigns it to `head->next` before the first test, so the
      scan starts at the first block exactly like first-fit. The cursor is only written: it is
      set to the claimed block. */
  function FindNextFit(p: Pool, count: nat): (m: Match)
    ensures m.hit.None? <==> NoFitBelow(p.blocks, count, |p.blocks|)
    ensures m.hit.None? ==> m.pool == p
    ensures m.hit.Some? ==> IsFirstFit(p.blocks, count, m.hit.value)
    ensures m.hit.Some? ==> m.pool == Claim(p, m.hit.value).(nextBlock := Desc(p.blocks[m.hit.value].id))
  {
    var hit := ScanFirstFit(p.blocks, count, 0);
    if hit.None? then Match(p, None)
    else Match(Claim(p, hit.value).(nextBlock := Desc(p.blocks[hit.value].id)), hit)
  }

  /** The algorithm codes `mymalloc`'s switch recognises. */
  predicate KnownAlg(alg: int)
    ensures KnownAlg(alg) <==> 0 <= alg <= 2
  {
    alg == FirstFit || alg == NextFit || alg == BestFit
  }

  /** The search `mymalloc` dispatches to for the pool's algorithm code. */
  function Find(p: Pool, count: nat): (m: Match)
    requires KnownAlg(p.alg)
    ensures m.hit.None? <==> NoFitBelow(p.blocks, count, |p.blocks|)
    ensures m.hit.None? ==> m.pool == p
    ensures m.hit.Some? ==> m.hit.value < |p.blocks| && Fits(p.blocks[m.hit.value], count)
    ensures m.hit.Some? ==> m.pool.blocks == p.blocks[m.hit.value := p.blocks[m.hit.value].(isFree := false)]
    ensures m.pool.reserve == p.reserve && m.pool.count == p.count && m.pool.alg == p.alg
    ensures p.alg == FirstFit ==> m == FindFirstFit(p, count)
    ensures p.alg == BestFit ==> m == FindBestFit(p, count)
    ensures p.alg == NextFit ==> m == FindNextFit(p, count)
    ensures m.hit.Some? && p.alg == BestFit ==> IsBestFit(p.blocks, count, m.hit.value)
    ensures m.hit.Some? && p.alg != BestFit ==> IsFirstFit(p.blocks, count, m.hit.value)
    ensures m.pool.nextBlock == if m.hit.Some? && p.alg == NextFit then Desc(p.blocks[m.hit.value].id) else p.nextBlock
  {
    if p.alg == FirstFit then FindFirstFit(p, count)
    else if p.alg == BestFit then FindBestFit(p, count)
    else FindNextFit(p, count)
  }

  /** Two blocks that are both "first fit" are the same block. */
  lemma FirstFitUnique(blocks: seq<Block>, count: nat, i: nat, j: nat)
    requires IsFirstFit(blocks, count, i) && IsFirstFit(blocks, count, j)
    ensures i == j
  {
  }

  /** Next-fit picks the same block as first-fit on the same pool and differs from it only in
      recording that block in the cursor. */
  lemma NextFitIsFirstFit(p: Pool, count: nat)
    ensures FindNextFit(p, count).hit == FindFirstFit(p, count).hit
    ensures FindNextFit(p, count).hit.None? ==> FindNextFit(p, count).pool == FindFirstFit(p, count).pool
    ensures FindNextFit(p, count).hit.Some? ==>
      FindNextFit(p, count).pool ==
        FindFirstFit(p, count).pool.(nextBlock := Desc(p.blocks[FindNextFit(p, count).hit.value].id))
  {
    var n := FindNextFit(p, count);
    var f := FindFirstFit(p, count);
    if n.hit.Some? && f.hit.Some? {
      FirstFitUnique(p.blocks, count, n.hit.value, f.hit.value);
    }
  }

  /** The cursor's value never influences which block next-fit picks. */
  lemma NextFitIgnoresCursor(p: Pool, c: Cursor, count: nat)
    ensures FindNextFit(p.(nextBlock := c), count).hit == FindNextFit(p, count).hit
  {
    var a := FindNextFit(p.(nextBlock := c), count);
    var b := FindNextFit(p, count);
    if a.hit.Some? && b.hit.Some? {
      FirstFitUnique(p.blocks, count, a.hit.value, b.hit.value);
    }
  }

  /** Best-fit and first-fit agree on whether a request can be met, and the block best-fit
      picks is never larger than first-fit's, nor earlier in the list. */
  lemma BestFitVersusFirstFit(p: Pool, count: nat)
    ensures FindBestFit(p, count).hit.None? <==> FindFirstFit(p, count).hit.None?
    ensures FindBestFit(p, count).hit.Some? ==>
      var b := FindBestFit(p, count).hit.value;
      var f := FindFirstFit(p, count).hit.value;
      p.blocks[b].count <= p.blocks[f].count && f <= b
  {
  }
}
