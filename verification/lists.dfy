/** The intrusive, circular, doubly linked list of mymalloc.h, abstracted to a sequence.

    A list whose sentinel is `head` and whose elements, in `next` order, are e0, e1, ..., en-1
    is the sequence [e0, ..., en-1]. A node of the ring is either the sentinel (`Head`) or the
    element at index i (`At(i)`); `next` and `prev` pointers become the functions `Next` and
    `Prev`. Container-of arithmetic (`list_entry`) disappears: an element of the sequence is
    the entry itself. */
module Lists {

  /** A node of the ring: the sentinel head or the i-th element. */
  datatype Node = Head | At(i: nat)

  /** `n` is a node of the list `s`. */
  predicate InList<T>(s: seq<T>, n: Node) {
    n.Head? || n.i < |s|
  }

  /** `n->next`: the sentinel's successor is the first element; the last element's successor
      is the sentinel. */
  function Next<T>(s: seq<T>, n: Node): (r: Node)
    requires InList(s, n)
    ensures InList(s, r)
    ensures r.At? <==> (n.Head? && |s| > 0) || (n.At? && n.i + 1 < |s|)
    ensures r.At? ==> r.i == if n.Head? then 0 else n.i + 1
  {
    match n
    case Head => if |s| == 0 then Head else At(0)
    case At(i) => if i + 1 < |s| then At(i + 1) else Head
  }

  /** `n->prev`: the mirror image of `Next`. */
  function Prev<T>(s: seq<T>, n: Node): (r: Node)
    requires InList(s, n)
    ensures InList(s, r)
    ensures r.At? <==> (n.Head? && |s| > 0) || (n.At? && n.i > 0)
    ensures r.At? ==> r.i == if n.Head? then |s| - 1 else n.i - 1
  {
    match n
    case Head => if |s| == 0 then Head else At(|s| - 1)
    case At(i) => if i == 0 then Head else At(i - 1)
  }

  /** The links are consistent: following `next` then `prev` (or the reverse) returns to the
      starting node, for the sentinel and every element alike. */
  lemma NextPrevInverse<T>(s: seq<T>, n: Node)
    requires InList(s, n)
    ensures Prev(s, Next(s, n)) == n
    ensures Next(s, Prev(s, n)) == n
  {
  }

  /** `list_empty`: the sentinel is its own successor. */
  predicate ListEmpty<T>(s: seq<T>)
    ensures ListEmpty(s) <==> |s| == 0
  {
    Next(s, Head) == Head
  }

  /** `INIT_LIST_HEAD`: a sentinel linked to itself, i.e. the empty list. */
  function InitListHead<T>(): (r: seq<T>)
    ensures ListEmpty(r)
    ensures |r| == 0
  {
    []
  }

  /** `__list_add(new, prev, next)` with `prev` and `next` the consecutive nodes around
      position k (the sentinel at either end): `x` becomes the element at index k. */
  function ListInsert<T>(s: seq<T>, k: nat, x: T): (r: seq<T>)
    requires k <= |s|
    ensures |r| == |s| + 1
    ensures r[k] == x
    ensures forall j :: 0 <= j < k ==> r[j] == s[j]
    ensures forall j :: k < j < |r| ==> r[j] == s[j - 1]
  {
    s[..k] + [x] + s[k..]
  }

  /** `list_add`: the new node becomes the first element, the others keep their order. */
  function ListAdd<T>(x: T, s: seq<T>): (r: seq<T>)
    ensures |r| == |s| + 1
    ensures r[0] == x
    ensures r[1..] == s
  {
    ListInsert(s, 0, x)
  }

  /** `list_add_tail`: the new node becomes the last element, the others keep their order. */
  function ListAddTail<T>(x: T, s: seq<T>): (r: seq<T>)
    ensures |r| == |s| + 1
    ensures r[|s|] == x
    ensures r[..|s|] == s
  {
    ListInsert(s, |s|, x)
  }

  /** `list_del`: unlinks exactly the element at index i; the rest keep their order. (The
      unlinked node's own pointers are left as they were; in this abstraction the node simply
      stops being part of the sequence.) */
  function ListDel<T>(s: seq<T>, i: nat): (r: seq<T>)
    requires i < |s|
    ensures |r| == |s| - 1
    ensures forall j :: 0 <= j < i ==> r[j] == s[j]
    ensures forall j :: i <= j < |r| ==> r[j] == s[j + 1]
  {
    s[..i] + s[i + 1..]
  }

  /** `list_move`: unlink the element at index i of `src` and make it the first element of
      `dst`. Returns the new source and destination lists. */
  function ListMove<T>(src: seq<T>, i: nat, dst: seq<T>): (r: (seq<T>, seq<T>))
    requires i < |src|
    ensures |r.0| == |src| - 1 && |r.1| == |dst| + 1
    ensures r.0 == ListDel(src, i)
    ensures r.1[0] == src[i] && r.1[1..] == dst
  {
    (ListDel(src, i), ListAdd(src[i], dst))
  }

  /** `list_move_tail`: unlink the element at index i of `src` and make it the last element of
      `dst`. Returns the new source and destination lists. */
  function ListMoveTail<T>(src: seq<T>, i: nat, dst: seq<T>): (r: (seq<T>, seq<T>))
    requires i < |src|
    ensures |r.0| == |src| - 1 && |r.1| == |dst| + 1
    ensures r.0 == ListDel(src, i)
    ensures r.1[|dst|] == src[i] && r.1[..|dst|] == dst
  {
    var moved := ListAddTail(src[i], dst);
    assert moved == dst + [src[i]];
    (ListDel(src, i), moved)
  }

  /** `list_del` loses exactly the unlinked element. */
  lemma ListDelElements<T>(s: seq<T>, i: nat)
    requires i < |s|
    ensures multiset(ListDel(s, i)) + multiset{s[i]} == multiset(s)
  {
    assert s == s[..i] + [s[i]] + s[i + 1..];
  }

  /** Moving an element between two lists neither loses nor creates an element. */
  lemma MoveKeepsElements<T>(src: seq<T>, i: nat, dst: seq<T>)
    requires i < |src|
    ensures multiset(ListMove(src, i, dst).0) + multiset(ListMove(src, i, dst).1) == multiset(src) + multiset(dst)
    ensures multiset(ListMoveTail(src, i, dst).0) + multiset(ListMoveTail(src, i, dst).1) == multiset(src) + multiset(dst)
  {
    ListDelElements(src, i);
    assert ListMove(src, i, dst).1 == [src[i]] + dst;
    assert ListMoveTail(src, i, dst).1 == dst + [src[i]];
  }

  /** `list_move_tail` is `list_del` followed by `list_add_tail`. */
  lemma MoveTailIsDelThenAddTail<T>(src: seq<T>, i: nat, dst: seq<T>)
    requires i < |src|
    ensures ListMoveTail(src, i, dst).0 == ListDel(src, i)
    ensures ListMoveTail(src, i, dst).1 == dst + [src[i]]
  {
  }

  /** Re-adding a linked node between its own current neighbours — `__list_add(n, n->prev,
      n->next)` — leaves the list exactly as it was. */
  lemma ReAddLinkedNode<T>(s: seq<T>, i: nat)
    requires i < |s|
    ensures ListInsert(ListDel(s, i), i, s[i]) == s
  {
  }

  /** The elements visited by a forward iteration (`list_for_each`, `list_for_each_entry`)
      whose cursor currently stands at `pos`: the loop stops when it reaches the sentinel. */
  function ForEachFrom<T>(s: seq<T>, pos: Node): seq<T>
    requires InList(s, pos)
    decreases if pos.At? then |s| - pos.i else 0
  {
    if pos.Head? then [] else [s[pos.i]] + ForEachFrom(s, Next(s, pos))
  }

  lemma {:induction false} ForEachFromSuffix<T>(s: seq<T>, k: nat)
    requires k < |s|
    ensures ForEachFrom(s, At(k)) == s[k..]
    decreases |s| - k
  {
    if k + 1 < |s| {
      ForEachFromSuffix(s, k + 1);
    }
  }

  /** `list_for_each` starts at `head->next` and stops at `head`: traversal order is
      sequence order, and every element is visited exactly once. */
  function ListForEach<T>(s: seq<T>): (r: seq<T>)
    ensures r == s
  {
    if |s| > 0 then ForEachFromSuffix(s, 0); ForEachFrom(s, Next(s, Head))
    else ForEachFrom(s, Next(s, Head))
  }
}
