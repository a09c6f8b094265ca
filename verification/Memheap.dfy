/** The memheap of memheap.c: items linked in address order and free items linked in a second ring, both in place. */
module Memheap {
  import opened Lists
  import opened HeapBlocks
  import opened Memory
  import opened RingList
  import opened MemheapBlocks
  import opened MemheapWords

  const NULL := -1

  /** RT_ALIGN to whole words, then RT_MEMHEAP_MINIALLOC as the least request. */
  function Request(size: nat): nat {
    var n := WordsFor(size);
    if n < MINIALLOC then MINIALLOC else n
  }

  // ---------------------------------------------------------------- in bytes

  /** A free block with room for a request of size bytes. */
  ghost predicate CanServe(b: Block, size: nat) {
    !b.used && size <= 4 * Size(b) && 12 <= 4 * Size(b)
  }

  ghost predicate NoneCanServe(bs: Blocks, size: nat) {
    forall j {:trigger bs[j]} :: 0 <= j < |bs| ==> !CanServe(bs[j], size)
  }

  /**
   * Block b' serves a request of size bytes out of the free block b: the size is rounded up to whole words, and what is
   * left of b stays free if it can hold a header of 28 bytes and 12 more, else it is served with the request.
   */
  ghost predicate Served(b: Block, b': Block, size: nat) {
    && b'.used && b'.addr == b.addr && size <= 4 * Size(b') && 12 <= 4 * Size(b')
    && if b'.next == b.next then 4 * Size(b) < BytesFor(size) + 4 + 40
       else 4 * Size(b') < BytesFor(size) + 4 && 4 * Size(b) >= 4 * Size(b') + 40
  }

  /** A live block at payload address r with room for size bytes, and less than 44 more than a request needs. */
  ghost predicate HasBytes(bs: Blocks, r: nat, size: nat) {
    exists b: Block :: b in bs && b.used && b.addr + ITEM == r && size <= 4 * Size(b) < BytesFor(size) + 44
  }

  lemma RequestBytes(size: nat)
    ensures Effective(size) <= 4 * Request(size)
    ensures BytesFor(Effective(size)) <= 4 * Request(size) < BytesFor(Effective(size)) + 4
  {
  }

  /** Rounding twice changes nothing. */
  lemma RequestWords(size: nat)
    ensures Request(Request(size) * 4) == Request(size)
    ensures Request(size) * 4 + 3 < 0x1_0000_0000
  {
  }

  lemma ServesBytes(b: Block, size: nat)
    ensures Serves(b, Request(size)) <==> CanServe(b, Effective(size))
  {
  }

  lemma NoneServesBytes(bs: Blocks, size: nat)
    ensures NoneServes(bs, Request(size)) ==> NoneCanServe(bs, Effective(size))
    ensures NoneCanServe(bs, Effective(size)) ==> NoneServes(bs, Request(size))
  {
    hide Serves, CanServe, Request;
    forall j {:trigger Serves(bs[j], Request(size))} {:trigger CanServe(bs[j], Effective(size))} | 0 <= j < |bs|
      ensures Serves(bs[j], Request(size)) <==> CanServe(bs[j], Effective(size))
    {
      ServesBytes(bs[j], size);
    }
  }

  lemma TakenBytes(bs: Blocks, i: nat, size: nat)
    requires i < |bs| && Serves(bs[i], Request(size))
    ensures i < |TakeAt(bs, i, Request(size))|
    ensures Served(bs[i], TakeAt(bs, i, Request(size))[i], Effective(size))
  {
    RequestBytes(size);
    var n := Request(size);
    hide Request;
    assert TakeAt(bs, i, n)[i] == if IsCut(bs[i], n) then Cut(bs[i], n, bs[i].next)[0] else bs[i].(used := true);
  }

  // ---------------------------------------------------------------- the order of the free list

  /** The free list after a free of block i. */
  ghost predicate ListedFirst(bs: Blocks, i: nat, free: seq<nat>, free': seq<nat>) {
    i < |bs|
    && var rest := if i + 1 < |bs| && !bs[i + 1].used then Remove(free, bs[i + 1].addr) else free;
       free' == if i > 0 && !bs[i - 1].used then rest else [bs[i].addr] + rest
  }

  /** The free list after block b' was taken of b: what is left of b, if anything, comes to its front. */
  ghost predicate RestFirst(b: Block, b': Block, free: seq<nat>, free': seq<nat>) {
    free' == if b'.next < b.next then [b'.next] + Remove(free, b.addr) else Remove(free, b.addr)
  }

  lemma FreedListIs(bs: Blocks, i: nat, free: seq<nat>)
    requires i < |bs|
    ensures ListedFirst(bs, i, free, FreedList(bs, i, free))
  {
  }

  lemma TakenListIs(bs: Blocks, i: nat, n: nat, free: seq<nat>)
    requires i < |bs| && Serves(bs[i], n)
    ensures i < |TakeAt(bs, i, n)| && RestFirst(bs[i], TakeAt(bs, i, n)[i], free, TakenList(bs, i, n, free))
  {
    assert TakeAt(bs, i, n)[i] == if IsCut(bs[i], n) then Cut(bs[i], n, bs[i].next)[0] else bs[i].(used := true);
  }

  /** The item at the address of b says what b says, and the following item points back at it. */
  ghost predicate At(next: seq<int>, prev: seq<int>, used: seq<bool>, b: Block) {
    && b.addr < |next| == |prev| == |used| && b.next < |prev|
    && next[b.addr] == b.next && prev[b.next] == b.addr && used[b.addr] == b.used
  }

  /** The ring of all items in address order: the blocks and the used tail item, which leads back to the start. */
  ghost predicate Linked(next: seq<int>, prev: seq<int>, used: seq<bool>, bs: Blocks, end: nat) {
    && end < |next| == |prev| == |used|
    && next[end] == 0 && prev[0] == end && used[end]
    && forall k {:trigger bs[k]} :: 0 <= k < |bs| ==> At(next, prev, used, bs[k])
  }

  /** Relinking inside the stretch of blocks i up to j, whose links now describe mid. */
  lemma ReplaceLinked(next: seq<int>, prev: seq<int>, used: seq<bool>, next': seq<int>, prev': seq<int>,
                      used': seq<bool>,
                      bs: Blocks, end: nat, i: nat, j: nat, mid: Blocks)
    requires Linked(next, prev, used, bs, end) && Chain(bs, 0, end) && i < j <= |bs|
    requires |next'| == |prev'| == |used'| == |next|
    requires var lo, hi := bs[i].addr, bs[j - 1].next;
             && (forall k {:trigger next'[k]} :: 0 <= k < |next| && !(lo <= k < hi) ==> next'[k] == next[k])
             && (forall k {:trigger used'[k]} :: 0 <= k < |next| && !(lo <= k < hi) ==> used'[k] == used[k])
             && (forall k {:trigger prev'[k]} :: 0 <= k < |next| && !(lo < k <= hi) ==> prev'[k] == prev[k])
    requires forall k {:trigger mid[k]} :: 0 <= k < |mid| ==> At(next', prev', used', mid[k])
    ensures Linked(next', prev', used', Replace(bs, i, j, mid), end)
  {
    var r := Replace(bs, i, j, mid);
    ChainCut(bs, 0, end, i);
    ChainCut(bs, 0, end, j - 1);
    forall k | 0 <= k < |r| ensures At(next', prev', used', r[k]) {
      if k < i {
        assert r[k] == bs[k];
        ChainBefore(bs, end, k, i);
        ChainCut(bs, 0, end, k);
      } else if k < i + |mid| {
        assert r[k] == mid[k - i];
      } else {
        var l := k - i - |mid| + j;
        assert r[k] == bs[l];
        ChainBefore(bs, end, j - 1, l);
        ChainCut(bs, 0, end, l);
      }
    }
  }

  /** Block i cut behind n words: the links after the new item is in place. */
  lemma CutLinked(next: seq<int>, prev: seq<int>, used: seq<bool>, bs: Blocks, end: nat, i: nat, n: nat)
    requires Linked(next, prev, used, bs, end) && Chain(bs, 0, end) && Roomy(bs) && i < |bs| && IsCut(bs[i], n)
    requires n >= MINIALLOC
    ensures var a, q, z := bs[i].addr, bs[i].addr + ITEM + n, bs[i].next;
            q < |next| && z < |next| &&
            Linked(next[q := z][a := q], prev[q := a][z := q], used[q := false][a := true], CutAt(bs, i, n), end)
    ensures Chain(CutAt(bs, i, n), 0, end) && Roomy(CutAt(bs, i, n))
  {
    ChainCut(bs, 0, end, i);
    var a, q, z := bs[i].addr, bs[i].addr + ITEM + n, bs[i].next;
    var next', prev', used' := next[q := z][a := q], prev[q := a][z := q], used[q := false][a := true];
    var mid := Cut(bs[i], n, z);
    assert At(next, prev, used, bs[i]) && end < |next| && z <= end;
    hide Chain, CutAt, Replace, Roomy, Linked;
    assert At(next', prev', used', mid[0]) && At(next', prev', used', mid[1]);
    ReplaceLinked(next, prev, used, next', prev', used', bs, end, i, i + 1, mid);
    CutChain(bs[i], n, z);
    ReplaceChain(bs, 0, end, i, i + 1, mid);
    ReplaceRoomy(bs, i, i + 1, mid);
  }

  /** Block i changes its used flag. */
  lemma MarkLinked(next: seq<int>, prev: seq<int>, used: seq<bool>, bs: Blocks, end: nat, i: nat, u: bool)
    requires Linked(next, prev, used, bs, end) && Chain(bs, 0, end) && Roomy(bs) && i < |bs|
    ensures var m := Replace(bs, i, i + 1, [bs[i].(used := u)]);
            bs[i].addr < |used| && Linked(next, prev, used[bs[i].addr := u], m, end) && Chain(m, 0, end) && Roomy(m)
  {
    ChainCut(bs, 0, end, i);
    assert At(next, prev, used, bs[i]);
    var mid := [bs[i].(used := u)];
    assert At(next, prev, used[bs[i].addr := u], mid[0]);
    ReplaceLinked(next, prev, used, next, prev, used[bs[i].addr := u], bs, end, i, i + 1, mid);
    assert mid[1..] == [];
    ReplaceChain(bs, 0, end, i, i + 1, mid);
    ReplaceRoomy(bs, i, i + 1, mid);
  }

  /** Block i swallows the one behind it: the outer links are joined. */
  lemma JoinLinked(next: seq<int>, prev: seq<int>, used: seq<bool>, bs: Blocks, end: nat, i: nat)
    requires Linked(next, prev, used, bs, end) && Chain(bs, 0, end) && Roomy(bs) && i + 1 < |bs|
    ensures var a, c := bs[i].addr, bs[i + 1].next;
            && a < |next| && c < |next| && Linked(next[a := c], prev[c := a], used, JoinAt(bs, i), end)
    ensures Chain(JoinAt(bs, i), 0, end) && Roomy(JoinAt(bs, i))
  {
    ChainCut(bs, 0, end, i);
    ChainCut(bs, 0, end, i + 1);
    var a, c := bs[i].addr, bs[i + 1].next;
    assert At(next, prev, used, bs[i]);
    var mid := [Block(a, c, bs[i].used)];
    assert At(next[a := c], prev[c := a], used, mid[0]);
    ReplaceLinked(next, prev, used, next[a := c], prev[c := a], used, bs, end, i, i + 2, mid);
    assert mid[1..] == [];
    ReplaceChain(bs, 0, end, i, i + 2, mid);
    ReplaceRoomy(bs, i, i + 2, mid);
  }

  lemma WholeTiled(end: nat)
    requires end >= ITEM + MINIALLOC
    ensures Tiled([Block(0, end, false)], end)
  {
    var bs := [Block(0, end, false)];
    assert bs[1..] == [];
    assert Chain(bs[1..], end, end);
  }

  /** The two rings of a new pool: one free item and the tail item. */
  lemma FirstRings(next: seq<int>, prev: seq<int>, used: seq<bool>, nextFree: seq<int>, prevFree: seq<int>,
                   poolSize: nat)
    requires poolSize >= 2 * ITEM + MINIALLOC
    requires |next| == |prev| == |used| == |nextFree| == |prevFree| == poolSize + 1
    requires var end := poolSize - ITEM;
             && next[0] == end && prev[0] == end && !used[0]
             && next[end] == 0 && prev[end] == 0 && used[end]
    requires nextFree[0] == poolSize && prevFree[0] == poolSize && nextFree[poolSize] == 0 && prevFree[poolSize] == 0
    ensures var bs := [Block(0, poolSize - ITEM, false)];
            && Linked(next, prev, used, bs, poolSize - ITEM) && Tiled(bs, poolSize - ITEM)
            && Chain(bs, 0, poolSize - ITEM) && Roomy(bs)
            && IsRing(nextFree, prevFree, poolSize, [0]) && Listed(bs, [0])
            && FreeSizes(bs) == poolSize - 2 * ITEM
  {
    var bs := [Block(0, poolSize - ITEM, false)];
    FreeSizesOne(bs[0]);
    WholeTiled(poolSize - ITEM);
    assert bs[1..] == [];
    forall a: nat ensures a in [0] <==> FreeHere(bs, a) {
      assert a == 0 ==> bs[0].addr == a;
    }
  }

  /** Writing the links of a node outside a ring leaves the ring alone. */
  lemma OutsideWrite(next: seq<int>, prev: seq<int>, next': seq<int>, prev': seq<int>, head: nat, nodes: seq<nat>,
                     n: int)
    requires IsRing(next, prev, head, nodes) && n != head && n !in nodes && OnlyAt(next, next', n)
    requires OnlyAt(prev, prev', n)
    ensures IsRing(next', prev', head, nodes)
  {
    forall k | 0 <= k <= |nodes| ensures Joined(next', prev', Around(head, nodes, k), Around(head, nodes, k + 1)) {
      RingAt(next, prev, head, nodes, k);
      if n >= 0 {
        OutsideRing(head, nodes, n, k);
        OutsideRing(head, nodes, n, k + 1);
      }
    }
  }

  /** The block at a free address. */
  function IndexOf(bs: Blocks, a: nat): (i: nat)
    requires FreeHere(bs, a)
    ensures i < |bs| && bs[i].addr == a && !bs[i].used
  {
    if bs[0].addr == a && !bs[0].used then 0
    else
      assert FreeHere(bs[1..], a) by {
        var k :| 0 <= k < |bs| && bs[k].addr == a && !bs[k].used;
        assert bs[1..][k - 1] == bs[k];
      }
      1 + IndexOf(bs[1..], a)
  }

  class MemHeap {
    const poolSize: nat                 // pool_size
    const w: Words
    var available: int                  // available_size
    var maxUsed: int                    // max_used_size
    ghost var blocks: Blocks
    ghost var free: seq<nat>

    ghost function End(): int { poolSize - ITEM }

    ghost predicate Shaped()
    {
      w.size == poolSize >= 2 * ITEM + MINIALLOC
    }

    /** The address ring tiles the pool. */
    ghost predicate AddressLinks()
      reads this`blocks, w`next, w`prev, w`used, w`heads
    {
      && Shaped() && Linked(w.next, w.prev, w.used, blocks, End()) && Chain(blocks, 0, End()) && Roomy(blocks)
      && Heads(blocks, End()) <= w.heads
    }

    /** The list header leads through the items of fs and back. */
    ghost predicate FreeRing(fs: seq<nat>)
      reads w`nextFree, w`prevFree, w`heads
    {
      && Shaped() && IsRing(w.nextFree, w.prevFree, poolSize, fs)
      && poolSize in w.heads && forall a {:trigger a in fs} :: a in fs ==> a as int in w.heads
    }

    /** The words hold the headers of all blocks, and nothing else is a header. */
    ghost predicate Settled()
      reads this`blocks, w, w.mem
    {
      Shaped() && w.Held() && w.heads == Heads(blocks, End())
    }

    /** Both rings agree, and the counters are exact. */
    ghost predicate Valid()
      reads this, w, w.mem
    {
      && Settled() && AddressLinks() && Tiled(blocks, End()) && FreeRing(free)
      && Listed(blocks, free)
      && available == FreeSizes(blocks)
      && poolSize - available <= maxUsed
    }

    /** rt_memheap_init on a pool with room for the smallest block and the tail item. */
    constructor (poolSize: nat, self: int)
      requires poolSize >= 2 * ITEM + MINIALLOC
      ensures Valid() && this.poolSize == poolSize
      ensures blocks == [Block(0, poolSize - ITEM, false)] && free == [0]
      ensures available == poolSize - 2 * ITEM && maxUsed == 2 * ITEM
      ensures fresh(w) && fresh(w.mem)
    {
      hide Words.Valid, Words.Held, Linked, Tiled, Chain, Roomy, IsRing, Listed, FreeSizes, Heads;
      this.poolSize := poolSize;
      w := new Words(poolSize, self);
      available := poolSize - 2 * ITEM;
      maxUsed := 2 * ITEM;
      blocks, free := [Block(0, poolSize - ITEM, false)], [0];
      new;
      InitHeader();
      var item := InitFirst();
      InitTail(item);
      FirstRings(w.next, w.prev, w.used, w.nextFree, w.prevFree, poolSize);
      FirstHeads(poolSize - ITEM);
    }

    /** The header of the free list leads to itself. */
    method InitHeader()
      requires Shaped() && w.Valid() && w.heads == {}
      modifies w, w.mem
      ensures w.Valid() && w.heads == {poolSize} && w.nextFree[poolSize] == poolSize && w.prevFree[poolSize] == poolSize
    {
      hide Words.Valid, Words.Held;
      w.Create(poolSize);
      w.SetNextFree(poolSize, poolSize);
      w.SetPrevFree(poolSize, poolSize);
    }

    /** The first block takes the whole pool and is the only free one. */
    method InitFirst() returns (item: nat)
      requires Shaped() && w.Valid() && w.heads == {poolSize} && available == poolSize - 2 * ITEM
      requires w.nextFree[poolSize] == poolSize && w.prevFree[poolSize] == poolSize
      modifies w, w.mem
      ensures w.Valid() && w.heads == {0, poolSize} && item == End()
      ensures w.next[0] == End() && w.prev[0] == End() && !w.used[0] && w.nextFree[0] == poolSize
      ensures w.prevFree[0] == poolSize
      ensures w.nextFree[poolSize] == 0 && w.prevFree[poolSize] == 0
    {
      hide Words.Valid, Words.Held;
      w.Create(0);
      w.SetNext(0, available + ITEM);
      w.SetPrev(0, w.Next(0));
      w.SetNextFree(0, w.NextFree(poolSize));
      w.SetPrevFree(0, poolSize);
      w.SetPrevFree(w.NextFree(poolSize), 0);
      w.SetNextFree(poolSize, 0);
      item := w.Next(0);
    }

    /** The tail item is used, which prevents merging, and leads back to the start. */
    method InitTail(item: nat)
      requires Shaped() && w.Valid() && w.heads == {0, poolSize} && item == End()
      modifies w, w.mem
      ensures w.Valid() && w.heads == {0, End(), poolSize} && w.next[End()] == 0 && w.prev[End()] == 0 && w.used[End()]
      ensures w.nextFree[End()] == w.prevFree[End()] == NULL
      ensures w.next[0] == old(w.next[0]) && w.prev[0] == old(w.prev[0]) && w.used[0] == old(w.used[0])
      ensures forall a {:trigger w.nextFree[a]} {:trigger w.prevFree[a]} :: 0 <= a <= poolSize && a != End() ==>
                w.nextFree[a] == old(w.nextFree[a]) && w.prevFree[a] == old(w.prevFree[a])
    {
      hide Words.Valid, Words.Held;
      w.Create(item);
      w.SetUsed(item, true);
      w.SetNext(item, 0);
      w.SetPrev(item, 0);
      w.SetNextFree(item, NULL);
      w.SetPrevFree(item, NULL);
    }

    /** The item of block i as the links hold it. */
    lemma ItemAt(i: nat)
      requires AddressLinks() && i < |blocks|
      ensures var b := blocks[i];
              && b.addr + ITEM + MINIALLOC <= b.next <= End()
              && w.next[b.addr] == b.next && w.prev[b.next] == b.addr && w.used[b.addr] == b.used
              && 0 <= w.prev[b.addr] < |w.used|
              && w.used[b.next] == (FreedTo(blocks, i) == i + 1)
              && w.used[w.prev[b.addr]] == (FreedFrom(blocks, i) == i)
              && (i > 0 ==> w.prev[b.addr] == blocks[i - 1].addr)
              && (i + 1 < |blocks| ==> b.next == blocks[i + 1].addr)
              && b.addr in w.heads && b.next in w.heads && w.prev[b.addr] in w.heads && End() in w.heads
    {
      ChainCut(blocks, 0, End(), i);
      assert At(w.next, w.prev, w.used, blocks[i]);
      assert blocks[i].addr in Heads(blocks, End());
      if i + 1 < |blocks| {
        assert At(w.next, w.prev, w.used, blocks[i + 1]);
        assert blocks[i + 1].addr in Heads(blocks, End());
      }
      if i > 0 {
        ChainCut(blocks, 0, End(), i - 1);
        assert At(w.next, w.prev, w.used, blocks[i - 1]);
        assert blocks[i - 1].addr in Heads(blocks, End());
      }
    }

    // -------------------------------------------------------------- the free ring

    /** The links of the free list lead from header to header. */
    lemma FreeLinkAt(fs: seq<nat>, i: nat)
      requires w.Held() && FreeRing(fs) && i <= |fs|
      ensures var a, b := Around(poolSize, fs, i), Around(poolSize, fs, i + 1);
              a in w.heads && b in w.heads && a <= poolSize && b <= poolSize && w.nextFree[a] == b && w.prevFree[b] == a
    {
      hide Words.Held;
      RingAt(w.nextFree, w.prevFree, poolSize, fs, i);
      assert i > 0 ==> fs[i - 1] in fs;
      assert i < |fs| ==> fs[i] in fs;
    }

    /** A free item leaves the free list. */
    method Unlink(a: nat, ghost fs: seq<nat>)
      requires w.Valid() && FreeRing(fs) && a in fs
      modifies w`nextFree, w`prevFree, w.mem
      ensures w.Valid() && FreeRing(Remove(fs, a))
    {
      hide Words.Valid, Words.Held;
      ghost var i: nat :| i < |fs| && fs[i] == a;
      FreeLinkAt(fs, i);
      FreeLinkAt(fs, i + 1);
      JointsApart(poolSize, fs, i, i + 1);
      ghost var n, p := w.nextFree, w.prevFree;
      w.SetPrevFree(w.NextFree(a), w.PrevFree(a));
      w.SetNextFree(w.PrevFree(a), w.NextFree(a));
      RemoveRing(n, p, poolSize, fs, i, w.nextFree, w.prevFree);
    }

    /** An item comes to the front of the free list. */
    method PushFront(a: nat, ghost fs: seq<nat>)
      requires w.Valid() && FreeRing(fs) && a < poolSize && a !in fs && a in w.heads
      modifies w`nextFree, w`prevFree, w.mem
      ensures w.Valid() && FreeRing([a] + fs)
    {
      hide Words.Valid, Words.Held;
      InsertRing(w.nextFree, w.prevFree, poolSize, fs, 0, a);
      FreeLinkAt(fs, 0);
      OutsideRing(poolSize, fs, a, 1);
      assert fs[..0] + [a] + fs[0..] == [a] + fs;
      ghost var n, p := w.nextFree, w.prevFree;
      hide IsRing;
      w.SetNextFree(a, w.NextFree(poolSize));
      w.SetPrevFree(a, poolSize);
      w.SetPrevFree(w.NextFree(poolSize), a);
      w.SetNextFree(poolSize, a);
      assert w.nextFree == n[poolSize := a][a := n[poolSize]];
      assert w.prevFree == p[n[poolSize] := a][a := poolSize];
    }

    /** A free item leaves the free list and its links are cleared. */
    method TakeOff(a: nat, ghost fs: seq<nat>)
      requires w.Valid() && FreeRing(fs) && a in fs && a < poolSize
      modifies w`nextFree, w`prevFree, w.mem
      ensures w.Valid() && FreeRing(Remove(fs, a))
      ensures a < |w.nextFree| == |w.prevFree| && w.nextFree[a] == w.prevFree[a] == NULL
    {
      hide Words.Valid, Words.Held;
      Unlink(a, fs);
      ghost var n, p := w.nextFree, w.prevFree;
      w.SetNextFree(a, NULL);
      w.SetPrevFree(a, NULL);
      OutsideWrite(n, p, w.nextFree, w.prevFree, poolSize, Remove(fs, a), a);
    }

    // -------------------------------------------------------------- rt_memheap_alloc

    /** The search has come to entry j of the free list, at header; the entries in front are too small. */
    ghost predicate Searched(j: nat, header: int, n: nat)
      reads this`blocks, this`free
    {
      && j <= |free| && header == Around(poolSize, free, j + 1)
      && forall k {:trigger free[k]} :: 0 <= k < j ==> TooSmall(blocks, free[k], n)
    }

    /** Block i at header is the first listed one that is large enough. */
    ghost predicate Found(i: nat, header: int, size: int, n: nat)
      reads this`blocks, this`free
    {
      && i < |blocks| && 0 <= header == blocks[i].addr && Serves(blocks[i], n) && size == Size(blocks[i])
      && IsFirstListed(blocks, free, header, n)
    }

    lemma SearchStarts(n: nat)
      requires Valid()
      ensures Shaped() && w.Held() && poolSize in w.heads && Searched(0, w.nextFree[poolSize], n)
    {
      hide Words.Valid, Words.Held;
      FreeLinkAt(free, 0);
    }

    /** The item at header is a free block: it is the one looked for, or the search goes on behind it. */
    lemma SearchGoesOn(j: nat, header: int, n: nat) returns (i: nat)
      requires Valid() && Searched(j, header, n) && header != poolSize && n >= MINIALLOC
      ensures Shaped() && w.Held() && header in w.heads && j < |free|
      ensures var size := w.next[header] - header - ITEM;
              if size >= n then Found(i, header, size, n) else Searched(j + 1, w.nextFree[header], n)
    {
      hide Words.Valid, Words.Held;
      assert free[j] == header && free[j] in free;
      assert FreeHere(blocks, free[j]);
      i := IndexOf(blocks, free[j]);
      ItemAt(i);
      FreeLinkAt(free, j + 1);
      if !Serves(blocks[i], n) {
        IndexUnique(blocks, End(), i, n);
      }
    }

    lemma SearchEnds(j: nat, header: int, n: nat)
      requires Valid() && Searched(j, header, n) && header == poolSize
      ensures NoneServes(blocks, n)
    {
      hide Words.Valid, Words.Held;
      FreeLinkAt(free, j);
      assert forall k {:trigger free[k]} :: 0 <= k < |free| ==> free[k] in free && free[k] != poolSize;
      NoneListedServes(blocks, free, n);
    }

    /** The search loop: the first item of the free list that is large enough. */
    method Search(n: nat) returns (found: bool, header: nat, freeSize: int, ghost i: nat)
      requires Valid() && n >= MINIALLOC
      ensures found ==>
                && i < |blocks| && blocks[i].addr == header && Serves(blocks[i], n) && freeSize == Size(blocks[i])
                        && IsFirstListed(blocks, free, header, n)
      ensures !found ==> NoneServes(blocks, n)
    {
      hide Valid, Searched, Words.Valid, Words.Held, Serves, IsFirstListed, NoneServes, Size;
      freeSize := 0;
      SearchStarts(n);
      var item := w.NextFree(poolSize);
      i := 0;
      ghost var j := 0;
      while item != poolSize && freeSize < n
        invariant if freeSize < n then Searched(j, item, n) else Found(i, item, freeSize, n)
        decreases |free| - j, n - freeSize
      {
        i := SearchGoesOn(j, item, n);
        freeSize := w.Next(item) - item - ITEM;
        if freeSize < n {
          j := j + 1;
          item := w.NextFree(item);
        }
      }
      found := freeSize >= n;
      if !found {
        SearchEnds(j, item, n);
      }
      header := if found then item else poolSize;
    }

    /** The largest use so far. */
    method NotePeak()
      modifies this`maxUsed
      ensures maxUsed == if poolSize - available > old(maxUsed) then poolSize - available else old(maxUsed)
    {
      if poolSize - available > maxUsed {
        maxUsed := poolSize - available;
      }
    }

    /** A new free item at q is put between the item at header and the one behind it. */
    method InsertItem(header: nat, q: nat, ghost fs: seq<nat>)
      requires w.Valid() && FreeRing(fs) && q !in fs && q < poolSize && Clear(w.heads, poolSize, q)
      requires header in w.heads && header < |w.next| && w.next[header] in w.heads
      modifies w`next, w`prev, w`used, w`nextFree, w`prevFree, w`heads, w.mem
      ensures w.Valid() && FreeRing(fs) && w.heads == old(w.heads) + {q}
      ensures 0 <= old(w.next[header]) < |w.next| == |w.prev| == |w.used| && header < |w.next| && q < |w.next|
      ensures w.next == old(w.next)[q := old(w.next[header])][header := q]
      ensures w.prev == old(w.prev)[q := header][old(w.next[header]) := q]
      ensures w.used == old(w.used)[q := false]
    {
      hide Words.Valid, Words.Held;
      ghost var nx, pv, nf, pf := w.next, w.prev, w.nextFree, w.prevFree;
      w.Create(q);
      OutsideWrite(nf, pf, w.nextFree, w.prevFree, poolSize, fs, q);
      hide IsRing, Clear;
      w.SetPrev(q, header);
      w.SetNext(q, w.Next(header));
      w.SetPrev(w.Next(header), q);
      w.SetNext(header, q);
    }

    lemma AddressFrom()
      requires Shaped() && Linked(w.next, w.prev, w.used, blocks, End()) && Tiled(blocks, End())
      requires Heads(blocks, End()) <= w.heads
      ensures AddressLinks()
    {
    }

    lemma ValidFrom()
      requires Settled() && AddressLinks() && Tiled(blocks, End()) && FreeRing(free) && Listed(blocks, free)
      requires available == FreeSizes(blocks) && poolSize - available <= maxUsed
      ensures Valid()
    {
    }

    lemma ValidFacts()
      requires Valid()
      ensures Settled() && AddressLinks() && Tiled(blocks, End()) && FreeRing(free) && Listed(blocks, free)
      ensures available == FreeSizes(blocks) && poolSize - available <= maxUsed
      ensures w.Held() && w.heads == Heads(blocks, End()) && Chain(blocks, 0, End()) && Roomy(blocks) && Shaped()
    {
    }

    /** What serving n words from free block i relies on. */
    lemma TakeReady(n: nat, i: nat)
      requires Valid() && n >= MINIALLOC && i < |blocks| && Serves(blocks[i], n)
      ensures var a, q, z, bs := blocks[i].addr, blocks[i].addr + ITEM + n, blocks[i].next, TakeAt(blocks, i, n);
              && a < poolSize && z < poolSize && a in free && a in w.heads && z in w.heads && w.next[a] == z
              && (if IsCut(blocks[i], n)
                  then q < z && q !in free && Clear(w.heads, poolSize, q)
                       && Heads(bs, End()) == Heads(blocks, End()) + {q}
                       && Linked(w.next[q := z][a := q], w.prev[q := a][z := q], w.used[q := false][a := true], bs,
                                 End())
                  else Linked(w.next, w.prev, w.used[a := true], bs, End()) && Heads(bs, End()) == Heads(blocks, End()))
      ensures Tiled(TakeAt(blocks, i, n), End())
      ensures Listed(TakeAt(blocks, i, n), TakenList(blocks, i, n, free))
      ensures FreeSizes(TakeAt(blocks, i, n)) == FreeSizes(blocks) - Taken(blocks[i], n)
    {
      hide Words.Held, Heads, FreeSizes, Listed, IsRing, NoFreePair;
      ItemAt(i);
      TakeTiled(blocks, End(), i, n);
      TakenListed(blocks, End(), i, n, free);
      TakenHeads(blocks, End(), i, n);
      if IsCut(blocks[i], n) {
        CutLinked(w.next, w.prev, w.used, blocks, End(), i, n);
        CutClear(blocks, End(), i, n);
      } else {
        MarkLinked(w.next, w.prev, w.used, blocks, End(), i, true);
      }
    }

    /** An operation ends: the headers are those of the new block list, and the live payloads came through. */
    ghost method Settle(bs: Blocks, fs: seq<nat>)
      requires w.Valid() && AddressLinks() && FreeRing(fs) && Chain(bs, 0, End()) && Roomy(bs)
      requires w.heads <= Heads(bs, End()) + Heads(blocks, End())
      requires forall a {:trigger a in fs} :: a in fs ==> a as int in Heads(blocks, End())
      modifies w`base, w`heads
      ensures Settled() && w.Valid() && AddressLinks() && FreeRing(fs)
      ensures w.base == w.mem[..] && KeepsWords(old(w.base), w.mem[..], bs, blocks)
    {
      hide Words.Held;
      HeadsKeepWords(w.base, w.mem[..], w.heads, bs, blocks, End());
      w.Forget(Heads(blocks, End()));
    }

    /** The block is split: the rest becomes a free item and the first of the free list. */
    method TakeCut(header: nat, n: nat, ghost i: nat)
      requires Valid() && n >= MINIALLOC
      requires i < |blocks| && blocks[i].addr == header && Serves(blocks[i], n) && IsCut(blocks[i], n)
      modifies this`available, this`maxUsed, this`blocks, this`free, w, w.mem
      ensures Valid() && KeepsWords(old(w.mem[..]), w.mem[..], old(blocks), blocks)
      ensures blocks == TakeAt(old(blocks), i, n) && free == TakenList(old(blocks), i, n, old(free))
      ensures maxUsed == if poolSize - available > old(maxUsed) then poolSize - available else old(maxUsed)
    {
      hide Words.Valid, Words.Held, Valid, AddressLinks, FreeRing, Settled;
      hide Linked, Tiled, IsRing, Listed, Chain, Roomy, Replace, TakeAt, FreeSizes, Remove, Heads, KeepsWords, Clear;
      ghost var bs, fs := blocks, free;
      ValidFacts();
      TakeReady(n, i);
      w.Begin();
      var q := header + n + ITEM;
      InsertItem(header, q, fs);
      TakeOff(header, fs);
      PushFront(q, Remove(fs, header));
      available := available - n - ITEM;
      NotePeak();
      w.SetUsed(header, true);
      blocks, free := TakeAt(bs, i, n), TakenList(bs, i, n, fs);
      ListedHeads(blocks, End(), free);
      AddressFrom();
      Settle(bs, free);
      ValidFrom();
    }

    /** The block is handed out whole. */
    method TakeWhole(header: nat, n: nat, freeSize: int, ghost i: nat)
      requires Valid() && n >= MINIALLOC && i < |blocks| && blocks[i].addr == header
      requires Serves(blocks[i], n) && !IsCut(blocks[i], n) && freeSize == Size(blocks[i])
      modifies this`available, this`maxUsed, this`blocks, this`free, w, w.mem
      ensures Valid() && KeepsWords(old(w.mem[..]), w.mem[..], old(blocks), blocks)
      ensures blocks == TakeAt(old(blocks), i, n) && free == TakenList(old(blocks), i, n, old(free))
      ensures maxUsed == if poolSize - available > old(maxUsed) then poolSize - available else old(maxUsed)
    {
      hide Words.Valid, Words.Held, Valid, AddressLinks, FreeRing, Settled;
      hide Linked, Tiled, IsRing, Listed, Chain, Roomy, Replace, TakeAt, FreeSizes, Remove, Heads, KeepsWords;
      ghost var bs, fs := blocks, free;
      ValidFacts();
      TakeReady(n, i);
      w.Begin();
      available := available - freeSize;
      NotePeak();
      TakeOff(header, fs);
      w.SetUsed(header, true);
      blocks, free := TakeAt(bs, i, n), TakenList(bs, i, n, fs);
      ListedHeads(blocks, End(), free);
      AddressFrom();
      Settle(bs, free);
      ValidFrom();
    }

    /** rt_memheap_alloc. The result is a payload address; i is the index of the block that serves the request. */
    method Alloc(size: nat) returns (r: Option<nat>, ghost i: nat)
      requires Valid() && size < 0x1_0000_0000
      modifies this`available, this`maxUsed, this`blocks, this`free, w, w.mem
      ensures Valid() && KeepsWords(old(w.mem[..]), w.mem[..], old(blocks), blocks)
      // in bytes: some listed block with room for them, if less than all that is available is asked for
      ensures r.None? <==>
                || 4 * old(available) < BytesFor(Effective(size)) + 4
                || NoneCanServe(old(blocks), Effective(size))
      ensures r.Some? ==>
                && i < |old(blocks)| && CanServe(old(blocks)[i], Effective(size))
                && i < |blocks| && Served(old(blocks)[i], blocks[i], Effective(size))
                && (size <= 4 * Size(blocks[i]) || size > 0xFFFF_FFFC)
                && RestFirst(old(blocks)[i], blocks[i], old(free), free)
      ensures r.None? <==> Request(size) >= old(available) || NoneServes(old(blocks), Request(size))
      ensures r.None? ==>
                blocks == old(blocks) && free == old(free) && available == old(available) && maxUsed == old(maxUsed)
      ensures r.None? ==> w.mem[..] == old(w.mem[..])
      ensures r.Some? ==>
                && i < |old(blocks)| && Serves(old(blocks)[i], Request(size))
                && IsFirstListed(old(blocks), old(free), old(blocks)[i].addr, Request(size))
                && blocks == TakeAt(old(blocks), i, Request(size))
                && free == TakenList(old(blocks), i, Request(size), old(free))
                && r.value == old(blocks)[i].addr + ITEM
                && maxUsed == if poolSize - available > old(maxUsed) then poolSize - available else old(maxUsed)
    {
      hide Words.Valid, Words.Held, Effective, Aligned, WordsFor, AddressLinks, IsRing, FreeSizes, KeepsWords, Listed;
      SameWordsKept(w.mem[..], blocks, End());
      RequestBytes(size);
      NoneServesBytes(blocks, size);
      hide NoneCanServe, CanServe, Served, RestFirst;
      i := 0;
      AlignedIs(size);
      var n := Aligned(size);
      if n < MINIALLOC {
        n := MINIALLOC;
      }
      if n < available {
        var found, header, freeSize;
        found, header, freeSize, i := Search(n);
        if found {
          ServesBytes(blocks[i], size);
          TakenBytes(blocks, i, size);
          TakenListIs(blocks, i, n, free);
          if freeSize >= n + ITEM + MINIALLOC {
            TakeCut(header, n, i);
          } else {
            TakeWhole(header, n, freeSize, i);
          }
          return Some(header + ITEM), i;
        }
      }
      r := None;
    }

    // -------------------------------------------------------------- rt_memheap_free

    /** The freed item becomes the first of the free list. */
    method InsertHeader(header: nat, ghost fs: seq<nat>)
      requires w.Valid() && FreeRing(fs) && header < poolSize && header !in fs && header in w.heads
      modifies w`nextFree, w`prevFree, w.mem
      ensures w.Valid() && FreeRing([header] + fs)
    {
      hide Words.Valid, Words.Held;
      InsertRing(w.nextFree, w.prevFree, poolSize, fs, 0, header);
      FreeLinkAt(fs, 0);
      OutsideRing(poolSize, fs, header, 1);
      assert fs[..0] + [header] + fs[0..] == [header] + fs;
      ghost var nx, pv := w.nextFree, w.prevFree;
      hide IsRing;
      var n := w.NextFree(poolSize);
      w.SetNextFree(header, n);
      w.SetPrevFree(header, w.PrevFree(n));
      w.SetNextFree(w.PrevFree(n), header);
      w.SetPrevFree(n, header);
      assert w.nextFree == nx[poolSize := header][header := nx[poolSize]];
      assert w.prevFree == pv[nx[poolSize] := header][header := poolSize];
    }

    /** A freed item is swallowed by a free item in front of it. */
    method MergeLeft(item: nat, ghost i: nat) returns (header: nat, merged: bool)
      requires w.Valid() && AddressLinks() && i < |blocks| && blocks[i].addr == item
      modifies this`available, this`blocks, w`next, w`prev, w.mem
      ensures w.Valid() && AddressLinks() && blocks == JoinLeft(old(blocks), i)
      ensures merged <==> FreedFrom(old(blocks), i) != i
      ensures header == old(blocks)[FreedFrom(old(blocks), i)].addr
      ensures available == old(available) + if merged then ITEM else 0
    {
      hide Words.Valid, Words.Held;
      ItemAt(i);
      header, merged := item, false;
      if !w.IsUsed(w.Prev(header)) {
        ItemAt(i - 1);
        JoinLinked(w.next, w.prev, w.used, blocks, End(), i - 1);
        JoinHeads(blocks, End(), i - 1);
        hide Linked, Chain, Roomy, Heads;
        available := available + ITEM;
        w.SetNext(w.Prev(header), w.Next(header));
        w.SetPrev(w.Next(header), w.Prev(header));
        header := w.Prev(header);
        merged := true;
        blocks := JoinAt(blocks, i - 1);
      }
    }

    /** The item at header takes over the free item behind it in the address ring. */
    method SwallowNext(header: nat, ghost i: nat)
      requires w.Valid() && AddressLinks() && i + 1 < |blocks| && blocks[i].addr == header
      modifies this`blocks, w`next, w`prev, w.mem
      ensures w.Valid() && AddressLinks() && blocks == JoinAt(old(blocks), i)
    {
      hide Words.Valid, Words.Held;
      ItemAt(i);
      ItemAt(i + 1);
      JoinLinked(w.next, w.prev, w.used, blocks, End(), i);
      JoinHeads(blocks, End(), i);
      hide Linked, Chain, Roomy, Heads;
      var q := w.Next(header);
      w.SetPrev(w.Next(q), header);
      w.SetNext(header, w.Next(q));
      blocks := JoinAt(blocks, i);
    }

    /** A freed item swallows a free item behind it. */
    method MergeRight(header: nat, ghost i: nat) returns (swallowed: Option<nat>)
      requires w.Valid() && AddressLinks() && i < |blocks| && blocks[i].addr == header
      modifies this`available, this`blocks, w`next, w`prev, w.mem
      ensures w.Valid() && AddressLinks() && blocks == JoinRight(old(blocks), i)
      ensures swallowed == if FreedTo(old(blocks), i) == i + 2 then Some(old(blocks)[i + 1].addr) else None
      ensures available == old(available) + if swallowed.Some? then ITEM else 0
    {
      hide Words.Valid, Words.Held;
      ItemAt(i);
      swallowed := None;
      if !w.IsUsed(w.Next(header)) {
        available := available + ITEM;
        swallowed := Some(w.Next(header));
        SwallowNext(header, i);
      }
    }

    /** The address ring under rt_memheap_free; swallowed is a right neighbour that was merged. */
    method Merge(item: nat, ghost i: nat) returns (header: nat, insertHeader: bool, swallowed: Option<nat>)
      requires w.Valid() && AddressLinks() && i < |blocks| && blocks[i].used && blocks[i].addr == item
      modifies this`available, this`blocks, w`next, w`prev, w`used, w.mem
      ensures w.Valid() && AddressLinks() && blocks == FreeAt(old(blocks), i)
      ensures insertHeader <==> FreedFrom(old(blocks), i) == i
      ensures header == old(blocks)[FreedFrom(old(blocks), i)].addr
      ensures swallowed == if FreedTo(old(blocks), i) == i + 2 then Some(old(blocks)[i + 1].addr) else None
      ensures available == old(available) + Size(old(blocks)[i]) + Gained(old(blocks), i)
    {
      hide Words.Valid, Words.Held, AddressLinks, Linked, Chain, Roomy, FreeAt, FreeSizes, JoinLeft;
      hide JoinRight, Heads, MarkFree;
      ghost var bs := blocks;
      MergeReady(i);
      LeftThenRight(bs, i);
      w.SetUsed(item, false);
      blocks := MarkFree(bs, i);
      LinksFrom();
      available := available + (w.Next(item) - item - ITEM);
      var merged;
      header, merged := MergeLeft(item, i);
      insertHeader := !merged;
      swallowed := MergeRight(header, FreedFrom(bs, i));
    }

    lemma MergeReady(i: nat)
      requires AddressLinks() && i < |blocks| && blocks[i].used
      ensures var a, m := blocks[i].addr, MarkFree(blocks, i);
              && Shaped() && a in w.heads && w.next[a] == blocks[i].next && a < |w.used|
              && Linked(w.next, w.prev, w.used[a := false], m, End()) && Chain(m, 0, End()) && Roomy(m)
              && Heads(m, End()) <= w.heads && i < |m| && m[i].addr == a && FreedFrom(m, i) == FreedFrom(blocks, i)
              && m[FreedFrom(blocks, i)].addr == blocks[FreedFrom(blocks, i)].addr
              && JoinLeft(m, i)[FreedFrom(blocks, i)].addr == blocks[FreedFrom(blocks, i)].addr
              && (FreedTo(blocks, i) == i + 2 ==> blocks[i + 1].addr == blocks[i].next)
    {
      ItemAt(i);
      MarkLinked(w.next, w.prev, w.used, blocks, End(), i, false);
      MarkHeads(blocks, End(), i);
      LeftJoined(blocks, i);
    }

    /** The free ring under rt_memheap_free. */
    method Relist(header: nat, insertHeader: bool, swallowed: Option<nat>, ghost bs: Blocks, ghost i: nat,
                  ghost fs: seq<nat>)
      requires w.Valid() && FreeRing(fs) && i < |bs| && header < poolSize && header in w.heads
      requires swallowed == if FreedTo(bs, i) == i + 2 then Some(bs[i + 1].addr) else None
      requires swallowed.Some? ==> swallowed.value in fs
      requires insertHeader <==> FreedFrom(bs, i) == i
      requires insertHeader ==> header == bs[i].addr && header !in WithoutNext(bs, i, fs)
      modifies w`nextFree, w`prevFree, w.mem
      ensures w.Valid() && FreeRing(FreedList(bs, i, fs))
    {
      hide Words.Valid, Words.Held;
      hide IsRing, Remove;
      if swallowed.Some? {
        Unlink(swallowed.value, fs);
      }
      if insertHeader {
        InsertHeader(header, WithoutNext(bs, i, fs));
      }
    }

    /** What freeing block i relies on. */
    lemma FreeReady(i: nat)
      requires Valid() && i < |blocks| && blocks[i].used
      ensures var first := blocks[FreedFrom(blocks, i)].addr; first < poolSize && first in w.heads
      ensures FreedTo(blocks, i) == i + 2 ==> blocks[i + 1].addr in free
      ensures blocks[i].addr !in WithoutNext(blocks, i, free)
      ensures Tiled(FreeAt(blocks, i), End()) && Listed(FreeAt(blocks, i), FreedList(blocks, i, free))
      ensures FreeSizes(FreeAt(blocks, i)) == FreeSizes(blocks) + Size(blocks[i]) + Gained(blocks, i)
      ensures Size(blocks[i]) + Gained(blocks, i) >= 0
      ensures Chain(blocks, 0, End()) && Roomy(blocks) && Heads(FreeAt(blocks, i), End()) <= w.heads
    {
      FreedListed(blocks, End(), i, free);
      FreeSizesFreed(blocks, End(), i);
      FreeTiled(blocks, End(), i);
      WithoutNextHolds(blocks, End(), i, free, 0);
      FreedHeads(blocks, End(), i);
      ItemAt(i);
      ItemAt(FreedFrom(blocks, i));
    }

    /** rt_memheap_free of the live block i at header. */
    method FreeLive(header: nat, ghost i: nat)
      requires Valid() && i < |blocks| && blocks[i].used && blocks[i].addr == header
      modifies this`available, this`blocks, this`free, w, w.mem
      ensures Valid() && KeepsWords(old(w.mem[..]), w.mem[..], old(blocks), blocks)
      ensures blocks == FreeAt(old(blocks), i) && free == FreedList(old(blocks), i, old(free))
    {
      hide Words.Valid, Words.Held, Valid, AddressLinks, FreeRing, Settled;
      hide Linked, Tiled, IsRing, Listed, FreeAt, FreeSizes, WithoutNext, FreedList, Chain, Roomy, Gained;
      hide Heads, KeepsWords;
      ghost var bs, fs := blocks, free;
      ValidFacts();
      FreeReady(i);
      w.Begin();
      var first, insertHeader, swallowed := Merge(header, i);
      Relist(first, insertHeader, swallowed, bs, i, fs);
      free := FreedList(bs, i, fs);
      ListedHeads(blocks, End(), free);
      Settle(bs, free);
      ValidFrom();
    }

    /** rt_memheap_free, which ignores the null pointer. */
    method Free(ptr: Option<nat>, ghost i: nat)
      requires Valid()
      requires ptr.Some? ==> i < |blocks| && blocks[i].used && blocks[i].addr + ITEM == ptr.value
      modifies this`available, this`blocks, this`free, w, w.mem
      ensures Valid() && KeepsWords(old(w.mem[..]), w.mem[..], old(blocks), blocks)
      ensures ptr.None? ==> blocks == old(blocks) && free == old(free) && w.mem[..] == old(w.mem[..])
      ensures ptr.Some? ==> blocks == FreeAt(old(blocks), i) && free == FreedList(old(blocks), i, old(free))
      // a free block behind leaves the free list, and the block comes to its front unless one before it swallows it
      ensures ptr.Some? ==> ListedFirst(old(blocks), i, old(free), free)
    {
      hide Words.Valid, Words.Held, ListedFirst;
      if ptr.None? {
        SameWordsKept(w.mem[..], blocks, End());
        return;
      }
      FreedListIs(blocks, i, free);
      FreeLive(ptr.value - ITEM, i);
    }

    // -------------------------------------------------------------- rt_memheap_realloc

    /** _remove_next_ptr: the item behind header leaves both rings. */
    method RemoveNext(header: nat, ghost i: nat, ghost fs: seq<nat>)
      requires w.Valid() && AddressLinks() && FreeRing(fs)
      requires i + 1 < |blocks| && blocks[i].addr == header && blocks[i + 1].addr in fs
      modifies this`blocks, w`next, w`prev, w`nextFree, w`prevFree, w.mem
      ensures w.Valid() && AddressLinks() && blocks == JoinAt(old(blocks), i)
      ensures FreeRing(Remove(fs, old(blocks)[i + 1].addr))
    {
      hide Words.Valid, Words.Held;
      ItemAt(i);
      ItemAt(i + 1);
      JoinLinked(w.next, w.prev, w.used, blocks, End(), i);
      JoinHeads(blocks, End(), i);
      hide Linked, Chain, Roomy, IsRing, Heads;
      var q := w.Next(header);
      Unlink(q, fs);
      w.SetPrev(w.Next(q), w.Prev(q));
      w.SetNext(w.Prev(q), w.Next(q));
      blocks := JoinAt(blocks, i);
    }

    /** The used item at header keeps n words; the rest becomes an item of its own. */
    method CutItem(header: nat, n: nat, ghost i: nat, ghost fs: seq<nat>) returns (q: nat)
      requires w.Valid() && AddressLinks() && FreeRing(fs) && i < |blocks| && blocks[i].addr == header && blocks[i].used
      requires IsCut(blocks[i], n) && n >= MINIALLOC && header + ITEM + n !in fs
      requires Clear(w.heads, poolSize, header + ITEM + n)
      modifies this`blocks, w`next, w`prev, w`used, w`nextFree, w`prevFree, w`heads, w.mem
      ensures w.Valid() && AddressLinks() && FreeRing(fs) && w.heads == old(w.heads) + {q}
      ensures blocks == CutAt(old(blocks), i, n) && q == header + ITEM + n < poolSize && q in w.heads
    {
      hide Words.Valid, Words.Held, AddressLinks, FreeRing, Linked, Chain, Roomy, CutAt, IsRing, Heads, Clear;
      ghost var bs, us := blocks, w.used;
      CutItemReady(n, i);
      q := header + ITEM + n;
      InsertItem(header, q, fs);
      assert us[q := false][header := true] == us[q := false];
      blocks := CutAt(bs, i, n);
      LinksFrom();
    }

    lemma LinksFrom()
      requires Shaped() && Linked(w.next, w.prev, w.used, blocks, End()) && Chain(blocks, 0, End()) && Roomy(blocks)
      requires Heads(blocks, End()) <= w.heads
      ensures AddressLinks()
    {
    }

    lemma CutItemReady(n: nat, i: nat)
      requires AddressLinks() && i < |blocks| && blocks[i].used && IsCut(blocks[i], n) && n >= MINIALLOC
      ensures var a, q, z, cut := blocks[i].addr, blocks[i].addr + ITEM + n, blocks[i].next, CutAt(blocks, i, n);
              && Shaped() && a in w.heads && z in w.heads && q < z < |w.next| == |w.prev| == |w.used| && w.next[a] == z
              && z <= End() && w.used[a]
              && Linked(w.next[q := z][a := q], w.prev[q := a][z := q], w.used[q := false][a := true], cut, End())
              && Chain(cut, 0, End()) && Roomy(cut) && Heads(cut, End()) == Heads(blocks, End()) + {q}
              && Heads(blocks, End()) <= w.heads
    {
      hide At, Chain, Roomy, Heads, CutAt, Cut, Replace, Words.Held, Words.Valid;
      ItemAt(i);
      CutLinked(w.next, w.prev, w.used, blocks, End(), i, n);
      CutHeads(blocks, End(), i, n);
    }

    /** What resizing block i relies on. */
    lemma ResizeReady(n: nat, i: nat)
      requires Valid() && i < |blocks| && blocks[i].used && n >= MINIALLOC && Resizable(blocks, i, n)
      ensures blocks[i].addr + ITEM + n !in WithoutNext(blocks, i, free)
      ensures FreedTo(blocks, i) == i + 2 ==> blocks[i + 1].addr in free
      ensures Tiled(ResizeAt(blocks, i, n), End())
      ensures Listed(ResizeAt(blocks, i, n), ResizedList(blocks, i, n, free))
      ensures FreeSizes(ResizeAt(blocks, i, n))
              == FreeSizes(blocks) + Size(blocks[i]) - n - (if FreedTo(blocks, i) == i + 1 then ITEM else 0)
    {
      hide Linked, Roomy, IsRing, Listed, FreeSizes, ResizeAt, ResizedList, WithoutNext, NoFreePair, Heads;
      ResizeTiled(blocks, End(), i, n);
      ResizedListed(blocks, End(), i, n, free);
      WithoutNextHolds(blocks, End(), i, free, 0);
    }

    /** Both rings after block i was resized from within: the counters follow. */
    lemma Resized(bs: Blocks, fs: seq<nat>, i: nat, n: nat)
      requires i < |bs| && Settled() && AddressLinks() && blocks == ResizeAt(bs, i, n)
      requires FreeRing(free) && free == ResizedList(bs, i, n, fs)
      requires Tiled(ResizeAt(bs, i, n), End()) && Listed(ResizeAt(bs, i, n), ResizedList(bs, i, n, fs))
      requires available == FreeSizes(ResizeAt(bs, i, n)) && poolSize - available <= maxUsed
      ensures Valid()
    {
    }

    /** What joining block i with the free block behind leaves for the cut at n words. */
    lemma JoinReady(i: nat, n: nat, fs: seq<nat>)
      requires i < |blocks| && blocks[i].used && FreedTo(blocks, i) == i + 2 && Resizable(blocks, i, n)
      ensures i + 1 < |blocks|
      ensures var joined := JoinAt(blocks, i);
              && i < |joined| && joined[i] == Block(blocks[i].addr, blocks[i + 1].next, true) && IsCut(joined[i], n)
              && CutAt(joined, i, n) == ResizeAt(blocks, i, n)
              && WithoutNext(blocks, i, fs) == Remove(fs, blocks[i + 1].addr)
              && ResizedList(blocks, i, n, fs) == [blocks[i].addr + ITEM + n] + WithoutNext(blocks, i, fs)
    {
      JoinThenCut(blocks, i, n);
    }

    /**
     * The links of rt_memheap_realloc growing the block at header into the free block behind. The header of that block
     * becomes payload before the header of the new rest is written, which may overlap it.
     */
    method MoveBorder(header: nat, n: nat, ghost i: nat)
      requires Settled() && AddressLinks() && FreeRing(free) && Listed(blocks, free)
      requires i < |blocks| && blocks[i].used && blocks[i].addr == header
      requires Listed(ResizeAt(blocks, i, n), ResizedList(blocks, i, n, free))
      requires FreedTo(blocks, i) == i + 2 && Resizable(blocks, i, n) && n >= MINIALLOC
      requires blocks[i + 1].addr in free && header + ITEM + n !in WithoutNext(blocks, i, free)
      modifies this`blocks, this`free, w, w.mem
      ensures Settled() && AddressLinks() && blocks == ResizeAt(old(blocks), i, n)
      ensures FreeRing(free) && free == ResizedList(old(blocks), i, n, old(free))
      ensures KeepsWords(old(w.mem[..]), w.mem[..], old(blocks), blocks)
    {
      hide Words.Valid, Words.Held;
      hide AddressLinks, FreeRing, Remove, CutAt, FreedTo, JoinAt, ResizeAt, ResizedList, WithoutNext, Heads;
      hide KeepsWords;
      hide Chain, Roomy, Clear, Listed, Resizable;
      ghost var bs, fs, m := blocks, free, w.mem[..];
      ListedHeads(bs, End(), fs);
      JoinReady(i, n, fs);
      AddressFacts();
      JoinFits(bs, End(), i, n, fs);
      w.Begin();
      RemoveNext(header, i, fs);
      AddressFacts();
      Settle(bs, WithoutNext(bs, i, fs));
      ghost var m', joined := w.mem[..], blocks;
      var q := CutItem(header, n, i, WithoutNext(bs, i, fs));
      PushFront(q, WithoutNext(bs, i, fs));
      free := ResizedList(bs, i, n, fs);
      ListedHeads(blocks, End(), free);
      CutHeads(joined, End(), i, n);
      Settle(joined, free);
      KeepsWordsThen(m, m', w.mem[..], bs, joined, blocks);
    }

    lemma AddressFacts()
      requires AddressLinks()
      ensures Chain(blocks, 0, End()) && Roomy(blocks)
    {
    }

    /** Growing in place into the free block behind. */
    method Grow(header: nat, oldSize: nat, n: nat, ghost i: nat)
      requires Valid() && i + 1 < |blocks| && blocks[i].used && blocks[i].addr == header && !blocks[i + 1].used
      requires oldSize == Size(blocks[i]) < n && Size(blocks[i + 1]) + oldSize > n + MINIALLOC
      modifies this`available, this`maxUsed, this`blocks, this`free, w, w.mem
      ensures Valid() && KeepsWords(old(w.mem[..]), w.mem[..], old(blocks), blocks)
      ensures blocks == ResizeAt(old(blocks), i, n) && free == ResizedList(old(blocks), i, n, old(free))
      ensures available == old(available) - (n - oldSize)
      ensures maxUsed == if poolSize - available > old(maxUsed) then poolSize - available else old(maxUsed)
    {
      hide Words.Valid, Words.Held, Valid, AddressLinks, FreeRing, Settled;
      hide Linked, Tiled, Chain, Roomy, IsRing, Listed, FreeSizes, Remove, ResizeAt, WithoutNext, ResizedList;
      hide Heads, KeepsWords;
      ghost var bs, fs := blocks, free;
      ValidFacts();
      ItemAt(i);
      ItemAt(i + 1);
      ResizeReady(n, i);
      available := available - (n - oldSize);
      NotePeak();
      MoveBorder(header, n, i);
      Resized(bs, fs, i, n);
    }

    /** The rest of a shrunk item, at q, takes over a free item behind it. */
    method TakeOverNext(q: nat, ghost i: nat, ghost fs: seq<nat>)
      requires w.Valid() && AddressLinks() && FreeRing(fs) && i < |blocks| && blocks[i].addr == q
      requires FreedTo(blocks, i) == i + 2 ==> blocks[i + 1].addr in fs
      modifies this`available, this`blocks, w`next, w`prev, w`nextFree, w`prevFree, w.mem
      ensures w.Valid() && AddressLinks() && blocks == JoinRight(old(blocks), i)
      ensures FreeRing(WithoutNext(old(blocks), i, fs))
      ensures available == old(available) - if FreedTo(old(blocks), i) == i + 2 then Size(old(blocks)[i + 1]) else 0
      ensures q in w.heads && q < |w.next| && w.next[q] == old(blocks)[FreedTo(old(blocks), i) - 1].next
    {
      hide Words.Valid, Words.Held;
      hide Roomy, IsRing, Heads;
      ItemAt(i);
      if !w.IsUsed(w.Next(q)) {
        ItemAt(i + 1);
        var p := w.Next(q);
        available := available - (w.Next(p) - p - ITEM);
        SwallowNext(q, i);
        Unlink(p, fs);
        ItemAt(i);
      }
    }

    /** What cutting block i at n words leaves behind the cut. */
    lemma CutReady(i: nat, n: nat, fs: seq<nat>)
      requires AddressLinks() && i < |blocks| && IsCut(blocks[i], n)
      ensures var cut, q, fore := CutAt(blocks, i, n), blocks[i].addr + ITEM + n, FreedTo(blocks, i);
              && i + 1 < |cut| && cut[i + 1] == Block(q, blocks[i].next, false)
              && JoinRight(cut, i + 1) == ResizeAt(blocks, i, n) && FreedTo(cut, i + 1) == fore + 1
              && (fore == i + 2 ==> cut[i + 2] == blocks[i + 1])
              && cut[fore].next == blocks[fore - 1].next
              && WithoutNext(cut, i + 1, fs) == WithoutNext(blocks, i, fs)
              && ResizedList(blocks, i, n, fs) == [q] + WithoutNext(blocks, i, fs)
              && (fore == i + 1 || fore == i + 2)
              && (fore == i + 2 ==> blocks[i].next == blocks[i + 1].addr)
    {
      ChainCut(blocks, 0, End(), i);
      CutThenJoin(blocks, i, n);
      WithoutNextCut(blocks, i, n, fs);
      if FreedTo(blocks, i) == i + 2 {
        ItemAt(i);
        ItemAt(i + 1);
      }
    }

    /** The links of rt_memheap_realloc shrinking the block at header. */
    method SplitTail(header: nat, n: nat, ghost i: nat)
      requires Settled() && AddressLinks() && FreeRing(free) && Listed(blocks, free)
      requires i < |blocks| && blocks[i].used && blocks[i].addr == header && n >= MINIALLOC && IsCut(blocks[i], n)
      requires Listed(ResizeAt(blocks, i, n), ResizedList(blocks, i, n, free))
      requires FreedTo(blocks, i) == i + 2 ==> blocks[i + 1].addr in free
      requires header + ITEM + n !in free && header + ITEM + n !in WithoutNext(blocks, i, free)
      modifies this`available, this`blocks, this`free, w, w.mem
      ensures Settled() && AddressLinks() && blocks == ResizeAt(old(blocks), i, n)
      ensures FreeRing(free) && free == ResizedList(old(blocks), i, n, old(free))
      ensures available == old(available) + Size(old(blocks)[i]) - n - (if FreedTo(old(blocks), i) == i + 1 then ITEM
                                                                        else 0)
      ensures KeepsWords(old(w.mem[..]), w.mem[..], old(blocks), blocks)
    {
      hide Words.Valid, Words.Held;
      hide AddressLinks, FreeRing, CutAt, FreedTo, JoinRight, ResizeAt, ResizedList, WithoutNext, Heads, KeepsWords;
      hide Chain, Roomy, Clear, Listed;
      ghost var bs, fs := blocks, free;
      AddressFacts();
      CutReady(i, n, fs);
      CutClear(bs, End(), i, n);
      ResizedHeads(bs, End(), i, n);
      w.Begin();
      var q := CutItem(header, n, i, fs);
      TakeOverNext(q, i + 1, fs);
      PushFront(q, WithoutNext(bs, i, fs));
      available := available + (w.Next(q) - q - ITEM);
      free := ResizedList(bs, i, n, fs);
      ListedHeads(blocks, End(), free);
      Settle(bs, free);
    }

    /** Shrinking in place; the rest joins a free block behind. */
    method Shrink(header: nat, n: nat, ghost i: nat)
      requires Valid() && i < |blocks| && blocks[i].used && blocks[i].addr == header
      requires n >= MINIALLOC && n + ITEM + MINIALLOC < Size(blocks[i])
      modifies this`available, this`blocks, this`free, w, w.mem
      ensures Valid() && KeepsWords(old(w.mem[..]), w.mem[..], old(blocks), blocks)
      ensures blocks == ResizeAt(old(blocks), i, n) && free == ResizedList(old(blocks), i, n, old(free))
    {
      hide Words.Valid, Words.Held, Valid, AddressLinks, FreeRing, Settled;
      hide Linked, Tiled, Chain, Roomy, IsRing, Listed, FreeSizes, ResizeAt, WithoutNext, ResizedList, Heads;
      hide KeepsWords;
      ghost var bs, fs := blocks, free;
      ValidFacts();
      ShrinkReady(n, i);
      SplitTail(header, n, i);
      Resized(bs, fs, i, n);
    }

    /** A block that is shrunk leaves a rest that can stand alone. */
    lemma ShrinkReady(n: nat, i: nat)
      requires Valid() && i < |blocks| && blocks[i].used && n >= MINIALLOC && n + ITEM + MINIALLOC < Size(blocks[i])
      ensures Resizable(blocks, i, n) && IsCut(blocks[i], n)
      ensures blocks[i].addr + ITEM + n !in free && blocks[i].addr + ITEM + n !in WithoutNext(blocks, i, free)
      ensures FreedTo(blocks, i) == i + 2 ==> blocks[i + 1].addr in free
      ensures Tiled(ResizeAt(blocks, i, n), End())
      ensures Listed(ResizeAt(blocks, i, n), ResizedList(blocks, i, n, free))
      ensures FreeSizes(ResizeAt(blocks, i, n))
              == FreeSizes(blocks) + Size(blocks[i]) - n - (if FreedTo(blocks, i) == i + 1 then ITEM else 0)
    {
      hide Listed, FreeSizes, ResizeAt, ResizedList, WithoutNext, Words.Held, KeepsWords;
      ItemAt(i);
      if FreedTo(blocks, i) == i + 2 {
        ItemAt(i + 1);
      }
      ResizeReady(n, i);
      NotFreeInside(blocks, End(), i, n, free);
    }

    /** The moving branch of rt_memheap_realloc; k is the block that serves the new request. */
    method Move(ptr: nat, oldSize: nat, n: nat, ghost i: nat) returns (r: Option<nat>, ghost k: nat)
      requires Valid() && i < |blocks| && blocks[i].used && blocks[i].addr + ITEM == ptr
      requires oldSize == Size(blocks[i]) < n && n >= MINIALLOC && n * 4 + 3 < 0x1_0000_0000
      modifies this`available, this`maxUsed, this`blocks, this`free, w, w.mem
      ensures Valid()
      ensures r.None? <==> n >= old(available) || NoneServes(old(blocks), n)
      ensures r.None? ==>
                blocks == old(blocks) && free == old(free) && w.mem[..] == old(w.mem[..]) && maxUsed == old(maxUsed)
      ensures r.Some? ==>
                MovedTo(old(blocks), blocks, i, k, n) && k < |old(blocks)| && r.value == old(blocks)[k].addr + ITEM
                          && IsFirstListed(old(blocks), old(free), old(blocks)[k].addr, n)
                          && KeepsWords(old(w.mem[..]), w.mem[..], old(blocks), blocks)
                          && Copied(old(w.mem[..]), w.mem[..], ptr, r.value, oldSize)
      ensures r.Some? ==> var peak := poolSize - (old(available) - Taken(old(blocks)[k], n));
                          maxUsed == if peak > old(maxUsed) then peak else old(maxUsed)
    {
      hide Words.Valid, Words.Held, Effective, WordsFor, Served, CanServe, NoneCanServe, RestFirst;
      ghost var m, bs := w.mem[..], blocks;
      WholeWords(n);
      assert Request(n * 4) == n;
      ValidFacts();
      hide Request, Tiled, TakeAt, KeepsWords, Valid;
      r, k := Alloc(n * 4);
      if r.Some? {
        TakenCounts(bs, k, n);
        Relocate(m, bs, ptr, r.value, if oldSize < n then oldSize else n, i, k, n);
      }
    }

    /** The counter after block k was taken. */
    lemma TakenCounts(bs: Blocks, k: nat, n: nat)
      requires Valid() && Tiled(bs, End()) && k < |bs| && Serves(bs[k], n) && n >= MINIALLOC
      requires blocks == TakeAt(bs, k, n)
      ensures available == FreeSizes(bs) - Taken(bs[k], n)
    {
      TakeTiled(bs, End(), k, n);
    }

    /** Block k was taken for the contents of live block i of bs: they are copied and block i is freed. */
    method Relocate(ghost m: seq<int>, ghost bs: Blocks, src: nat, dst: nat, count: nat, ghost i: nat, ghost k: nat,
                    ghost n: nat)
      requires Valid() && Tiled(bs, End()) && i < |bs| && bs[i].used && k < |bs| && Serves(bs[k], n) && n >= MINIALLOC
      requires blocks == TakeAt(bs, k, n) && src == bs[i].addr + ITEM && dst == bs[k].addr + ITEM
      requires count <= n && count <= Size(bs[i]) && |m| == poolSize + ITEM && KeepsWords(m, w.mem[..], bs, blocks)
      modifies this`available, this`blocks, this`free, w, w.mem
      ensures Valid() && MovedTo(bs, blocks, i, k, n)
      ensures KeepsWords(m, w.mem[..], bs, blocks) && Copied(m, w.mem[..], src, dst, count)
    {
      hide Words.Valid, Words.Held;
      hide Tiled, TakeAt, KeepsWords, FreeAt, Copied, OnlyAt;
      ghost var m1, mid := w.mem[..], blocks;
      MoveApart(bs, End(), i, k, n);
      CopyReady(bs, i, k, n, count);
      w.CopyPayload(dst, src, count);
      ghost var m2 := w.mem[..];
      FreeLive(src - ITEM, Find(mid, bs[i]));
      MoveKeeps(m, m1, m2, w.mem[..], bs, End(), i, k, n, count);
    }

    /** The words go into the payload of block k, where there are no headers. */
    lemma CopyReady(bs: Blocks, i: nat, k: nat, n: nat, count: nat)
      requires Valid() && Tiled(bs, End()) && i < |bs| && bs[i].used && k < |bs| && Serves(bs[k], n) && n >= MINIALLOC
      requires blocks == TakeAt(bs, k, n) && count <= n
      ensures forall a {:trigger a in w.heads} :: a in w.heads ==>
                a + ITEM <= bs[k].addr + ITEM || bs[k].addr + ITEM + count <= a
      ensures w.mem.Length == poolSize + ITEM
    {
      TakeTiled(bs, End(), k, n);
      forall a | a in w.heads ensures a + ITEM <= bs[k].addr + ITEM || bs[k].addr + ITEM + count <= a {
        if j :| 0 <= j < |blocks| && blocks[j].addr == a {
          HeadersMissPayloads(blocks, End(), j, k);
        } else {
          ChainCut(blocks, 0, End(), k);
        }
      }
    }

    /** rt_memheap_realloc of the live block i, or of the null pointer. */
    method Realloc(ptr: Option<nat>, newSize: nat, ghost i: nat) returns (r: Option<nat>, ghost k: nat)
      requires Valid() && newSize < 0x1_0000_0000
      requires ptr.Some? ==> i < |blocks| && blocks[i].used && blocks[i].addr + ITEM == ptr.value
      modifies this`available, this`maxUsed, this`blocks, this`free, w, w.mem
      ensures Valid() && KeepsWords(old(w.mem[..]), w.mem[..], old(blocks), blocks)
      // in bytes: a failure changes nothing, a success is a live block of that size with the old bytes it has room for;
      // the largest sizes wrap and count as 0
      ensures newSize > 0 && r.None? ==> blocks == old(blocks) && w.mem[..] == old(w.mem[..])
      ensures r.Some? ==> newSize > 0 && HasBytes(blocks, r.value, Effective(newSize))
      ensures r.Some? && ptr.Some? ==>
                BytesKept(old(w.mem[..]), w.mem[..], ptr.value, r.value, 4 * Size(old(blocks)[i]), Effective(newSize))
      ensures newSize == 0 ==> r.None? && maxUsed == old(maxUsed)
                               && blocks == if ptr.None? then old(blocks) else FreeAt(old(blocks), i)
      ensures newSize > 0 && ptr.None? ==>
                && (r.None? <==> Request(newSize) >= old(available) || NoneServes(old(blocks), Request(newSize)))
                && (r.None? ==> blocks == old(blocks) && maxUsed == old(maxUsed) && w.mem[..] == old(w.mem[..]))
                && (r.Some? ==> k < |old(blocks)| && blocks == TakeAt(old(blocks), k, Request(newSize))
                                && r.value == old(blocks)[k].addr + ITEM
                                && maxUsed == Higher(old(maxUsed), poolSize - available))
      ensures newSize > 0 && ptr.Some? ==>
                && Reallocated(old(w.mem[..]), w.mem[..], old(blocks), blocks, i, k, Request(newSize), old(available),
                               r)
                && maxUsed == PeakAfter(old(maxUsed), poolSize - old(available), old(blocks), i, k, Request(newSize), r)
    {
      hide Valid, Words.Valid, Words.Held, Reallocated, KeepsWords, NoneCanServe, CanServe, HasBytes, BytesKept, Copied;
      hide TakeAt, FreeAt, NoneServes, IsFirstListed, TakenList, Taken;
      k := 0;
      RequestBytes(newSize);
      RequestWords(newSize);
      if newSize == 0 {
        Free(ptr, i);
        return None, k;
      }
      AlignedIs(newSize);
      var n := Aligned(newSize);
      if n < MINIALLOC {
        n := MINIALLOC;
      }
      ghost var m, bs := w.mem[..], blocks;
      if ptr.None? {
        r, k := Alloc(n * 4);
        ServedHasBytes(bs, blocks, r, k, n, newSize);
        return;
      }
      TiledHere();
      r, k := Resize(ptr.value, n, i);
      ResizedHasBytes(m, w.mem[..], bs, blocks, End(), i, k, n, old(available), r, newSize);
      KeptInBytes(m, w.mem[..], ptr.value, r, Size(bs[i]), n, Effective(newSize));
    }

    lemma TiledHere()
      requires Valid()
      ensures End() >= 0 && Tiled(blocks, End())
    {
    }

    /** rt_memheap_realloc of a live block to n words. */
    method Resize(ptr: nat, n: nat, ghost i: nat) returns (r: Option<nat>, ghost k: nat)
      requires Valid() && n >= MINIALLOC && n * 4 + 3 < 0x1_0000_0000
      requires i < |blocks| && blocks[i].used && blocks[i].addr + ITEM == ptr
      modifies this`available, this`maxUsed, this`blocks, this`free, w, w.mem
      ensures Valid() && KeepsWords(old(w.mem[..]), w.mem[..], old(blocks), blocks)
      ensures Reallocated(old(w.mem[..]), w.mem[..], old(blocks), blocks, i, k, n, old(available), r)
      ensures maxUsed == PeakAfter(old(maxUsed), poolSize - old(available), old(blocks), i, k, n, r)
    {
      hide Words.Valid, Words.Held;
      hide Valid, AddressLinks, Reallocated, ResizeAt, NoneServes, MovedTo, KeepsWords, Tiled, Copied;
      ghost var m, bs, av := w.mem[..], blocks, available;
      k := 0;
      var header := ptr - ITEM;
      InPlaceReady(i, k, n);
      var oldSize := w.Next(header) - header - ITEM;
      if n > oldSize {
        var q := w.Next(header);
        if !w.IsUsed(q) && (w.Next(q) - q - ITEM) + oldSize > n + MINIALLOC {
          Grow(header, oldSize, n, i);
          InPlace(m, w.mem[..], bs, blocks, End(), i, k, n, av);
          return Some(ptr), k;
        }
        r, k := Move(ptr, oldSize, n, i);
        Moved(m, w.mem[..], bs, blocks, i, k, n, av, r);
        return;
      }
      if n + ITEM + MINIALLOC >= oldSize {
        return Some(ptr), k;
      }
      Shrink(header, n, i);
      InPlace(m, w.mem[..], bs, blocks, End(), i, k, n, av);
      r := Some(ptr);
    }

    /** A block that stays as it is. */
    lemma InPlaceReady(i: nat, k: nat, n: nat)
      requires Valid() && i < |blocks| && blocks[i].used
      ensures var m, size := w.mem[..], Size(blocks[i]);
              && KeepsWords(m, m, blocks, blocks)
              && (n <= size <= n + ITEM + MINIALLOC ==>
                    Reallocated(m, m, blocks, blocks, i, k, n, available, Some(blocks[i].addr + ITEM)))
      ensures Tiled(blocks, End()) && w.Held() && |w.mem[..]| == poolSize + ITEM
      ensures var b, z := blocks[i], blocks[i].next;
              && Size(b) >= MINIALLOC && b.addr in w.heads && z in w.heads && w.next[b.addr] == z
                 && w.used[z] == (FreedTo(blocks, i) == i + 1)
              && (FreedTo(blocks, i) == i + 2 ==> w.next[z] == blocks[i + 1].next && z == blocks[i + 1].addr)
              && (GrowsInPlace(blocks, i, n) || Size(b) > n + ITEM + MINIALLOC ==> Resizable(blocks, i, n))
    {
      hide Words.Held, Words.Valid, Listed, IsRing, Linked, Heads, FreeSizes, KeepsWords;
      SameWordsKept(w.mem[..], blocks, End());
      ItemAt(i);
      if FreedTo(blocks, i) == i + 2 {
        ItemAt(i + 1);
      }
    }
  }

  lemma ServedHasBytes(bs: Blocks, bs': Blocks, r: Option<nat>, k: nat, n: nat, size: nat)
    requires n == Request(size) && (r.Some? ==> k < |bs| && k < |bs'| && Served(bs[k], bs'[k], 4 * n))
    requires r.Some? ==> r.value == bs[k].addr + ITEM
    ensures r.Some? ==> HasBytes(bs', r.value, Effective(size))
  {
    RequestBytes(size);
    hide Request;
    if r.Some? {
      assert bs'[k] in bs';
    }
  }

  /** Whatever became of a block that was to have n words, it has them. */
  lemma ResizedHasBytes(m: seq<int>, m': seq<int>, bs: Blocks, bs': Blocks, end: nat, i: nat, k: nat, n: nat,
                        available: int, r: Option<nat>, bytes: nat)
    requires Tiled(bs, end) && i < |bs| && bs[i].used && n >= MINIALLOC && n == Request(bytes)
    requires Reallocated(m, m', bs, bs', i, k, n, available, r)
    ensures r.None? ==> bs' == bs && m' == m
    ensures r.Some? ==> HasBytes(bs', r.value, Effective(bytes))
    ensures r.Some? ==> Copied(m, m', bs[i].addr + ITEM, r.value, if Size(bs[i]) < n then Size(bs[i]) else n)
  {
    RequestBytes(bytes);
    hide Copied, Tiled, Request;
    var size := Size(bs[i]);
    if n <= size <= n + ITEM + MINIALLOC {
      assert bs[i] in bs;
    } else if n < size || GrowsInPlace(bs, i, n) {
      ResizedBlock(bs, i, n);
      assert bs'[i] in bs';
    } else if r.Some? {
      MoveMembers(bs, end, i, k, n);
      var mid := TakeAt(bs, k, n);
      assert mid[k] in bs';
    }
  }

  /** Resizing in place, in either direction. */
  lemma InPlace(m: seq<int>, m': seq<int>, bs: Blocks, bs': Blocks, end: nat, i: nat, k: nat, n: nat, available: int)
    requires Tiled(bs, end) && i < |bs| && bs[i].used && |m| == end + 2 * ITEM
    requires Size(bs[i]) > n + ITEM + MINIALLOC || (Size(bs[i]) < n && GrowsInPlace(bs, i, n))
    requires bs' == ResizeAt(bs, i, n) && KeepsWords(m, m', bs, bs') && Resizable(bs, i, n)
    ensures Reallocated(m, m', bs, bs', i, k, n, available, Some(bs[i].addr + ITEM))
  {
    ChainCut(bs, 0, end, i);
    ResizedBlock(bs, i, n);
    assert bs[i] in bs && bs'[i] in bs';
    assert SameWords(m, m', bs[i].addr + ITEM, Nearer(bs[i].next, bs'[i].next));
  }

  lemma ResizedBlock(bs: Blocks, i: nat, n: nat)
    requires i < |bs| && bs[i].used
    ensures i < |ResizeAt(bs, i, n)| && ResizeAt(bs, i, n)[i] == Block(bs[i].addr, bs[i].addr + ITEM + n, true)
  {
  }

  /** The outcomes of the moving branch. */
  lemma Moved(m: seq<int>, m': seq<int>, bs: Blocks, bs': Blocks, i: nat, k: nat, n: nat, available: int,
              r: Option<nat>)
    requires i < |bs| && Size(bs[i]) < n && !GrowsInPlace(bs, i, n)
    requires r.None? <==> n >= available || NoneServes(bs, n)
    requires r.None? ==> bs' == bs && m' == m
    requires r.Some? ==> MovedTo(bs, bs', i, k, n) && r.value == bs[k].addr + ITEM
                         && Copied(m, m', bs[i].addr + ITEM, r.value, Size(bs[i]))
    ensures Reallocated(m, m', bs, bs', i, k, n, available, r)
  {
  }

  /** Block i moved: block k was taken for it and the old block was then freed. */
  ghost predicate MovedTo(bs: Blocks, bs': Blocks, i: nat, k: nat, n: nat) {
    && i < |bs| && k < |bs| && Serves(bs[k], n)
    && bs[i] in TakeAt(bs, k, n)
    && bs' == FreeAt(TakeAt(bs, k, n), Find(TakeAt(bs, k, n), bs[i]))
  }

  /** The free neighbour of block i lets it grow to n words in place. */
  predicate GrowsInPlace(bs: Blocks, i: nat, n: nat)
    requires i < |bs|
  {
    FreedTo(bs, i) == i + 2 && Size(bs[i + 1]) + Size(bs[i]) > n + MINIALLOC
  }

  /** What a realloc of live block i to n words may do; the old contents are kept up to the shorter length. */
  ghost predicate Reallocated(m: seq<int>, m': seq<int>, bs: Blocks, bs': Blocks, i: nat, k: nat, n: nat,
                              available: int, r: Option<nat>)
    requires i < |bs|
  {
    var size, ptr := Size(bs[i]), bs[i].addr + ITEM;
    && (r.Some? ==> Copied(m, m', ptr, r.value, Nearer(size, n)))
    && (if n <= size <= n + ITEM + MINIALLOC then
          r == Some(ptr) && bs' == bs && m' == m
        else if n < size || GrowsInPlace(bs, i, n) then
          r == Some(ptr) && bs' == ResizeAt(bs, i, n)
        else
          && (r.None? <==> n >= available || NoneServes(bs, n))
          && (r.None? ==> bs' == bs && m' == m)
          && (r.Some? ==> MovedTo(bs, bs', i, k, n) && r.value == bs[k].addr + ITEM))
  }

  function Higher(x: int, y: int): int {
    if y > x then y else x
  }

  /**
   * The peak after a realloc of live block i to n words that began with inUse words in use: a block that moves is in
   * use twice while its words are copied, and block k was taken for it.
   */
  function PeakAfter(peak: int, inUse: int, bs: Blocks, i: nat, k: nat, n: nat, r: Option<nat>): int
    requires i < |bs|
  {
    var size := Size(bs[i]);
    if n <= size then peak
    else if GrowsInPlace(bs, i, n) then Higher(peak, inUse + n - size)
    else if r.Some? && k < |bs| then Higher(peak, inUse + Taken(bs[k], n))
    else peak
  }

  /** The payload of block i and the room of free block k lie apart. */
  lemma MoveApart(bs: Blocks, end: nat, i: nat, k: nat, n: nat)
    requires Tiled(bs, end) && i < |bs| && bs[i].used && k < |bs| && Serves(bs[k], n)
    ensures bs[i].addr + ITEM + Size(bs[i]) <= bs[k].addr || bs[k].addr + ITEM + n <= bs[i].addr
    ensures bs[i].next <= end && bs[k].addr + ITEM + n <= end
    ensures bs[i] in TakeAt(bs, k, n)
  {
    ChainCut(bs, 0, end, i);
    ChainCut(bs, 0, end, k);
    if i < k {
      ChainBefore(bs, end, i, k);
    } else {
      ChainBefore(bs, end, k, i);
    }
    TakeMembers(bs, k, n);
    assert bs[i] in bs;
  }

  /** Take, copy, free: the words arrive, and every live block comes through with its own. */
  lemma MoveKeeps(m: seq<int>, m1: seq<int>, m2: seq<int>, m3: seq<int>, bs: Blocks, end: nat, i: nat, k: nat, n: nat,
                  count: nat)
    requires Tiled(bs, end) && i < |bs| && bs[i].used && k < |bs| && Serves(bs[k], n) && n >= MINIALLOC
    requires count <= n && count <= Size(bs[i]) && |m| == end + 2 * ITEM && bs[i] in TakeAt(bs, k, n)
    requires var mid := TakeAt(bs, k, n);
             KeepsWords(m, m1, bs, mid) && KeepsWords(m2, m3, mid, FreeAt(mid, Find(mid, bs[i])))
    requires |m2| == |m1| && Copied(m1, m2, bs[i].addr + ITEM, bs[k].addr + ITEM, count)
    requires forall j {:trigger m2[j]} :: 0 <= j < |m1| && !(bs[k].addr + ITEM <= j < bs[k].addr + ITEM + count) ==>
               m2[j] == m1[j]
    ensures KeepsWords(m, m3, bs, FreeAt(TakeAt(bs, k, n), Find(TakeAt(bs, k, n), bs[i])))
    ensures Copied(m, m3, bs[i].addr + ITEM, bs[k].addr + ITEM, count)
  {
    hide TakeAt, FreeAt, Tiled, Serves, Copied, SameWords, Nearer;
    MoveMembers(bs, end, i, k, n);
    MoveApart(bs, end, i, k, n);
    var mid := TakeAt(bs, k, n);
    var bs' := FreeAt(mid, Find(mid, bs[i]));
    forall b: Block, b': Block | b in bs && b' in bs' && b.used && b'.used && b'.addr == b.addr
      ensures SameWords(m, m3, b.addr + ITEM, Nearer(b.next, b'.next))
    {
      var l := Find(bs, b);
      MoveApart(bs, end, l, k, n);
      assert b in mid && b' in mid;
      PairKept(m, m1, m2, m3, b, b', bs[k].addr + ITEM, count);
    }
    assert bs[i] in bs && mid[k] in mid && mid[k] in bs';
    PairSame(m, m1, bs[i]);
    PairSame(m2, m3, mid[k]);
    CopiedBetween(m, m1, m2, m3, bs[i].addr + ITEM, bs[i].next, bs[k].addr + ITEM, mid[k].next, count);
  }

  lemma PairSame(m: seq<int>, m': seq<int>, b: Block)
    requires SameWords(m, m', b.addr + ITEM, Nearer(b.next, b.next))
    ensures SameWords(m, m', b.addr + ITEM, b.next)
  {
  }

  /** A live block that the copied words do not touch. */
  lemma PairKept(m: seq<int>, m1: seq<int>, m2: seq<int>, m3: seq<int>, b: Block, b': Block, dst: nat, count: nat)
    requires b'.addr == b.addr && (b.next <= dst || dst + count <= b.addr + ITEM) && |m2| == |m1|
    requires SameWords(m, m1, b.addr + ITEM, Nearer(b.next, b.next))
    requires forall j {:trigger m2[j]} :: 0 <= j < |m1| && !(dst <= j < dst + count) ==> m2[j] == m1[j]
    requires SameWords(m2, m3, b'.addr + ITEM, Nearer(b'.next, b'.next))
    ensures SameWords(m, m3, b.addr + ITEM, Nearer(b.next, b'.next))
  {
  }

  /** Who is live while block i moves. */
  lemma MoveMembers(bs: Blocks, end: nat, i: nat, k: nat, n: nat)
    requires Tiled(bs, end) && i < |bs| && bs[i].used && k < |bs| && Serves(bs[k], n) && n >= MINIALLOC
    requires bs[i] in TakeAt(bs, k, n)
    ensures var mid := TakeAt(bs, k, n);
            var bs' := FreeAt(mid, Find(mid, bs[i]));
            && k < |mid| && mid[k].used && mid[k].addr == bs[k].addr && mid[k].addr + ITEM + n <= mid[k].next
               && mid[k] in bs'
            && (forall b: Block {:trigger b in mid} :: b in bs && b.used ==> b in mid)
            && (forall b: Block {:trigger b in mid} :: b in bs' && b.used ==> b in mid)
  {
    hide TakeAt, FreeAt, Tiled, KeepsWords;
    var mid := TakeAt(bs, k, n);
    TakeTiled(bs, end, k, n);
    TakeMembers(bs, k, n);
    TakenBlock(bs, k, n);
    TiledApart(bs, end, i, k);
    TiledSound(mid, end);
    FreeMembers(mid, end, Find(mid, bs[i]));
    assert mid[k] in mid && mid[k] != bs[i];
  }

  lemma TakenBlock(bs: Blocks, k: nat, n: nat)
    requires k < |bs|
    ensures k < |TakeAt(bs, k, n)|
  {
  }

  lemma TiledSound(bs: Blocks, end: nat)
    requires Tiled(bs, end)
    ensures Sound(bs, end)
  {
  }

  lemma TiledApart(bs: Blocks, end: nat, i: nat, k: nat)
    requires Tiled(bs, end) && i < |bs| && k < |bs| && i != k
    ensures bs[i].addr != bs[k].addr
  {
    var lo, hi := if i < k then i else k, if i < k then k else i;
    ChainCut(bs, 0, end, lo);
    ChainBefore(bs, end, lo, hi);
  }

  /** Words that are copied, with nothing happening to them before or after. */
  lemma CopiedBetween(m: seq<int>, m1: seq<int>, m2: seq<int>, m3: seq<int>, src: nat, srcEnd: nat, dst: nat,
                      dstEnd: nat, count: nat)
    requires SameWords(m, m1, src, srcEnd) && Copied(m1, m2, src, dst, count) && SameWords(m2, m3, dst, dstEnd)
    requires src + count <= srcEnd && dst + count <= dstEnd
    ensures Copied(m, m3, src, dst, count)
  {
    assert m1[src..src + count] == m[src..src + count];
    assert m3[dst..dst + count] == m2[dst..dst + count];
  }

  /** The free block at address a cannot serve n words. */
  ghost predicate TooSmall(bs: Blocks, a: nat, n: nat) {
    forall i {:trigger bs[i]} :: 0 <= i < |bs| && bs[i].addr == a ==> !Serves(bs[i], n)
  }

  lemma IndexUnique(bs: Blocks, end: nat, i: nat, n: nat)
    requires Chain(bs, 0, end) && i < |bs| && !Serves(bs[i], n)
    ensures TooSmall(bs, bs[i].addr, n)
  {
    forall k | 0 <= k < |bs| && bs[k].addr == bs[i].addr ensures !Serves(bs[k], n) {
      ChainDistinct(bs, 0, end, k, i);
    }
  }

  lemma NoneListedServes(bs: Blocks, free: seq<nat>, n: nat)
    requires Listed(bs, free) && forall k {:trigger free[k]} :: 0 <= k < |free| ==> TooSmall(bs, free[k], n)
    ensures NoneServes(bs, n)
  {
    forall k | 0 <= k < |bs| ensures !Serves(bs[k], n) {
      if !bs[k].used {
        assert FreeHere(bs, bs[k].addr);
        var l :| 0 <= l < |free| && free[l] == bs[k].addr;
        assert TooSmall(bs, free[l], n);
      }
    }
  }

  /** Every entry of the free list in front of a is too small. */
  ghost predicate IsFirstListed(bs: Blocks, free: seq<nat>, a: nat, n: nat) {
    exists j :: 0 <= j < |free| && free[j] == a && forall k {:trigger free[k]} :: 0 <= k < j ==>
      TooSmall(bs, free[k], n)
  }
}
