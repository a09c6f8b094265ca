/** The small-memory heap of mem.c, working in place on the words of its pool. */
module SmallMem {
  import opened Lists
  import opened HeapBlocks
  import opened HeapLayout
  import opened Memory

  /** Payload words served to a request for n words: never below MIN_SIZE_ALIGNED. */
  function AtLeastMin(n: nat): nat {
    if n < MIN_SIZE then MIN_SIZE else n
  }

  /** Payload words served to a request for size bytes. */
  function Request(size: nat): nat {
    AtLeastMin(WordsFor(size))
  }

  // ---------------------------------------------------------------- in bytes

  /** A free block with room for a request of size bytes. */
  ghost predicate CanServe(b: Block, size: nat) {
    !b.used && size <= 4 * Room(b) && 12 <= 4 * Room(b)
  }

  /**
   * Block b' serves a request of size bytes out of the free block b: the size is rounded up to whole words, and what is
   * left of b stays free if it can hold a header of 16 bytes and 12 more, else it is served with the request.
   */
  ghost predicate Served(b: Block, b': Block, size: nat) {
    && b'.used && b'.addr == b.addr && size <= 4 * Room(b') && 12 <= 4 * Room(b')
    && if b'.next == b.next then 4 * Room(b) < BytesFor(size) + 4 + 28
       else 4 * Room(b') < BytesFor(size) + 4 && 4 * Room(b) >= 4 * Room(b') + 28
  }

  ghost predicate NoneCanServe(bs: Blocks, size: nat) {
    forall j {:trigger bs[j]} :: 0 <= j < |bs| ==> !CanServe(bs[j], size)
  }

  /** The lowest block that can serve the request. */
  ghost predicate FirstToServe(bs: Blocks, i: nat, size: nat) {
    i < |bs| && CanServe(bs[i], size) && forall j {:trigger bs[j]} :: 0 <= j < i ==> !CanServe(bs[j], size)
  }

  lemma WordsBytes(size: nat)
    ensures Effective(size) <= 4 * WordsFor(size) < Effective(size) + 4
  {
  }

  lemma FitsBytes(b: Block, size: nat)
    ensures Fits(b, Request(size)) <==> CanServe(b, Effective(size))
  {
  }

  /** The search for words is a search for bytes. */
  lemma RequestBytes(bs: Blocks, size: nat)
    ensures NoFit(bs, Request(size)) ==> NoneCanServe(bs, Effective(size))
    ensures NoneCanServe(bs, Effective(size)) ==> NoFit(bs, Request(size))
    ensures forall i: nat {:trigger IsFirstFit(bs, i, Request(size))} ::
              IsFirstFit(bs, i, Request(size)) ==> FirstToServe(bs, i, Effective(size))
  {
    hide Fits, CanServe, Request;
    forall j {:trigger Fits(bs[j], Request(size))} {:trigger CanServe(bs[j], Effective(size))} | 0 <= j < |bs|
      ensures Fits(bs[j], Request(size)) <==> CanServe(bs[j], Effective(size))
    {
      FitsBytes(bs[j], size);
    }
    forall i: nat {:trigger IsFirstFit(bs, i, Request(size))} | IsFirstFit(bs, i, Request(size))
      ensures FirstToServe(bs, i, Effective(size))
    {
      assert Fits(bs[i], Request(size));
    }
  }

  lemma AllocBytes(bs: Blocks, end: nat, i: nat, size: nat)
    requires Sound(bs, end) && i < |bs| && Fits(bs[i], Request(size))
    ensures i < |AllocAt(bs, i, Request(size))| && Served(bs[i], AllocAt(bs, i, Request(size))[i], Effective(size))
  {
    WordsBytes(size);
    AllocSound(bs, end, i, Request(size));
    hide Sound, WordsFor;
  }

  /** A live block at payload address r with room for size bytes, and less than 32 more than a request needs. */
  ghost predicate HasBytes(bs: Blocks, r: nat, size: nat) {
    exists b: Block :: b in bs && b.used && b.addr + HEADER == r && size <= 4 * Room(b) < BytesFor(size) + 32
  }

  class Heap {
    const self: nat                // address of the memory object, as stored in pool_ptr
    const memSize: nat             // mem_size_aligned
    const heap: array<int>         // heap_ptr
    var lfree: nat
    var used: int
    var max: int
    ghost var blocks: Blocks

    ghost function End(): nat { memSize + HEADER }

    ghost predicate Laid()
      reads this, heap
    {
      LaidHeap(heap[..], self, blocks, End())
    }

    ghost predicate Valid()
      reads this, heap
    {
      && Laid()
      && NoFreePair(blocks)
      && lfree == LowestFree(blocks, End())
      && used == UsedWords(blocks)
      && used <= max
    }

    /** rt_smem_init on a pool of memSize words between the first header and the sentinel. */
    constructor (self: nat, memSize: nat)
      requires self % 2 == 0
      ensures Valid() && fresh(heap)
      ensures blocks == [Block(0, memSize + HEADER, false)] && used == 0 && max == 0
      ensures this.self == self && this.memSize == memSize
    {
      this.self := self;
      this.memSize := memSize;
      heap := new int[memSize + 2 * HEADER];
      lfree, used, max := 0, 0, 0;
      blocks := [Block(0, memSize + HEADER, false)];
      new;
      heap[0], heap[1], heap[2] := self, memSize + HEADER, 0;
      var end := memSize + HEADER;
      heap[end], heap[end + 1], heap[end + 2] := self + 1, end, end;
      assert HeaderIs(heap[..], self, blocks[0], 0) && blocks[1..] == [];
      assert HeapLayout.Laid(heap[..], self, blocks[1..], 0);
      assert HeapLayout.Laid(heap[..], self, blocks, 0);
      assert Chain(blocks, 0, End());
    }

    /** MEM_ISUSED */
    predicate IsUsed(p: nat)
      requires p < heap.Length
      reads heap
    {
      heap[p] % 2 == 1
    }

    /** The search loop of rt_smem_alloc: the lowest free block of at least n payload words. */
    method Search(n: nat) returns (found: bool, ptr: nat, ghost i: nat)
      requires Valid() && n <= memSize
      ensures found ==> IsFirstFit(blocks, i, n) && blocks[i].addr == ptr
      ensures !found ==> NoFit(blocks, n)
    {
      ptr := lfree;
      i := LowestIndex(blocks, End());
      while ptr <= memSize - n
        invariant i <= |blocks| && ptr == if i < |blocks| then blocks[i].addr else End()
        invariant forall j :: 0 <= j < i ==> !Fits(blocks[j], n)
        decreases |blocks| - i
      {
        HeapAt(heap[..], self, blocks, End(), i);
        if !IsUsed(ptr) && heap[ptr + 1] - (ptr + HEADER) >= n {
          return true, ptr, i;
        }
        ptr := heap[ptr + 1];
        i := i + 1;
      }
      found := false;
      forall j | 0 <= j < |blocks| ensures !Fits(blocks[j], n) {
        if i <= j {
          ChainCut(blocks, 0, End(), i);
          ChainBefore(blocks, End(), i, j);
        }
      }
    }

    /** A free block is created behind n payload words of the block at ptr and linked in. */
    method SplitBlock(ptr: nat, n: nat, ghost i: nat)
      requires Laid() && i < |blocks| && blocks[i].addr == ptr && Room(blocks[i]) >= n + HEADER
      modifies heap
      ensures Local(old(heap[..]), heap[..], ptr, blocks[i].next) && blocks[i].next + 2 < heap.Length
      ensures heap[ptr] == old(heap[ptr]) && heap[ptr + 1] == ptr + HEADER + n && heap[ptr + 2] == old(heap[ptr + 2])
      ensures var q := ptr + HEADER + n; heap[q] == self && heap[q + 1] == blocks[i].next && heap[q + 2] == ptr
      ensures blocks[i].next != End() ==> heap[blocks[i].next + 2] == ptr + HEADER + n
      ensures forall k :: ptr + HEADER <= k < ptr + HEADER + n ==> heap[k] == old(heap[k])
    {
      HeapAt(heap[..], self, blocks, End(), i);
      var ptr2 := ptr + HEADER + n;
      heap[ptr2] := self;
      heap[ptr2 + 1] := heap[ptr + 1];
      heap[ptr2 + 2] := ptr;
      heap[ptr + 1] := ptr2;
      if heap[ptr2 + 1] != memSize + HEADER {
        heap[heap[ptr2 + 1] + 2] := ptr2;
      }
    }

    /** The free block i at ptr is taken for n words, split when the rest can stand alone. */
    method Carve(ptr: nat, n: nat, ghost i: nat)
      requires Laid() && NoFreePair(blocks) && used == UsedWords(blocks)
      requires i < |blocks| && Fits(blocks[i], n) && blocks[i].addr == ptr
      modifies this`used, this`max, this`blocks, heap
      ensures Laid() && blocks == AllocAt(old(blocks), i, n)
      ensures Local(old(heap[..]), heap[..], ptr, old(blocks[i].next))
      ensures NoFreePair(blocks) && used == UsedWords(blocks)
      ensures max == if old(max) < used then used else old(max)
    {
      hide UsedWords, NoFreePair, Chain;
      ghost var h := heap[..];
      ghost var bs := blocks;
      HeapAt(h, self, bs, End(), i);
      AllocSound(bs, End(), i, n);
      if heap[ptr + 1] - (ptr + HEADER) >= n + HEADER + MIN_SIZE {
        SplitBlock(ptr, n, i);
        used := used + (n + HEADER);
      } else {
        used := used + (heap[ptr + 1] - ptr);
      }
      if max < used {
        max := used;
      }
      heap[ptr] := self + 1;
      CarvedLaid(h, heap[..], self, bs, End(), i, n);
      blocks := AllocAt(bs, i, n);
    }

    /** lfree moves on from a block that has just been taken. */
    method AdvanceFree()
      requires Laid() && exists k: nat :: k < |blocks| && blocks[k].addr == lfree && forall j :: 0 <= j < k ==>
                 blocks[j].used
      modifies this`lfree
      ensures lfree == LowestFree(blocks, End())
    {
      ghost var k: nat :| k < |blocks| && blocks[k].addr == lfree && forall j :: 0 <= j < k ==> blocks[j].used;
      HeapAt(heap[..], self, blocks, End(), k);
      while IsUsed(lfree) && lfree != memSize + HEADER
        invariant k <= |blocks| && lfree <= End() && lfree == if k < |blocks| then blocks[k].addr else End()
        invariant forall j :: 0 <= j < k ==> blocks[j].used
        decreases |blocks| - k
      {
        HeapAt(heap[..], self, blocks, End(), k);
        lfree := heap[lfree + 1];
        k := k + 1;
      }
      if k < |blocks| {
        HeapAt(heap[..], self, blocks, End(), k);
      }
      LowestFreeIs(blocks, End(), k);
    }

    /** rt_smem_alloc. The result is a payload address; i is the index of the block that serves the request. */
    method Alloc(size: nat) returns (r: Option<nat>, ghost i: nat)
      requires Valid() && size < 0x1_0000_0000
      modifies this`lfree, this`used, this`max, this`blocks, heap
      ensures Valid()
      // in bytes: the lowest free block with room for them, if there is one
      ensures r.None? <==> size == 0 || NoneCanServe(old(blocks), Effective(size))
      ensures r.None? ==> blocks == old(blocks) && heap[..] == old(heap[..]) && used == old(used) && max == old(max)
      ensures r.Some? ==>
                && i < |old(blocks)| && FirstToServe(old(blocks), i, Effective(size))
                && i < |blocks| && Served(old(blocks)[i], blocks[i], Effective(size))
                && (size <= 4 * Room(blocks[i]) || size > 0xFFFF_FFFC)
      ensures r.None? <==> size == 0 || NoFit(old(blocks), Request(size))
      ensures r.Some? ==>
                && IsFirstFit(old(blocks), i, Request(size))
                && blocks == AllocAt(old(blocks), i, Request(size))
                && i < |blocks| && r.value == blocks[i].addr + HEADER && blocks[i].addr == old(blocks)[i].addr
                && used == old(used) + (blocks[i].next - blocks[i].addr)
                && max == if old(max) < used then used else old(max)
      ensures Keeps(old(heap[..]), heap[..], old(blocks), blocks)
    {
      i := 0;
      if size == 0 {
        return None, i;
      }
      RequestBytes(blocks, size);
      AlignedIs(size);
      hide NoneCanServe, FirstToServe, Served;
      var n := Aligned(size);
      if n < MIN_SIZE {
        n := MIN_SIZE;
      }
      if n > memSize {
        RoomsBounded(blocks, End());
        return None, i;
      }
      var found, ptr;
      found, ptr, i := Search(n);
      if !found {
        return None, i;
      }
      AllocBytes(blocks, End(), i, size);
      TakeBlock(ptr, n, i);
      r := Some(ptr + HEADER);
    }

    /** What rt_smem_alloc does to the block it has found. */
    method TakeBlock(ptr: nat, n: nat, ghost i: nat)
      requires Valid() && i < |blocks| && Fits(blocks[i], n) && blocks[i].addr == ptr
      modifies this`lfree, this`used, this`max, this`blocks, heap
      ensures Valid() && blocks == AllocAt(old(blocks), i, n)
      ensures blocks[i].addr == ptr && blocks[i].used && used == old(used) + (blocks[i].next - blocks[i].addr)
      ensures max == if old(max) < used then used else old(max)
      ensures Keeps(old(heap[..]), heap[..], old(blocks), blocks)
    {
      ghost var bs := blocks;
      ghost var h := heap[..];
      Carve(ptr, n, i);
      AllocSound(bs, End(), i, n);
      assert bs[i..i + 1] == [bs[i]];
      ReplaceKeeps(h, heap[..], bs, End(), i, i + 1, Carved(bs[i], n));
      ghost var k := LowestIndex(bs, End());
      assert k <= i && blocks[..k] == bs[..k];
      if ptr == lfree {
        ChainDistinct(bs, 0, End(), i, k);
        AdvanceFree();
      } else {
        assert blocks[k] == bs[k];
        LowestFreeIs(blocks, End(), k);
      }
    }

    /** plug_holes, forward half, for the free block i at mem. */
    method PlugForwardAt(mem: nat, ghost i: nat)
      requires Laid() && i < |blocks| && blocks[i].addr == mem && !blocks[i].used
      requires lfree == LowestFree(blocks, End())
      modifies this`lfree, this`blocks, heap
      ensures Laid() && blocks == PlugForward(old(blocks), i)
      ensures lfree == LowestFree(blocks, End())
      ensures Keeps(old(heap[..]), heap[..], old(blocks), blocks)
    {
      ghost var bs := blocks;
      ghost var h := heap[..];
      HeapAt(h, self, bs, End(), i);
      PlugLowest(bs, End(), i);
      var nmem := heap[mem + 1];
      if mem != nmem && !IsUsed(nmem) && nmem != memSize + HEADER {
        HeapAt(h, self, bs, End(), i + 1);
        if lfree == nmem {
          lfree := mem;
        }
        heap[nmem] := 0;
        heap[mem + 1] := heap[nmem + 1];
        heap[heap[nmem + 1] + 2] := mem;
        blocks := PlugForward(bs, i);
        MergedLaid(h, heap[..], self, bs, End(), i);
        ForwardNotLowest(bs, End(), i);
      } else if i + 1 < |bs| {
        HeapAt(h, self, bs, End(), i + 1);
      }
    }

    /** plug_holes, backward half. */
    method PlugBackwardAt(mem: nat, ghost i: nat)
      requires Laid() && i < |blocks| && blocks[i].addr == mem && !blocks[i].used
      requires lfree == LowestFree(blocks, End())
      modifies this`lfree, this`blocks, heap
      ensures Laid() && blocks == PlugBackward(old(blocks), i)
      ensures lfree == LowestFree(blocks, End())
      ensures Keeps(old(heap[..]), heap[..], old(blocks), blocks)
    {
      ghost var bs := blocks;
      ghost var h := heap[..];
      HeapAt(h, self, bs, End(), i);
      PlugLowest(bs, End(), i);
      var pmem := heap[mem + 2];
      if i > 0 {
        HeapAt(h, self, bs, End(), i - 1);
      }
      if pmem != mem && !IsUsed(pmem) {
        if lfree == mem {
          lfree := pmem;
        }
        heap[mem] := 0;
        heap[pmem + 1] := heap[mem + 1];
        heap[heap[mem + 1] + 2] := pmem;
        blocks := PlugBackward(bs, i);
        MergedLaid(h, heap[..], self, bs, End(), i - 1);
        ForwardNotLowest(bs, End(), i - 1);
      }
    }

    /** plug_holes */
    method PlugHolesAt(mem: nat, ghost i: nat)
      requires Laid() && i < |blocks| && blocks[i].addr == mem && !blocks[i].used
      requires lfree == LowestFree(blocks, End())
      modifies this`lfree, this`blocks, heap
      ensures Laid() && blocks == PlugHoles(old(blocks), i)
      ensures lfree == LowestFree(blocks, End())
      ensures Keeps(old(heap[..]), heap[..], old(blocks), blocks)
    {
      ghost var h, bs := heap[..], blocks;
      PlugForwardAt(mem, i);
      ghost var h', bs' := heap[..], blocks;
      PlugBackwardAt(mem, i);
      KeepsTransitive(h, h', heap[..], bs, bs', blocks);
    }

    /** rt_smem_free of the live block i, or of the null pointer. */
    method Free(rmem: Option<nat>, ghost i: nat)
      requires Valid()
      requires rmem.Some? ==> i < |blocks| && blocks[i].used && blocks[i].addr + HEADER == rmem.value
      modifies this`lfree, this`used, this`blocks, heap
      ensures Valid()
      ensures rmem.None? ==> blocks == old(blocks) && heap[..] == old(heap[..]) && used == old(used)
      ensures rmem.Some? ==>
                && blocks == FreeAt(old(blocks), i)
                && used == old(used) - (old(blocks)[i].next - old(blocks)[i].addr)
                && KeepsBut(old(heap[..]), heap[..], old(blocks), blocks, old(blocks)[i])
    {
      if rmem.None? {
        return;
      }
      ghost var h, bs := heap[..], blocks;
      var mem := rmem.value - HEADER;
      HeapAt(h, self, bs, End(), i);
      used := used - (heap[mem + 1] - mem);
      MarkFreeAt(mem, i);
      ghost var h', bs' := heap[..], blocks;
      PlugHolesAt(mem, i);
      KeepsButThen(h, h', heap[..], bs, bs', blocks, bs[i]);
      FreeSound(bs, End(), i);
    }

    /** The used flag of block i goes, and lfree follows. */
    method MarkFreeAt(mem: nat, ghost i: nat)
      requires Laid() && i < |blocks| && blocks[i].addr == mem && blocks[i].used
      requires lfree == LowestFree(blocks, End())
      modifies this`lfree, this`blocks, heap
      ensures Laid() && blocks == MarkFree(old(blocks), i)
      ensures lfree == LowestFree(blocks, End())
      ensures KeepsBut(old(heap[..]), heap[..], old(blocks), blocks, old(blocks)[i])
    {
      ghost var h, bs := heap[..], blocks;
      HeapAt(h, self, bs, End(), i);
      heap[mem] := self;
      MarkFreeLowest(bs, 0, End(), i);
      if mem < lfree {
        lfree := mem;
      }
      blocks := MarkFree(bs, i);
      MarkedLaid(h, heap[..], self, bs, End(), i);
    }

    /** The in-place branch of rt_smem_realloc: the tail of block i behind n words is given back. */
    method Shrink(ptr: nat, n: nat, ghost i: nat)
      requires Valid() && i < |blocks| && blocks[i].used && blocks[i].addr == ptr
      requires n + HEADER + MIN_SIZE < Room(blocks[i])
      modifies this`lfree, this`used, this`blocks, heap
      ensures Valid() && blocks == ShrinkAt(old(blocks), i, n) && i < |blocks|
      ensures blocks[i] == Block(ptr, ptr + HEADER + n, true)
      ensures SamePayload(old(heap[..]), heap[..], blocks[i])
      ensures KeepsBut(old(heap[..]), heap[..], old(blocks), blocks, old(blocks)[i])
    {
      ghost var h, bs := heap[..], blocks;
      HeapAt(h, self, bs, End(), i);
      ShrinkSound(bs, End(), i, n);
      ShrinkUsedWords(bs, i, n);
      hide UsedWords, LowestFree, KeepsBut, Keeps, SamePayload, LaidHeap, SplitAt;
      var size := heap[ptr + 1] - ptr - HEADER;
      used := used - (size - n);
      SplitTail(ptr, n, i);
      ghost var h', bs' := heap[..], blocks;
      PlugHolesAt(ptr + HEADER + n, i + 1);
      KeepsButThen(h, h', heap[..], bs, bs', blocks, bs[i]);
      KeptPayload(h, h', heap[..], bs', blocks, i);
      ShrunkIs(bs, i, n);
    }

    lemma ShrunkIs(bs: Blocks, i: nat, n: nat)
      requires i < |bs|
      ensures i + 1 < |SplitAt(bs, i, n)| && ShrinkAt(bs, i, n) == PlugHoles(SplitAt(bs, i, n), i + 1)
    {
    }

    /** The new header behind the kept words, before it is merged with what follows. */
    method SplitTail(ptr: nat, n: nat, ghost i: nat)
      requires Laid() && i < |blocks| && blocks[i].used && blocks[i].addr == ptr && n + HEADER < Room(blocks[i])
      requires lfree == LowestFree(blocks, End())
      modifies this`lfree, this`blocks, heap
      ensures Laid() && blocks == SplitAt(old(blocks), i, n)
      ensures i + 1 < |blocks| && blocks[i] == Block(ptr, ptr + HEADER + n, true)
      ensures blocks[i + 1].addr == ptr + HEADER + n && !blocks[i + 1].used
      ensures lfree == LowestFree(blocks, End())
      ensures SamePayload(old(heap[..]), heap[..], blocks[i])
      ensures KeepsBut(old(heap[..]), heap[..], old(blocks), blocks, old(blocks)[i])
    {
      ghost var h, bs := heap[..], blocks;
      HeapAt(h, self, bs, End(), i);
      SplitBlock(ptr, n, i);
      SplitLowest(bs, 0, End(), i, n);
      var ptr2 := ptr + HEADER + n;
      if ptr2 < lfree {
        lfree := ptr2;
      }
      SplitLaid(h, heap[..], self, bs, End(), i, n);
      ReplaceKeepsBut(h, heap[..], bs, End(), i, Split(bs[i], n));
      blocks := SplitAt(bs, i, n);
    }

    /** The first count words of live block from are copied into live block to. */
    method CopyInto(count: nat, ghost from: nat, ghost to: nat, src: nat, dst: nat)
      requires Valid() && from < |blocks| && to < |blocks| && from != to
      requires dst == blocks[to].addr + HEADER && src == blocks[from].addr + HEADER
      requires count <= Room(blocks[from]) && count <= Room(blocks[to])
      modifies heap
      ensures Valid() && KeepsBut(old(heap[..]), heap[..], blocks, blocks, blocks[to])
      ensures Copied(old(heap[..]), heap[..], src, dst, count)
      ensures blocks[to].next <= |heap[..]|
    {
      ghost var h, bs := heap[..], blocks;
      HeapAt(h, self, bs, End(), from);
      HeapAt(h, self, bs, End(), to);
      if from < to {
        ChainBefore(bs, End(), from, to);
      } else {
        ChainBefore(bs, End(), to, from);
      }
      CopyWords(heap, dst, src, count);
      PayloadWrite(h, heap[..], self, bs, End(), to);
    }

    /** Live block from is copied into live block to and then freed. */
    method CopyAndFree(count: nat, ghost from: nat, ghost to: nat, src: nat, dst: nat)
      requires Valid() && from < |blocks| && to < |blocks| && from != to && blocks[to].used && blocks[from].used
      requires dst == blocks[to].addr + HEADER && src == blocks[from].addr + HEADER
      requires count <= Room(blocks[from]) && count <= Room(blocks[to])
      requires blocks[to] != blocks[from]
      modifies this`lfree, this`used, this`blocks, heap
      ensures Valid() && blocks == FreeAt(old(blocks), from)
      ensures used == old(used) - (old(blocks)[from].next - old(blocks)[from].addr)
      ensures Copied(old(heap[..]), heap[..], src, dst, count)
      ensures forall b {:trigger b in old(blocks)} ::
                b in old(blocks) && b.used && b != old(blocks)[from] && b != old(blocks)[to]
                ==> b in blocks && SamePayload(old(heap[..]), heap[..], b)
    {
      hide LaidHeap, UsedWords, LowestFree, NoFreePair, FreeAt, Valid, Laid;
      ghost var bs := blocks;
      CopyInto(count, from, to, src, dst);
      ghost var h := heap[..];
      Free(Some(src), from);
      assert bs[to] in bs;
      PayloadCopied(h, heap[..], bs[to], count);
    }

    /** The moving branch of rt_smem_realloc; k is the block that serves the new request. */
    method Move(rmem: nat, size: nat, newsize: nat, ghost i: nat) returns (r: Option<nat>, ghost k: nat)
      requires Valid() && i < |blocks| && blocks[i].used && blocks[i].addr + HEADER == rmem && size == Room(blocks[i])
      requires 0 < newsize <= memSize && newsize * 4 + 3 < 0x1_0000_0000
      modifies this`lfree, this`used, this`max, this`blocks, heap
      ensures Valid()
      ensures r.None? <==> NoFit(old(blocks), AtLeastMin(newsize))
      ensures r.None? ==> blocks == old(blocks) && heap[..] == old(heap[..]) && used == old(used)
      ensures r.Some? ==> MovedTo(old(blocks), blocks, i, k, AtLeastMin(newsize))
      ensures r.Some? ==> HasBytes(blocks, r.value, 4 * newsize)
      ensures max == if r.Some? && old(max) < used + HEADER + size then used + HEADER + size else old(max)
      ensures r.Some? ==> r.value == old(blocks)[k].addr + HEADER
      ensures r.Some? ==> KeepsBut(old(heap[..]), heap[..], old(blocks), blocks, old(blocks)[i])
      ensures r.Some? ==> Copied(old(heap[..]), heap[..], rmem, r.value, if size < newsize then size else newsize)
    {
      ghost var h, bs := heap[..], blocks;
      WholeWords(newsize);
      r, k := Alloc(newsize * 4);
      if r.Some? {
        AllocSound(bs, End(), k, AtLeastMin(newsize));
        Relocate(h, bs, rmem, r.value, if size < newsize then size else newsize, i, k, AtLeastMin(newsize));
        NewBlockStays(bs, blocks, End(), i, k, AtLeastMin(newsize));
      }
    }

    /** Live block i of bs has got the new block k carved: its words move there and it is freed. */
    method Relocate(ghost h: seq<int>, ghost bs: Blocks, src: nat, dst: nat, count: nat, ghost i: nat, ghost k: nat,
                    ghost m: nat)
      requires Valid() && LaidHeap(h, self, bs, End()) && NoFreePair(bs) && Keeps(h, heap[..], bs, blocks)
      requires i < |bs| && bs[i].used && IsFirstFit(bs, k, m) && blocks == AllocAt(bs, k, m)
      requires src == bs[i].addr + HEADER && dst == bs[k].addr + HEADER && count <= Room(bs[i]) && count <= m
      modifies this`lfree, this`used, this`blocks, heap
      ensures Valid() && MovedTo(bs, blocks, i, k, m)
      ensures used == old(used) - HEADER - Room(bs[i])
      ensures KeepsBut(h, heap[..], bs, blocks, bs[i]) && Copied(h, heap[..], src, dst, count)
    {
      ghost var h1, bs1 := heap[..], blocks;
      HeapAt(h, self, bs, End(), i);
      assert bs[i] in bs;
      ghost var i' := Find(bs1, bs[i]);
      MoveReady(bs, End(), i, k, m);
      CopyAndFree(count, i', k, src, dst);
      MoveDone(h, h1, heap[..], bs, bs1, blocks, bs[i], bs1[k], count, src, dst);
    }

    /** rt_smem_realloc of the live block i, or of the null pointer. */
    method Realloc(rmem: Option<nat>, newsize: nat, ghost i: nat) returns (r: Option<nat>, ghost k: nat)
      requires Valid() && newsize < 0x1_0000_0000
      requires rmem.Some? ==> i < |blocks| && blocks[i].used && blocks[i].addr + HEADER == rmem.value
      modifies this`lfree, this`used, this`max, this`blocks, heap
      ensures Valid()
      // in bytes: a failure changes nothing, a success is a live block of that size with the old bytes it has room for
      ensures Effective(newsize) > 0 && r.None? ==>
                blocks == old(blocks) && heap[..] == old(heap[..]) && used == old(used)
      ensures r.Some? ==> 0 < newsize <= 0xFFFF_FFFC && HasBytes(blocks, r.value, newsize)
      ensures r.Some? && rmem.Some? ==>
                BytesKept(old(heap[..]), heap[..], rmem.value, r.value, 4 * Room(old(blocks)[i]), newsize)
      ensures WordsFor(newsize) > memSize ==> r.None? && blocks == old(blocks) && heap[..] == old(heap[..])
      // nothing is left of the largest sizes, and a block is freed for them
      ensures Effective(newsize) == 0 ==>
                r.None? && blocks == if rmem.None? then old(blocks) else FreeAt(old(blocks), i)
      ensures Effective(newsize) == 0 && rmem.Some? ==>
                KeepsBut(old(heap[..]), heap[..], old(blocks), blocks, old(blocks)[i])
      ensures rmem.None? && 0 < WordsFor(newsize) <= memSize ==>
                && Keeps(old(heap[..]), heap[..], old(blocks), blocks)
                && (r.None? <==> NoFit(old(blocks), Request(newsize)))
                && (r.Some? ==>
                      && IsFirstFit(old(blocks), k, Request(newsize))
                      && blocks == AllocAt(old(blocks), k, Request(newsize))
                      && r.value == old(blocks)[k].addr + HEADER)
                && (r.None? ==> blocks == old(blocks))
      ensures rmem.Some? && 0 < WordsFor(newsize) <= memSize ==>
                Reallocated(old(heap[..]), heap[..], old(blocks), blocks, i, k, WordsFor(newsize), r)
      // the peak: the new block and the old one are both in use while the words are copied
      ensures rmem.None? ==> max == if r.Some? && old(max) < used then used else old(max)
      ensures rmem.Some? ==>
                var size := Room(old(blocks)[i]);
                var both := used + HEADER + size;
                max == if r.Some? && !StaysInPlace(size, WordsFor(newsize)) && old(max) < both then both else old(max)
    {
      hide HasBytes, BytesKept, Served, FirstToServe, NoneCanServe, Reallocated, KeepsBut, Copied, StaysInPlace, Valid;
      hide IsFirstFit, NoFit, AllocAt, FreeAt, Keeps;
      k := 0;
      WordsBytes(newsize);
      AlignedIs(newsize);
      var n := Aligned(newsize);
      if n > memSize {
        return None, k;
      } else if n == 0 {
        Free(rmem, i);
        return None, k;
      }
      if rmem.None? {
        WholeWords(n);
        ghost var bs := blocks;
        r, k := Alloc(n * 4);
        ServedHasBytes(bs, blocks, k, r, n);
      } else {
        r, k := ReallocLive(rmem.value, n, i);
        ReallocatedFacts(old(heap[..]), heap[..], old(blocks), blocks, i, k, n, r);
        KeptInBytes(old(heap[..]), heap[..], rmem.value, r, Room(old(blocks)[i]), n, Effective(newsize));
      }
      SameBytes(blocks, r, n, newsize);
    }

    /** rt_smem_realloc of the live block i to n words. */
    method ReallocLive(rmem: nat, n: nat, ghost i: nat) returns (r: Option<nat>, ghost k: nat)
      requires Valid() && 0 < n <= memSize && n * 4 + 3 < 0x1_0000_0000
      requires i < |blocks| && blocks[i].used && blocks[i].addr + HEADER == rmem
      modifies this`lfree, this`used, this`max, this`blocks, heap
      ensures Valid() && Reallocated(old(heap[..]), heap[..], old(blocks), blocks, i, k, n, r)
      ensures r.None? ==> used == old(used)
      ensures r.Some? ==> HasBytes(blocks, r.value, 4 * n)
      ensures var size := Room(old(blocks)[i]);
              var both := used + HEADER + size;
              max == if r.Some? && !StaysInPlace(size, n) && old(max) < both then both else old(max)
    {
      k := 0;
      var mem := rmem - HEADER;
      BlockAt(i);
      hide Valid, Laid, LaidHeap, UsedWords, LowestFree, NoFit, KeepsBut, MovedTo, ShrinkAt, HasBytes, Reallocated;
      hide SamePayload, Copied;
      ghost var h, bs := heap[..], blocks;
      var size := heap[mem + 1] - mem - HEADER;
      if size == n {
        Stayed(h, bs, i, k);
        InList(blocks, i, n);
        return Some(rmem), k;
      }
      if n + HEADER + MIN_SIZE < size {
        Shrink(mem, n, i);
        PayloadCopied(h, heap[..], blocks[i], n);
        ShrunkTo(h, heap[..], bs, blocks, i, k, n);
        InList(blocks, i, n);
        return Some(rmem), k;
      }
      r, k := Move(rmem, size, n, i);
      MovedOff(h, heap[..], bs, blocks, i, k, n, r);
    }

    lemma BlockAt(i: nat)
      requires Valid() && i < |blocks|
      ensures blocks[i].addr + 1 < heap.Length && heap[blocks[i].addr + 1] == blocks[i].next
      ensures blocks[i].addr + HEADER <= blocks[i].next <= |heap[..]|
    {
      HeapAt(heap[..], self, blocks, End(), i);
    }
  }

  lemma Stayed(h: seq<int>, bs: Blocks, i: nat, k: nat)
    requires i < |bs| && bs[i].addr + HEADER <= bs[i].next <= |h|
    ensures Reallocated(h, h, bs, bs, i, k, Room(bs[i]), Some(bs[i].addr + HEADER))
  {
    SameKept(h, bs, bs[i]);
  }

  lemma ShrunkTo(h: seq<int>, h': seq<int>, bs: Blocks, bs': Blocks, i: nat, k: nat, n: nat)
    requires i < |bs| && Room(bs[i]) > n + HEADER + MIN_SIZE && bs' == ShrinkAt(bs, i, n)
    requires KeepsBut(h, h', bs, bs', bs[i]) && Copied(h, h', bs[i].addr + HEADER, bs[i].addr + HEADER, n)
    ensures Reallocated(h, h', bs, bs', i, k, n, Some(bs[i].addr + HEADER))
  {
    hide KeepsBut, Copied, ShrinkAt;
  }

  lemma MovedOff(h: seq<int>, h': seq<int>, bs: Blocks, bs': Blocks, i: nat, k: nat, n: nat, r: Option<nat>)
    requires i < |bs| && !StaysInPlace(Room(bs[i]), n) && (r.None? <==> NoFit(bs, AtLeastMin(n)))
    requires r.None? ==> bs' == bs && h' == h
    requires r.Some? ==> MovedTo(bs, bs', i, k, AtLeastMin(n)) && r.value == bs[k].addr + HEADER
                         && KeepsBut(h, h', bs, bs', bs[i])
                         && Copied(h, h', bs[i].addr + HEADER, r.value, if Room(bs[i]) < n then Room(bs[i]) else n)
    ensures Reallocated(h, h', bs, bs', i, k, n, r)
  {
    SameKept(h, bs, bs[i]);
    hide KeepsBut, Copied, NoFit;
  }

  lemma ReallocatedFacts(h: seq<int>, h': seq<int>, bs: Blocks, bs': Blocks, i: nat, k: nat, n: nat, r: Option<nat>)
    requires i < |bs| && Reallocated(h, h', bs, bs', i, k, n, r)
    ensures r.None? ==> bs' == bs && h' == h
    ensures r.Some? ==> Copied(h, h', bs[i].addr + HEADER, r.value, if Room(bs[i]) < n then Room(bs[i]) else n)
  {
    hide Copied, KeepsBut;
  }

  lemma ServedHasBytes(bs: Blocks, bs': Blocks, k: nat, r: Option<nat>, n: nat)
    requires r.Some? ==> k < |bs| && k < |bs'| && Served(bs[k], bs'[k], 4 * n) && r.value == bs'[k].addr + HEADER
    ensures r.Some? ==> HasBytes(bs', r.value, 4 * n)
  {
    if r.Some? {
      assert bs'[k] in bs';
    }
  }

  /** A request in bytes is a request in whole words. */
  lemma SameBytes(bs: Blocks, r: Option<nat>, n: nat, size: nat)
    requires n == WordsFor(size) && (r.Some? ==> HasBytes(bs, r.value, 4 * n))
    ensures r.Some? ==> HasBytes(bs, r.value, Effective(size))
  {
    if r.Some? {
      var b: Block :| b in bs && b.used && b.addr + HEADER == r.value && 4 * n <= 4 * Room(b) < BytesFor(4 * n) + 32;
      WordsBytes(size);
    }
  }

  lemma InList(bs: Blocks, i: nat, n: nat)
    requires i < |bs| && bs[i].used && Room(bs[i]) == n
    ensures HasBytes(bs, bs[i].addr + HEADER, 4 * n)
  {
    assert bs[i] in bs;
  }

  /** The block carved for a move is still there once the old one has been freed. */
  lemma NewBlockStays(bs: Blocks, bs': Blocks, end: nat, i: nat, k: nat, m: nat)
    requires Sound(bs, end) && MovedTo(bs, bs', i, k, m) && bs[i].used
    ensures k < |bs|
    ensures forall n: nat :: n <= m && (m <= n || m <= MIN_SIZE) ==> HasBytes(bs', bs[k].addr + HEADER, 4 * n)
  {
    MoveReady(bs, end, i, k, m);
    AllocSound(bs, end, k, m);
    var a := AllocAt(bs, k, m);
    FreeMembers(a, end, Find(a, bs[i]));
    assert a[k] in a && a[k] in bs';
  }

  /** A payload that survives two steps. */
  lemma KeptPayload(h: seq<int>, h': seq<int>, h'': seq<int>, bs: Blocks, bs': Blocks, i: nat)
    requires i < |bs| && bs[i].used && SamePayload(h, h', bs[i]) && Keeps(h', h'', bs, bs')
    ensures SamePayload(h, h'', bs[i])
  {
    assert bs[i] in bs;
  }

  lemma SameKept(h: seq<int>, bs: Blocks, b: Block)
    ensures KeepsBut(h, h, bs, bs, b)
  {
  }

  /** Block i moved: block k was carved for it and the old block was then freed. */
  ghost predicate MovedTo(bs: Blocks, bs': Blocks, i: nat, k: nat, m: nat) {
    && i < |bs| && IsFirstFit(bs, k, m)
    && bs[i] in AllocAt(bs, k, m)
    && bs' == FreeAt(AllocAt(bs, k, m), Find(AllocAt(bs, k, m), bs[i]))
  }

  /** The block keeps its size or is shrunk where it is. */
  predicate StaysInPlace(size: int, n: nat) {
    size == n || size > n + HEADER + MIN_SIZE
  }

  /** What a realloc of live block i to n words may do; the old contents are kept up to the shorter length. */
  ghost predicate Reallocated(h: seq<int>, h': seq<int>, bs: Blocks, bs': Blocks, i: nat, k: nat, n: nat,
                              r: Option<nat>)
    requires i < |bs|
  {
    var size := Room(bs[i]);
    var rmem := bs[i].addr + HEADER;
    && KeepsBut(h, h', bs, bs', bs[i])
    && (size == n ==> r == Some(rmem) && bs' == bs && h' == h)
    && (size > n + HEADER + MIN_SIZE ==> r == Some(rmem) && bs' == ShrinkAt(bs, i, n))
    && (!StaysInPlace(size, n) ==>
          && (r.None? <==> NoFit(bs, AtLeastMin(n)))
          && (r.None? ==> bs' == bs && h' == h)
          && (r.Some? ==> MovedTo(bs, bs', i, k, AtLeastMin(n)) && r.value == bs[k].addr + HEADER))
    && (r.Some? ==> Copied(h, h', rmem, r.value, if size < n then size else n))
  }

  /** Index of the lowest free block, or the length of the list. */
  function LowestIndex(bs: Blocks, end: nat): (i: nat)
    ensures i <= |bs| && (forall j :: 0 <= j < i ==> bs[j].used) && (i < |bs| ==> !bs[i].used)
    ensures LowestFree(bs, end) == if i < |bs| then bs[i].addr else end
  {
    if bs == [] || !bs[0].used then 0 else 1 + LowestIndex(bs[1..], end)
  }

  /** The words after carving block i lay out the new block list. */
  lemma CarvedLaid(h: seq<int>, h': seq<int>, self: nat, bs: Blocks, end: nat, i: nat, n: nat)
    requires LaidHeap(h, self, bs, end) && i < |bs| && Fits(bs[i], n)
    requires Local(h, h', bs[i].addr, bs[i].next)
    requires var a := bs[i].addr;
             && bs[i].next + 2 < |h'|
             && h'[a] == self + 1
             && h'[a + 2] == h[a + 2]
             && (Room(bs[i]) < n + HEADER + MIN_SIZE ==>
                   h'[a + 1] == h[a + 1] && h'[bs[i].next + 2] == h[bs[i].next + 2])
             && (Room(bs[i]) >= n + HEADER + MIN_SIZE ==>
                   var q := a + HEADER + n;
                   && h'[a + 1] == q
                   && h'[q] == self && h'[q + 1] == bs[i].next && h'[q + 2] == a
                   && (bs[i].next != end ==> h'[bs[i].next + 2] == q))
    ensures LaidHeap(h', self, AllocAt(bs, i, n), end)
  {
    HeapAt(h, self, bs, end, i);
    if i + 1 < |bs| {
      HeapAt(h, self, bs, end, i + 1);
    }
    var b := bs[i];
    var mid := Carved(b, n);
    assert LastAddr(bs[..i], 0) == if i == 0 then 0 else bs[i - 1].addr;
    assert HeaderIs(h', self, mid[0], LastAddr(bs[..i], 0));
    if |mid| == 2 {
      assert mid[1..] == [mid[1]];
      assert HeaderIs(h', self, mid[1], mid[0].addr);
    }
    ReplaceLaid(h, h', self, bs, end, i, i + 1, mid);
  }

  /** No free block holds more than the pool does. */
  lemma RoomsBounded(bs: Blocks, end: nat)
    requires Chain(bs, 0, end)
    ensures forall j :: 0 <= j < |bs| ==> Room(bs[j]) + HEADER <= end
  {
    forall j | 0 <= j < |bs| ensures Room(bs[j]) + HEADER <= end {
      ChainCut(bs, 0, end, j);
    }
  }

  /** A free block behind another free block is not the lowest one. */
  lemma ForwardNotLowest(bs: Blocks, end: nat, i: nat)
    requires Chain(bs, 0, end) && i + 1 < |bs| && !bs[i].used
    ensures LowestFree(bs, end) != bs[i + 1].addr
  {
    var k := LowestIndex(bs, end);
    assert k <= i;
    if bs[k].addr == bs[i + 1].addr {
      ChainDistinct(bs, 0, end, k, i + 1);
    }
  }

  /** The words after merging the free blocks i and i + 1. */
  lemma MergedLaid(h: seq<int>, h': seq<int>, self: nat, bs: Blocks, end: nat, i: nat)
    requires LaidHeap(h, self, bs, end) && i + 1 < |bs| && !bs[i].used && !bs[i + 1].used
    requires var a, b, c := bs[i].addr, bs[i + 1].addr, bs[i + 1].next;
             && a + 1 < |h| && b < |h| && c + 2 < |h|
             && h' == h[b := 0][a + 1 := c][c + 2 := a]
    ensures var m := [Block(bs[i].addr, bs[i + 1].next, false)];
            LaidHeap(h', self, Replace(bs, i, i + 2, m), end) && Keeps(h, h', bs, Replace(bs, i, i + 2, m))
  {
    HeapAt(h, self, bs, end, i);
    HeapAt(h, self, bs, end, i + 1);
    var mid := [Block(bs[i].addr, bs[i + 1].next, false)];
    assert mid[1..] == [];
    assert HeaderIs(h', self, mid[0], LastAddr(bs[..i], 0));
    assert Laid(h', self, mid, LastAddr(bs[..i], 0));
    ReplaceLaid(h, h', self, bs, end, i, i + 2, mid);
    assert bs[i..i + 2] == [bs[i], bs[i + 1]];
    ReplaceKeeps(h, h', bs, end, i, i + 2, mid);
  }

  /** The words after clearing the used flag of block i. */
  lemma MarkedLaid(h: seq<int>, h': seq<int>, self: nat, bs: Blocks, end: nat, i: nat)
    requires LaidHeap(h, self, bs, end) && i < |bs| && bs[i].addr < |h| && h' == h[bs[i].addr := self]
    ensures LaidHeap(h', self, MarkFree(bs, i), end) && KeepsBut(h, h', bs, MarkFree(bs, i), bs[i])
  {
    HeapAt(h, self, bs, end, i);
    if i + 1 < |bs| {
      HeapAt(h, self, bs, end, i + 1);
    }
    var mid := [bs[i].(used := false)];
    assert mid[1..] == [];
    assert HeaderIs(h', self, mid[0], LastAddr(bs[..i], 0));
    assert Laid(h', self, mid, LastAddr(bs[..i], 0));
    ReplaceLaid(h, h', self, bs, end, i, i + 1, mid);
    ReplaceKeepsBut(h, h', bs, end, i, mid);
  }

  /** Splitting used block i lowers the lowest free address exactly when the new header lies lower. */
  lemma {:induction false} SplitLowest(bs: Blocks, lo: nat, end: nat, i: nat, n: nat)
    requires Chain(bs, lo, end) && i < |bs| && bs[i].used && n + HEADER < Room(bs[i])
    ensures var q := bs[i].addr + HEADER + n;
            LowestFree(SplitAt(bs, i, n), end) == if q < LowestFree(bs, end) then q else LowestFree(bs, end)
  {
    var m := SplitAt(bs, i, n);
    if i == 0 {
      assert m[1..] == [Split(bs[0], n)[1]] + bs[1..];
      LowestFreeBound(bs[1..], bs[0].next, end);
    } else {
      assert m[1..] == SplitAt(bs[1..], i - 1, n);
      SplitLowest(bs[1..], bs[0].next, end, i - 1, n);
      if !bs[0].used {
        ChainCut(bs, lo, end, i);
      }
    }
  }

  /** The words after splitting used block i. */
  lemma SplitLaid(h: seq<int>, h': seq<int>, self: nat, bs: Blocks, end: nat, i: nat, n: nat)
    requires LaidHeap(h, self, bs, end) && i < |bs| && bs[i].used && n + HEADER < Room(bs[i])
    requires Local(h, h', bs[i].addr, bs[i].next)
    requires var a := bs[i].addr;
             var q := a + HEADER + n;
             && bs[i].next + 2 < |h'|
             && h'[a] == h[a] && h'[a + 1] == q && h'[a + 2] == h[a + 2]
             && h'[q] == self && h'[q + 1] == bs[i].next && h'[q + 2] == a
             && (bs[i].next != end ==> h'[bs[i].next + 2] == q)
    ensures LaidHeap(h', self, SplitAt(bs, i, n), end)
  {
    HeapAt(h, self, bs, end, i);
    if i + 1 < |bs| {
      HeapAt(h, self, bs, end, i + 1);
    }
    var mid := Split(bs[i], n);
    assert mid[1..] == [mid[1]];
    assert HeaderIs(h', self, mid[0], LastAddr(bs[..i], 0));
    assert HeaderIs(h', self, mid[1], mid[0].addr);
    ReplaceLaid(h, h', self, bs, end, i, i + 1, mid);
  }

  /** The block carved for a request was not in the list before, and it is large enough. */
  lemma MoveReady(bs: Blocks, end: nat, i: nat, k: nat, m: nat)
    requires Sound(bs, end) && i < |bs| && bs[i].used && k < |bs| && Fits(bs[k], m)
    requires bs[i] in AllocAt(bs, k, m)
    ensures k < |AllocAt(bs, k, m)|
    ensures var y := AllocAt(bs, k, m)[k];
            y !in bs && y.used && y.addr == bs[k].addr && m <= Room(y) && y != bs[i]
            && Find(AllocAt(bs, k, m), bs[i]) != k
  {
    AllocSound(bs, end, k, m);
    var y := AllocAt(bs, k, m)[k];
    if y in bs {
      var j := Find(bs, y);
      ChainDistinct(bs, 0, end, j, k);
    }
    assert bs[i] in bs;
  }

  /** Allocate, copy, free: the words arrive and every other live block comes through. */
  lemma MoveDone(h: seq<int>, h1: seq<int>, h2: seq<int>, bs: Blocks, bs1: Blocks, bs2: Blocks, x: Block, y: Block,
                 count: nat, src: nat, dst: nat)
    requires Keeps(h, h1, bs, bs1) && |h2| == |h| && y !in bs
    requires forall b {:trigger b in bs1} :: b in bs1 && b.used && b != x && b != y ==>
               b in bs2 && SamePayload(h1, h2, b)
    requires x in bs && x.used && x.next <= |h| && count <= Room(x)
    requires src == x.addr + HEADER && Copied(h1, h2, src, dst, count)
    ensures KeepsBut(h, h2, bs, bs2, x)
    ensures Copied(h, h2, src, dst, count)
  {
    forall b | b in bs && b.used && b != x ensures b in bs2 && SamePayload(h, h2, b) {
      assert b in bs1 && b != y;
    }
    PayloadCopied(h, h1, x, count);
  }

  lemma PayloadCopied(h: seq<int>, h': seq<int>, b: Block, count: nat)
    requires SamePayload(h, h', b) && b.next <= |h| && count <= Room(b)
    ensures Copied(h, h', b.addr + HEADER, b.addr + HEADER, count)
  {
  }
}
