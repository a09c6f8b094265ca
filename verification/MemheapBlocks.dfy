/** The block list and the free list of memheap.c, on values. Addresses and sizes count words of RT_ALIGN_SIZE bytes. */
module MemheapBlocks {
  import opened Lists
  import opened HeapBlocks

  /** RT_MEMHEAP_SIZE with RT_USING_MEMTRACE: magic, pool_ptr, four links and the thread name. */
  const ITEM: nat := 7

  /** RT_MEMHEAP_MINIALLOC: 12 bytes. */
  const MINIALLOC: nat := 3

  /** MEMITEM_SIZE */
  function Size(b: Block): int {
    b.next - b.addr - ITEM
  }

  ghost predicate Roomy(bs: Blocks) {
    forall i {:trigger bs[i]} :: 0 <= i < |bs| ==> Size(bs[i]) >= MINIALLOC
  }

  /** The block list of a memheap: a tiling without free neighbours in which no block is below the minimum. */
  ghost predicate Tiled(bs: Blocks, end: nat) {
    Sound(bs, end) && Roomy(bs)
  }

  function FreeSizes(bs: Blocks): int {
    if bs == [] then 0
    else FreeSizes(bs[1..]) + (if bs[0].used then 0 else Size(bs[0]))
  }

  predicate Serves(b: Block, n: nat) {
    !b.used && Size(b) >= n
  }

  ghost predicate NoneServes(bs: Blocks, n: nat) {
    forall i :: 0 <= i < |bs| ==> !Serves(bs[i], n)
  }

  /** Block b cut behind n payload words. */
  function Cut(b: Block, n: nat, next: nat): Blocks {
    [Block(b.addr, b.addr + ITEM + n, true), Block(b.addr + ITEM + n, next, false)]
  }

  predicate IsCut(b: Block, n: nat) {
    Size(b) >= n + ITEM + MINIALLOC
  }

  function CutAt(bs: Blocks, i: nat, n: nat): Blocks
    requires i < |bs|
  {
    Replace(bs, i, i + 1, Cut(bs[i], n, bs[i].next))
  }

  /** rt_memheap_alloc takes block i for n words and leaves a remainder free when it can stand alone. */
  function TakeAt(bs: Blocks, i: nat, n: nat): Blocks
    requires i < |bs|
  {
    if IsCut(bs[i], n) then CutAt(bs, i, n) else Replace(bs, i, i + 1, [bs[i].(used := true)])
  }

  /** rt_memheap_realloc in place: block i gets n words, the rest joins a free block behind it. */
  function ResizeAt(bs: Blocks, i: nat, n: nat): Blocks
    requires i < |bs|
  {
    Replace(bs, i, FreedTo(bs, i), Cut(bs[i], n, bs[FreedTo(bs, i) - 1].next))
  }

  // ---------------------------------------------------------------- which addresses are free

  ghost predicate FreeHere(bs: Blocks, a: nat) {
    exists k :: 0 <= k < |bs| && bs[k].addr == a && !bs[k].used
  }

  /** The free list holds exactly the free blocks. */
  ghost predicate Listed(bs: Blocks, free: seq<nat>) {
    forall a: nat {:trigger FreeHere(bs, a)} :: a in free <==> FreeHere(bs, a)
  }

  lemma FreeHereConcat(a: Blocks, b: Blocks, x: nat)
    ensures FreeHere(a + b, x) <==> FreeHere(a, x) || FreeHere(b, x)
  {
    if FreeHere(a, x) {
      var k :| 0 <= k < |a| && a[k].addr == x && !a[k].used;
      assert (a + b)[k] == a[k];
    }
    if FreeHere(b, x) {
      var k :| 0 <= k < |b| && b[k].addr == x && !b[k].used;
      assert (a + b)[|a| + k] == b[k];
    }
  }

  lemma FreeHereWithin(bs: Blocks, lo: nat, hi: nat, x: nat)
    requires Chain(bs, lo, hi) && FreeHere(bs, x)
    ensures lo <= x < hi
  {
    var k :| 0 <= k < |bs| && bs[k].addr == x && !bs[k].used;
    ChainCut(bs, lo, hi, k);
  }

  /** A replacement changes which addresses are free only inside the stretch. */
  lemma ReplaceFreeHere(bs: Blocks, end: nat, i: nat, j: nat, mid: Blocks, x: nat)
    requires Chain(bs, 0, end) && i < j <= |bs| && Chain(mid, bs[i].addr, bs[j - 1].next)
    ensures FreeHere(Replace(bs, i, j, mid), x) <==>
              if bs[i].addr <= x < bs[j - 1].next then FreeHere(mid, x) else FreeHere(bs, x)
  {
    StretchChain(bs, end, i, j);
    FreeHereParts(bs, end, i, j, mid, x);
    assert bs == Replace(bs, i, j, bs[i..j]);
    FreeHereParts(bs, end, i, j, bs[i..j], x);
  }

  /** Where the free addresses of a list with a new stretch come from. */
  lemma FreeHereParts(bs: Blocks, end: nat, i: nat, j: nat, mid: Blocks, x: nat)
    requires Chain(bs, 0, end) && i < j <= |bs| && Chain(mid, bs[i].addr, bs[j - 1].next)
    ensures FreeHere(Replace(bs, i, j, mid), x) <==>
              if x < bs[i].addr then FreeHere(bs[..i], x)
              else if x < bs[j - 1].next then FreeHere(mid, x)
              else FreeHere(bs[j..], x)
  {
    ChainCut(bs, 0, end, i);
    StretchChain(bs, end, i, j);
    var a, c := bs[..i], bs[j..];
    FreeHereConcat(a + mid, c, x);
    FreeHereConcat(a, mid, x);
    ChainAscends(mid, bs[i].addr, bs[j - 1].next);
    if FreeHere(a, x) { FreeHereWithin(a, 0, bs[i].addr, x); }
    if FreeHere(mid, x) { FreeHereWithin(mid, bs[i].addr, bs[j - 1].next, x); }
    if FreeHere(c, x) { FreeHereWithin(c, bs[j - 1].next, end, x); }
  }

  lemma StretchChain(bs: Blocks, end: nat, i: nat, j: nat)
    requires Chain(bs, 0, end) && i < j <= |bs|
    ensures Chain(bs[i..j], bs[i].addr, bs[j - 1].next)
    ensures Chain(bs[j..], bs[j - 1].next, end)
  {
    ChainCut(bs, 0, end, j - 1);
    ChainCut(bs, 0, end, i);
    ChainCut(bs[i..], bs[i].addr, end, j - i);
    assert bs[i..][..j - i] == bs[i..j];
    if j < |bs| {
      ChainCut(bs, 0, end, j);
    }
  }

  // ---------------------------------------------------------------- sums

  lemma {:induction false} FreeSizesConcat(a: Blocks, b: Blocks)
    ensures FreeSizes(a + b) == FreeSizes(a) + FreeSizes(b)
  {
    if a == [] {
      assert a + b == b;
    } else {
      assert (a + b)[1..] == a[1..] + b;
      FreeSizesConcat(a[1..], b);
    }
  }

  lemma ReplaceFreeSizes(bs: Blocks, i: nat, j: nat, mid: Blocks)
    requires i <= j <= |bs|
    ensures FreeSizes(Replace(bs, i, j, mid)) + FreeSizes(bs[i..j]) == FreeSizes(bs) + FreeSizes(mid)
  {
    hide FreeSizes;
    FreeSizesConcat(bs[..i] + mid, bs[j..]);
    FreeSizesConcat(bs[..i], mid);
    FreeSizesConcat(bs[..i] + bs[i..j], bs[j..]);
    FreeSizesConcat(bs[..i], bs[i..j]);
    assert bs[..i] + bs[i..j] + bs[j..] == bs;
  }

  function FreeSize(b: Block): int {
    if b.used then 0 else Size(b)
  }

  lemma FreeSizesOne(b: Block)
    ensures FreeSizes([b]) == FreeSize(b)
  {
    assert [b][1..] == [];
  }

  lemma FreeSizesTwo(a: Block, b: Block)
    ensures FreeSizes([a, b]) == FreeSize(a) + FreeSize(b)
  {
    FreeSizesOne(b);
    assert [a, b][1..] == [b];
  }

  lemma FreeSizesThree(a: Block, b: Block, c: Block)
    ensures FreeSizes([a, b, c]) == FreeSize(a) + FreeSize(b) + FreeSize(c)
  {
    FreeSizesTwo(b, c);
    assert [a, b, c][1..] == [b, c];
  }

  /** A free block is part of the sum. */
  lemma FreeSizesAtLeast(bs: Blocks, i: nat)
    requires Roomy(bs) && i < |bs| && !bs[i].used
    ensures Size(bs[i]) <= FreeSizes(bs)
    ensures Size(bs[i]) == FreeSizes(bs) <==> forall j :: 0 <= j < |bs| && !bs[j].used ==> j == i
  {
    FreeSizesConcat(bs[..i], bs[i..]);
    assert bs == bs[..i] + bs[i..];
    FreeSizesPositive(bs[..i]);
    FreeSizesPositive(bs[i + 1..]);
    assert bs[i..][1..] == bs[i + 1..];
    if j :| 0 <= j < |bs| && !bs[j].used && j != i {
      if j < i {
        assert bs[..i][j] == bs[j];
      } else {
        assert bs[i + 1..][j - i - 1] == bs[j];
      }
    }
  }

  lemma {:induction false} FreeSizesPositive(bs: Blocks)
    requires Roomy(bs)
    ensures FreeSizes(bs) >= 0
    ensures FreeSizes(bs) == 0 <==> forall j :: 0 <= j < |bs| ==> bs[j].used
  {
    if bs != [] {
      FreeSizesPositive(bs[1..]);
      assert forall j :: 0 <= j < |bs| - 1 ==> bs[1..][j] == bs[j + 1];
      if bs[0].used && FreeSizes(bs) == 0 {
        forall j | 0 <= j < |bs| ensures bs[j].used {
          if j > 0 {
            assert bs[1..][j - 1].used;
          }
        }
      }
    }
  }

  // ---------------------------------------------------------------- the operations keep the invariant

  lemma ReplaceRoomy(bs: Blocks, i: nat, j: nat, mid: Blocks)
    requires i <= j <= |bs| && Roomy(bs) && Roomy(mid)
    ensures Roomy(Replace(bs, i, j, mid))
  {
  }

  lemma CutChain(b: Block, n: nat, next: nat)
    requires b.addr + ITEM + n + ITEM <= next
    ensures Chain(Cut(b, n, next), b.addr, next)
  {
    assert Cut(b, n, next)[1..] == [Cut(b, n, next)[1]];
  }

  /** What an allocation takes from the available size. */
  function Taken(b: Block, n: nat): int {
    if IsCut(b, n) then n + ITEM else Size(b)
  }

  lemma TakeTiled(bs: Blocks, end: nat, i: nat, n: nat)
    requires Tiled(bs, end) && i < |bs| && Serves(bs[i], n) && n >= MINIALLOC
    ensures Tiled(TakeAt(bs, i, n), end)
    ensures FreeSizes(TakeAt(bs, i, n)) == FreeSizes(bs) - Taken(bs[i], n)
    ensures TakeAt(bs, i, n)[i].used && TakeAt(bs, i, n)[i].addr == bs[i].addr
    ensures n <= Size(TakeAt(bs, i, n)[i]) < n + ITEM + MINIALLOC
  {
    var b := bs[i];
    var mid := if IsCut(b, n) then Cut(b, n, b.next) else [b.(used := true)];
    assert TakeAt(bs, i, n) == Replace(bs, i, i + 1, mid);
    ChainCut(bs, 0, end, i);
    TakenSizes(bs, i, n, mid);
    hide FreeSizes, TakeAt;
    if IsCut(b, n) {
      CutChain(b, n, b.next);
    }
    TakenTiled(bs, end, i, mid);
  }

  lemma TakenSizes(bs: Blocks, i: nat, n: nat, mid: Blocks)
    requires i < |bs| && !bs[i].used
    requires mid == if IsCut(bs[i], n) then Cut(bs[i], n, bs[i].next) else [bs[i].(used := true)]
    ensures FreeSizes(Replace(bs, i, i + 1, mid)) == FreeSizes(bs) - Taken(bs[i], n)
  {
    var b := bs[i];
    if IsCut(b, n) {
      FreeSizesTwo(mid[0], mid[1]);
    } else {
      FreeSizesOne(mid[0]);
    }
    assert bs[i..i + 1] == [b];
    FreeSizesOne(b);
    ReplaceFreeSizes(bs, i, i + 1, mid);
  }

  lemma TakenTiled(bs: Blocks, end: nat, i: nat, mid: Blocks)
    requires Tiled(bs, end) && i < |bs| && !bs[i].used
    requires |mid| > 0 && mid[0].used && Roomy(mid) && NoFreePair(mid) && Chain(mid, bs[i].addr, bs[i].next)
    ensures Tiled(Replace(bs, i, i + 1, mid), end)
  {
    ReplaceChain(bs, 0, end, i, i + 1, mid);
    assert i + 1 < |bs| ==> bs[i].used || bs[i + 1].used;
    ReplaceNoFreePair(bs, i, i + 1, mid);
    ReplaceRoomy(bs, i, i + 1, mid);
  }

  /** Block i and the one behind it become one. */
  function JoinAt(bs: Blocks, i: nat): Blocks
    requires i + 1 < |bs|
  {
    Replace(bs, i, i + 2, [Block(bs[i].addr, bs[i + 1].next, bs[i].used)])
  }

  function JoinLeft(bs: Blocks, i: nat): (r: Blocks)
    requires i < |bs|
    ensures FreedFrom(bs, i) < |r|
  {
    if FreedFrom(bs, i) == i then bs else JoinAt(bs, i - 1)
  }

  function JoinRight(bs: Blocks, i: nat): Blocks
    requires i < |bs|
  {
    if FreedTo(bs, i) == i + 1 then bs else JoinAt(bs, i)
  }

  /** What a freed block looks like after the merge to the left. */
  lemma LeftJoined(bs: Blocks, i: nat)
    requires i < |bs|
    ensures FreedFrom(MarkFree(bs, i), i) == FreedFrom(bs, i)
    ensures var j := FreedFrom(bs, i);
            JoinLeft(MarkFree(bs, i), i) == Replace(bs, j, i + 1, [Block(bs[j].addr, bs[i].next, false)])
  {
    var m := MarkFree(bs, i);
    assert m[..i] == bs[..i] && m[i] == bs[i].(used := false) && m[i + 1..] == bs[i + 1..];
    assert i > 0 ==> m[i - 1] == bs[i - 1] && m[..i - 1] == bs[..i - 1];
  }

  /** rt_memheap_free merges to the left first, mem.c to the right first: the result is the same. */
  lemma LeftThenRight(bs: Blocks, i: nat)
    requires i < |bs|
    ensures FreedFrom(MarkFree(bs, i), i) == FreedFrom(bs, i)
    ensures JoinRight(JoinLeft(MarkFree(bs, i), i), FreedFrom(bs, i)) == FreeAt(bs, i)
    ensures FreedTo(JoinLeft(MarkFree(bs, i), i), FreedFrom(bs, i)) - FreedFrom(bs, i) == FreedTo(bs, i) - i
    ensures FreedTo(bs, i) == i + 2 ==> JoinLeft(MarkFree(bs, i), i)[FreedFrom(bs, i) + 1] == bs[i + 1]
  {
    LeftJoined(bs, i);
    FreeAtMerges(bs, i);
    var j, l := FreedFrom(bs, i), JoinLeft(MarkFree(bs, i), i);
    RightJoined(bs, i, j, l);
  }

  /** The merge to the right, once blocks j up to i have become one. */
  lemma RightJoined(bs: Blocks, i: nat, j: nat, l: Blocks)
    requires j <= i < |bs| && l == Replace(bs, j, i + 1, [Block(bs[j].addr, bs[i].next, false)])
    ensures j < |l| && FreedTo(l, j) - j == FreedTo(bs, i) - i
    ensures FreedTo(bs, i) == i + 2 ==> j + 1 < |l| && l[j + 1] == bs[i + 1]
    ensures var k := FreedTo(bs, i);
            JoinRight(l, j) == Replace(bs, j, k, [Block(bs[j].addr, bs[k - 1].next, false)])
  {
    assert l[..j] == bs[..j] && l[j] == Block(bs[j].addr, bs[i].next, false) && l[j + 1..] == bs[i + 1..];
    if i + 1 < |bs| {
      assert l[j + 1] == bs[i + 1] && l[j + 2..] == bs[i + 2..];
    }
  }

  /** Growing joins the free neighbour and cuts the union. */
  lemma JoinThenCut(bs: Blocks, i: nat, n: nat)
    requires i < |bs| && bs[i].used && FreedTo(bs, i) == i + 2
    ensures CutAt(JoinAt(bs, i), i, n) == ResizeAt(bs, i, n)
    ensures JoinAt(bs, i)[i] == Block(bs[i].addr, bs[i + 1].next, true)
  {
    var m := JoinAt(bs, i);
    assert m[..i] == bs[..i] && m[i] == Block(bs[i].addr, bs[i + 1].next, true) && m[i + 1..] == bs[i + 2..];
  }

  /** Shrinking cuts the block and joins the rest with a free neighbour. */
  lemma CutThenJoin(bs: Blocks, i: nat, n: nat)
    requires i < |bs|
    ensures i + 1 < |CutAt(bs, i, n)|
    ensures JoinRight(CutAt(bs, i, n), i + 1) == ResizeAt(bs, i, n)
    ensures FreedTo(CutAt(bs, i, n), i + 1) == FreedTo(bs, i) + 1
    ensures CutAt(bs, i, n)[i + 1] == Cut(bs[i], n, bs[i].next)[1]
    ensures FreedTo(bs, i) == i + 2 ==> CutAt(bs, i, n)[i + 2] == bs[i + 1]
    ensures CutAt(bs, i, n)[FreedTo(bs, i)].next == bs[FreedTo(bs, i) - 1].next
  {
    var c := CutAt(bs, i, n);
    var mid := Cut(bs[i], n, bs[i].next);
    assert c[..i + 1] == bs[..i] + [mid[0]] && c[i + 1] == mid[1] && c[i + 2..] == bs[i + 1..];
    if i + 1 < |bs| {
      assert c[i + 2] == bs[i + 1] && c[i + 3..] == bs[i + 2..];
    }
  }

  lemma TakeMembers(bs: Blocks, i: nat, n: nat)
    requires i < |bs| && !bs[i].used
    ensures UsedChange(bs, TakeAt(bs, i, n), {}, {TakeAt(bs, i, n)[i]})
  {
    var mid := if IsCut(bs[i], n) then Cut(bs[i], n, bs[i].next) else [bs[i].(used := true)];
    ReplaceMembers(bs, i, i + 1, mid);
    assert bs[i..i + 1] == [bs[i]];
    assert forall x :: x in mid && x.used <==> x == mid[0];
  }

  lemma ResizeMembers(bs: Blocks, end: nat, i: nat, n: nat)
    requires Tiled(bs, end) && i < |bs| && bs[i].used
    ensures i < |ResizeAt(bs, i, n)| && UsedChange(bs, ResizeAt(bs, i, n), {bs[i]}, {ResizeAt(bs, i, n)[i]})
  {
    var k := FreedTo(bs, i);
    var b := bs[i];
    var mid := Cut(b, n, bs[k - 1].next);
    ReplaceMembers(bs, i, k, mid);
    forall x: Block | x.used ensures x in ResizeAt(bs, i, n) <==> (x in bs && x != b) || x == mid[0] {
      if x in bs[i..k] {
        assert x == b;
      }
      if x == b && (x in bs[..i] || x in bs[k..]) {
        var l :| 0 <= l < |bs| && l != i && bs[l] == b;
        ChainDistinct(bs, 0, end, l, i);
        assert false;
      }
    }
  }

  /** The words two merged headers give back. */
  function Gained(bs: Blocks, i: nat): int
    requires i < |bs|
  {
    ITEM * (FreedTo(bs, i) - FreedFrom(bs, i) - 1)
  }

  lemma FreeTiled(bs: Blocks, end: nat, i: nat)
    requires Tiled(bs, end) && i < |bs| && bs[i].used
    ensures Tiled(FreeAt(bs, i), end)
  {
    FreeSound(bs, end, i);
    FreeAtMerges(bs, i);
    var j, k := FreedFrom(bs, i), FreedTo(bs, i);
    ChainBefore(bs, end, j, i);
    ChainBefore(bs, end, i, k - 1);
    ChainCut(bs, 0, end, k - 1);
    ReplaceRoomy(bs, j, k, [Block(bs[j].addr, bs[k - 1].next, false)]);
  }

  lemma FreeSizesFreed(bs: Blocks, end: nat, i: nat)
    requires Tiled(bs, end) && i < |bs| && bs[i].used
    ensures FreeSizes(FreeAt(bs, i)) == FreeSizes(bs) + Size(bs[i]) + Gained(bs, i)
  {
    hide FreeAt, FreeSizes, Tiled, Replace;
    FreeAtMerges(bs, i);
    var j, k := FreedFrom(bs, i), FreedTo(bs, i);
    var m := Block(bs[j].addr, bs[k - 1].next, false);
    MergedSizes(bs, end, i);
    ReplaceFreeSizes(bs, j, k, [m]);
    FreeSizesOne(m);
  }

  /** The stretch that a free merges: its words are the sum of its blocks, headers included. */
  lemma MergedSizes(bs: Blocks, end: nat, i: nat)
    requires Tiled(bs, end) && i < |bs| && bs[i].used
    ensures var j, k := FreedFrom(bs, i), FreedTo(bs, i);
            bs[k - 1].next - bs[j].addr - ITEM == FreeSizes(bs[j..k]) + Size(bs[i]) + Gained(bs, i)
  {
    var j, k := FreedFrom(bs, i), FreedTo(bs, i);
    ChainCut(bs, 0, end, i);
    if i > 0 {
      ChainCut(bs, 0, end, i - 1);
    }
    hide Tiled, FreeSizes;
    Stretch(bs, j);
    if k == j + 1 {
      FreeSizesOne(bs[i]);
    } else if k == j + 2 {
      FreeSizesTwo(bs[j], bs[j + 1]);
    } else {
      FreeSizesThree(bs[j], bs[j + 1], bs[j + 2]);
    }
  }

  /** Up to three blocks in a row. */
  lemma Stretch(bs: Blocks, j: nat)
    ensures j + 1 <= |bs| ==> bs[j..j + 1] == [bs[j]]
    ensures j + 2 <= |bs| ==> bs[j..j + 2] == [bs[j], bs[j + 1]]
    ensures j + 3 <= |bs| ==> bs[j..j + 3] == [bs[j], bs[j + 1], bs[j + 2]]
  {
  }

  /** The condition for a change of size in place: the rest must be able to stand as a free block. */
  predicate Resizable(bs: Blocks, i: nat, n: nat)
    requires i < |bs|
  {
    bs[i].addr + ITEM + n + ITEM + MINIALLOC <= bs[FreedTo(bs, i) - 1].next
  }

  lemma ResizeTiled(bs: Blocks, end: nat, i: nat, n: nat)
    requires Tiled(bs, end) && i < |bs| && bs[i].used && n >= MINIALLOC && Resizable(bs, i, n)
    ensures Tiled(ResizeAt(bs, i, n), end)
    ensures FreeSizes(ResizeAt(bs, i, n))
            == FreeSizes(bs) + Size(bs[i]) - n - (if FreedTo(bs, i) == i + 1 then ITEM else 0)
    ensures i < |ResizeAt(bs, i, n)| && ResizeAt(bs, i, n)[i] == Block(bs[i].addr, bs[i].addr + ITEM + n, true)
  {
    var b, k := bs[i], FreedTo(bs, i);
    var mid := Cut(b, n, bs[k - 1].next);
    ChainCut(bs, 0, end, i);
    CutChain(b, n, bs[k - 1].next);
    ReplaceChain(bs, 0, end, i, k, mid);
    assert i + 2 < |bs| ==> bs[i + 1].used || bs[i + 2].used;
    ReplaceNoFreePair(bs, i, k, mid);
    ReplaceRoomy(bs, i, k, mid);
    ReplaceFreeSizes(bs, i, k, mid);
    FreeSizesTwo(mid[0], mid[1]);
    if k == i + 1 {
      assert bs[i..k] == [b];
      FreeSizesOne(b);
    } else {
      assert bs[i..k] == [b, bs[i + 1]];
      FreeSizesTwo(b, bs[i + 1]);
    }
  }

  // ---------------------------------------------------------------- the free list follows

  function PushIf(c: bool, a: nat, free: seq<nat>): seq<nat> {
    if c then [a] + free else free
  }

  /** The free list after an allocation: the block goes, a remainder comes to the front. */
  function TakenList(bs: Blocks, i: nat, n: nat, free: seq<nat>): seq<nat>
    requires i < |bs|
  {
    PushIf(IsCut(bs[i], n), bs[i].addr + ITEM + n, Remove(free, bs[i].addr))
  }

  /** A free block behind block i leaves the list before it is merged. */
  function WithoutNext(bs: Blocks, i: nat, free: seq<nat>): seq<nat>
    requires i < |bs|
  {
    if FreedTo(bs, i) == i + 2 then Remove(free, bs[i + 1].addr) else free
  }

  lemma WithoutNextCut(bs: Blocks, i: nat, n: nat, free: seq<nat>)
    requires i < |bs|
    ensures i + 1 < |CutAt(bs, i, n)| && WithoutNext(CutAt(bs, i, n), i + 1, free) == WithoutNext(bs, i, free)
  {
    CutThenJoin(bs, i, n);
  }

  /** The free list after a free: a block not merged to the left comes to the front. */
  function FreedList(bs: Blocks, i: nat, free: seq<nat>): seq<nat>
    requires i < |bs|
  {
    PushIf(FreedFrom(bs, i) == i, bs[i].addr, WithoutNext(bs, i, free))
  }

  function ResizedList(bs: Blocks, i: nat, n: nat, free: seq<nat>): seq<nat>
    requires i < |bs|
  {
    [bs[i].addr + ITEM + n] + WithoutNext(bs, i, free)
  }

  lemma FreeHereInside(bs: Blocks, end: nat, i: nat, x: nat)
    requires Chain(bs, 0, end) && i < |bs| && bs[i].addr <= x < bs[i].next
    ensures FreeHere(bs, x) <==> x == bs[i].addr && !bs[i].used
  {
    if FreeHere(bs, x) {
      var k :| 0 <= k < |bs| && bs[k].addr == x && !bs[k].used;
      ChainCut(bs, 0, end, k);
      if k < i {
        ChainBefore(bs, end, k, i);
      } else if i < k {
        ChainBefore(bs, end, i, k);
      }
    }
  }

  lemma TakenListed(bs: Blocks, end: nat, i: nat, n: nat, free: seq<nat>)
    requires Tiled(bs, end) && i < |bs| && Serves(bs[i], n) && Listed(bs, free)
    ensures Listed(TakeAt(bs, i, n), TakenList(bs, i, n, free))
    ensures IsCut(bs[i], n) ==> bs[i].addr + ITEM + n !in free
    ensures bs[i].addr in free
  {
    hide NoFreePair, FreeSizes;
    var b := bs[i];
    ChainCut(bs, 0, end, i);
    FreeHereInside(bs, end, i, b.addr);
    if IsCut(b, n) {
      FreeHereInside(bs, end, i, b.addr + ITEM + n);
    }
    forall x: nat ensures x in TakenList(bs, i, n, free) <==> FreeHere(TakeAt(bs, i, n), x) {
      TakenFree(bs, end, i, n, x);
      assert FreeHere(bs, x) <==> x in free;
    }
  }

  /** Where the free addresses are after an allocation. */
  lemma TakenFree(bs: Blocks, end: nat, i: nat, n: nat, x: nat)
    requires Chain(bs, 0, end) && i < |bs| && Serves(bs[i], n)
    ensures FreeHere(TakeAt(bs, i, n), x) <==>
              (IsCut(bs[i], n) && x == bs[i].addr + ITEM + n) || (FreeHere(bs, x) && x != bs[i].addr)
  {
    var b := bs[i];
    var mid := if IsCut(b, n) then Cut(b, n, b.next) else [b.(used := true)];
    ChainCut(bs, 0, end, i);
    if IsCut(b, n) {
      CutChain(b, n, b.next);
    }
    ReplaceFreeHere(bs, end, i, i + 1, mid, x);
    if b.addr <= x < b.next {
      FreeHereInside(bs, end, i, x);
      assert FreeHere(mid, x) <==> IsCut(b, n) && x == b.addr + ITEM + n by {
        if IsCut(b, n) && x == b.addr + ITEM + n {
          assert mid[1].addr == x && !mid[1].used;
        }
      }
    }
  }

  /** Without the free block behind block i, the list holds what is free outside blocks i and i + 1. */
  lemma WithoutNextHolds(bs: Blocks, end: nat, i: nat, free: seq<nat>, x: nat)
    requires Chain(bs, 0, end) && i < |bs| && bs[i].used && Listed(bs, free)
    ensures x in WithoutNext(bs, i, free) <==>
              FreeHere(bs, x) && !(bs[i].addr <= x < bs[FreedTo(bs, i) - 1].next)
    ensures FreedTo(bs, i) == i + 2 ==> bs[i + 1].addr in free
  {
    assert x in free <==> FreeHere(bs, x);
    ChainCut(bs, 0, end, i);
    if bs[i].addr <= x < bs[i].next {
      FreeHereInside(bs, end, i, x);
    }
    if i + 1 < |bs| {
      ChainCut(bs, 0, end, i + 1);
      FreeHereInside(bs, end, i + 1, bs[i + 1].addr);
      assert bs[i + 1].addr in free <==> FreeHere(bs, bs[i + 1].addr);
      if bs[i + 1].addr <= x < bs[i + 1].next {
        FreeHereInside(bs, end, i + 1, x);
      }
    }
  }

  lemma ResizedListed(bs: Blocks, end: nat, i: nat, n: nat, free: seq<nat>)
    requires Tiled(bs, end) && i < |bs| && bs[i].used && Listed(bs, free) && Resizable(bs, i, n)
    ensures Listed(ResizeAt(bs, i, n), ResizedList(bs, i, n, free))
    ensures bs[i].addr + ITEM + n !in WithoutNext(bs, i, free)
  {
    var b, k := bs[i], FreedTo(bs, i);
    var q := b.addr + ITEM + n;
    var mid := Cut(b, n, bs[k - 1].next);
    CutChain(b, n, bs[k - 1].next);
    WithoutNextHolds(bs, end, i, free, q);
    forall x: nat ensures x in ResizedList(bs, i, n, free) <==> FreeHere(ResizeAt(bs, i, n), x) {
      ReplaceFreeHere(bs, end, i, k, mid, x);
      WithoutNextHolds(bs, end, i, free, x);
      assert mid[1].addr == q && !mid[1].used && mid[0].used;
      assert FreeHere(mid, x) <==> x == q;
    }
  }

  lemma FreedListed(bs: Blocks, end: nat, i: nat, free: seq<nat>)
    requires Tiled(bs, end) && i < |bs| && bs[i].used && Listed(bs, free)
    ensures Listed(FreeAt(bs, i), FreedList(bs, i, free))
    ensures bs[i].addr !in WithoutNext(bs, i, free)
  {
    ChainCut(bs, 0, end, i);
    WithoutNextHolds(bs, end, i, free, bs[i].addr);
    hide FreeAt, FreeHere, Chain, Roomy, Size;
    forall x: nat ensures x in FreedList(bs, i, free) <==> FreeHere(FreeAt(bs, i), x) {
      FreedHolds(bs, end, i, free, x);
    }
  }

  lemma FreedHolds(bs: Blocks, end: nat, i: nat, free: seq<nat>, x: nat)
    requires Tiled(bs, end) && i < |bs| && bs[i].used && Listed(bs, free)
    ensures x in FreedList(bs, i, free) <==> FreeHere(FreeAt(bs, i), x)
  {
    hide FreeAt, FreeHere, Roomy, FreeSizes, Listed;
    var j := FreedFrom(bs, i);
    ChainCut(bs, 0, end, i);
    FreedHere(bs, end, i, x);
    WithoutNextHolds(bs, end, i, free, x);
    if j < i {
      ChainCut(bs, 0, end, j);
      if bs[j].addr <= x < bs[j].next {
        FreeHereInside(bs, end, j, x);
      }
    }
  }

  /** After a free the stretch that was merged holds one free block. */
  lemma FreedHere(bs: Blocks, end: nat, i: nat, x: nat)
    requires Tiled(bs, end) && i < |bs| && bs[i].used
    ensures FreeHere(FreeAt(bs, i), x) <==>
              if bs[FreedFrom(bs, i)].addr <= x < bs[FreedTo(bs, i) - 1].next then x == bs[FreedFrom(bs, i)].addr
              else FreeHere(bs, x)
  {
    var j, k := FreedFrom(bs, i), FreedTo(bs, i);
    var m := Block(bs[j].addr, bs[k - 1].next, false);
    FreeAtMerges(bs, i);
    FreedRoom(bs, end, i);
    hide FreeAt, FreeSizes, FreedFrom, FreedTo;
    ReplaceFreeHere(bs, end, j, k, [m], x);
    assert FreeHere([m], x) <==> x == m.addr by {
      assert [m][0] == m;
    }
  }

  // ---------------------------------------------------------------- what a caller may rely on

  /** Freeing a block that was just taken restores the block list, whether or not it was cut. */
  lemma TakeThenFree(bs: Blocks, end: nat, i: nat, n: nat)
    requires Tiled(bs, end) && i < |bs| && Serves(bs[i], n)
    ensures i < |TakeAt(bs, i, n)| && FreeAt(TakeAt(bs, i, n), i) == bs
  {
    hide FreeAt, Chain, Roomy, FreeSizes;
    var a := TakeAt(bs, i, n);
    FreeAtMerges(a, i);
    var mid := if IsCut(bs[i], n) then Cut(bs[i], n, bs[i].next) else [bs[i].(used := true)];
    assert i > 0 ==> bs[i - 1].used;
    assert bs[i].used || i + 1 == |bs| || bs[i + 1].used;
    assert a[..i] == bs[..i];
    assert a[i..i + |mid|] == mid && a[i + |mid|..] == bs[i + 1..];
    assert i + |mid| < |a| ==> a[i + |mid|] == bs[i + 1];
    assert a[i] == mid[0] && (|mid| == 2 ==> a[i + 1] == mid[1]);
    assert i > 0 ==> a[i - 1] == bs[i - 1];
    assert FreedFrom(a, i) == i && FreedTo(a, i) == i + |mid|;
    assert bs == bs[..i] + [bs[i]] + bs[i + 1..];
  }

  /**
   * The strict test of rt_memheap_alloc against the available size turns away a request that some block could
   * serve exactly when one free block is left and the request needs all of it.
   */
  lemma StrictTestRefuses(bs: Blocks, end: nat, n: nat)
    requires Tiled(bs, end)
    ensures n >= FreeSizes(bs) && !NoneServes(bs, n) <==>
              exists i :: 0 <= i < |bs| && !bs[i].used && Size(bs[i]) == n
                          && forall j :: 0 <= j < |bs| && !bs[j].used ==> j == i
  {
    if n >= FreeSizes(bs) && !NoneServes(bs, n) {
      var i :| 0 <= i < |bs| && Serves(bs[i], n);
      FreeSizesAtLeast(bs, i);
    }
    if i :| 0 <= i < |bs| && !bs[i].used && Size(bs[i]) == n && forall j :: 0 <= j < |bs| && !bs[j].used ==> j == i {
      FreeSizesAtLeast(bs, i);
      assert Serves(bs[i], n);
    }
  }

  /** A pool that is one free block of the least size: a request for exactly this size is turned away. */
  lemma StrictTestRefusesOne()
    ensures var bs := [Block(0, ITEM + MINIALLOC, false)];
            Tiled(bs, ITEM + MINIALLOC) && MINIALLOC >= FreeSizes(bs) && Serves(bs[0], MINIALLOC)
            && !NoneServes(bs, MINIALLOC)
  {
    var bs := [Block(0, ITEM + MINIALLOC, false)];
    FreeSizesOne(bs[0]);
    assert bs[1..] == [] && Chain(bs[1..], ITEM + MINIALLOC, ITEM + MINIALLOC);
    assert Serves(bs[0], MINIALLOC);
  }

  /** A header never lies in the payload of a block, so relinking leaves every live payload alone. */
  lemma HeadersMissPayloads(bs: Blocks, end: nat, i: nat, j: nat)
    requires Chain(bs, 0, end) && Roomy(bs) && i < |bs| && j < |bs|
    ensures bs[i].addr + ITEM <= bs[j].addr + ITEM || bs[j].next <= bs[i].addr
    ensures bs[i].addr + ITEM <= bs[i].next && bs[i].next <= end
  {
    ChainCut(bs, 0, end, i);
    if j < i {
      ChainBefore(bs, end, j, i);
    } else if i < j {
      ChainBefore(bs, end, i, j);
    }
  }
}
