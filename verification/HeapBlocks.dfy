/**
 * The block list of the small-memory heap (mem.c), on values: what allocating, freeing and shrinking do to
 * a heap seen as a row of used and free blocks. Addresses and sizes count words of RT_ALIGN_SIZE bytes.
 */
module HeapBlocks {
  import opened Lists

  /** SIZEOF_STRUCT_MEM with RT_USING_MEMTRACE: pool_ptr, next, prev and the thread name. */
  const HEADER: nat := 4

  /** MIN_SIZE_ALIGNED: 12 bytes. */
  const MIN_SIZE: nat := 3

  /** A header at addr; the block reaches up to the next header. */
  datatype Block = Block(addr: nat, next: nat, used: bool)

  type Blocks = seq<Block>

  /** The blocks cover [lo, hi) without a gap or an overlap, each with room for its header. */
  ghost predicate Chain(bs: Blocks, lo: nat, hi: nat) {
    if bs == [] then lo == hi
    else bs[0].addr == lo && lo + HEADER <= bs[0].next && Chain(bs[1..], bs[0].next, hi)
  }

  /** Two free neighbours are always merged. */
  ghost predicate NoFreePair(bs: Blocks) {
    forall i {:trigger bs[i].used} :: 0 <= i < |bs| - 1 ==> bs[i].used || bs[i + 1].used
  }

  lemma {:induction false} ChainAscends(bs: Blocks, lo: nat, hi: nat)
    requires Chain(bs, lo, hi)
    ensures lo <= hi && (bs != [] ==> lo + HEADER <= hi)
  {
    if bs != [] {
      ChainAscends(bs[1..], bs[0].next, hi);
    }
  }

  lemma {:induction false} ChainConcat(a: Blocks, b: Blocks, lo: nat, mid: nat, hi: nat)
    requires Chain(a, lo, mid) && Chain(b, mid, hi)
    ensures Chain(a + b, lo, hi)
  {
    if a == [] {
      assert a + b == b;
    } else {
      assert (a + b)[1..] == a[1..] + b;
      ChainConcat(a[1..], b, a[0].next, mid, hi);
    }
  }

  /** Where a chain can be cut: at the address of block i. */
  lemma {:induction false} ChainCut(bs: Blocks, lo: nat, hi: nat, i: nat)
    requires Chain(bs, lo, hi) && i <= |bs|
    ensures var at := if i < |bs| then bs[i].addr else hi;
            Chain(bs[..i], lo, at) && Chain(bs[i..], at, hi) && lo <= at <= hi
    ensures i < |bs| ==> Chain(bs[i + 1..], bs[i].next, hi) && bs[i].addr + HEADER <= bs[i].next <= hi
    ensures i + 1 < |bs| ==> bs[i + 1].addr == bs[i].next && bs[i].next + HEADER <= bs[i + 1].next <= hi
  {
    ChainAscends(bs, lo, hi);
    if i > 0 {
      ChainCut(bs[1..], bs[0].next, hi, i - 1);
      assert bs[..i][1..] == bs[1..][..i - 1];
      assert bs[1..][i - 1..] == bs[i..];
      assert i < |bs| ==> bs[1..][i..] == bs[i + 1..];
    } else if bs != [] {
      ChainAscends(bs[1..], bs[0].next, hi);
      if |bs| > 1 {
        ChainAscends(bs[1..][1..], bs[1].next, hi);
      }
    }
  }

  /** An earlier block ends before a later one starts. */
  lemma ChainBefore(bs: Blocks, end: nat, i: nat, j: nat)
    requires Chain(bs, 0, end) && i <= j < |bs|
    ensures bs[i].addr <= bs[j].addr && bs[j].next <= end
    ensures i < j ==> bs[i].next <= bs[j].addr
  {
    ChainCut(bs, 0, end, j);
    if i < j {
      ChainCut(bs, 0, end, i);
      ChainCut(bs[i + 1..], bs[i].next, end, j - i - 1);
    }
  }

  /** Blocks are told apart by their address. */
  lemma ChainDistinct(bs: Blocks, lo: nat, hi: nat, i: nat, j: nat)
    requires Chain(bs, lo, hi) && i < |bs| && j < |bs| && bs[i].addr == bs[j].addr
    ensures i == j
  {
    var k, l := if i < j then i else j, if i < j then j else i;
    if k < l {
      ChainCut(bs, lo, hi, k);
      ChainCut(bs[k + 1..], bs[k].next, hi, l - k - 1);
    }
  }

  /** The words taken up by used blocks, headers included. */
  function UsedWords(bs: Blocks): int {
    if bs == [] then 0
    else UsedWords(bs[1..]) + (if bs[0].used then bs[0].next - bs[0].addr else 0)
  }

  lemma {:induction false} UsedWordsConcat(a: Blocks, b: Blocks)
    ensures UsedWords(a + b) == UsedWords(a) + UsedWords(b)
  {
    if a == [] {
      assert a + b == b;
    } else {
      assert (a + b)[1..] == a[1..] + b;
      UsedWordsConcat(a[1..], b);
    }
  }

  /** Address of the lowest free block, or end when there is none. */
  function LowestFree(bs: Blocks, end: nat): nat {
    if bs == [] then end else if !bs[0].used then bs[0].addr else LowestFree(bs[1..], end)
  }

  lemma {:induction false} LowestFreeIs(bs: Blocks, end: nat, i: nat)
    requires i <= |bs| && forall j :: 0 <= j < i ==> bs[j].used
    requires i < |bs| ==> !bs[i].used
    ensures LowestFree(bs, end) == if i < |bs| then bs[i].addr else end
    decreases |bs|
  {
    if i > 0 {
      LowestFreeIs(bs[1..], end, i - 1);
    }
  }

  // ---------------------------------------------------------------- replacing a stretch of blocks

  /** Blocks i up to j give way to mid. */
  function Replace(bs: Blocks, i: nat, j: nat, mid: Blocks): Blocks
    requires i <= j <= |bs|
  {
    bs[..i] + mid + bs[j..]
  }

  lemma ReplaceChain(bs: Blocks, lo: nat, hi: nat, i: nat, j: nat, mid: Blocks)
    requires Chain(bs, lo, hi) && i < j <= |bs| && Chain(mid, bs[i].addr, bs[j - 1].next)
    ensures Chain(Replace(bs, i, j, mid), lo, hi)
  {
    ChainCut(bs, lo, hi, i);
    ChainCut(bs, lo, hi, j - 1);
    ChainConcat(bs[..i], mid, lo, bs[i].addr, bs[j - 1].next);
    ChainConcat(bs[..i] + mid, bs[j..], lo, bs[j - 1].next, hi);
  }

  lemma ReplaceUsedWords(bs: Blocks, i: nat, j: nat, mid: Blocks)
    requires i <= j <= |bs|
    ensures UsedWords(Replace(bs, i, j, mid)) + UsedWords(bs[i..j]) == UsedWords(bs) + UsedWords(mid)
  {
    UsedWordsConcat(bs[..i] + mid, bs[j..]);
    UsedWordsConcat(bs[..i], mid);
    UsedWordsConcat(bs[..i] + bs[i..j], bs[j..]);
    UsedWordsConcat(bs[..i], bs[i..j]);
    assert bs[..i] + bs[i..j] + bs[j..] == bs;
  }

  lemma ReplaceNoFreePair(bs: Blocks, i: nat, j: nat, mid: Blocks)
    requires i < j <= |bs| && |mid| > 0 && NoFreePair(mid)
    requires NoFreePair(bs[..i]) && NoFreePair(bs[j..])
    requires i > 0 ==> bs[i - 1].used || mid[0].used
    requires j < |bs| ==> bs[j].used || mid[|mid| - 1].used
    ensures NoFreePair(Replace(bs, i, j, mid))
  {
    NoFreePairConcat(bs[..i], mid);
    NoFreePairConcat(bs[..i] + mid, bs[j..]);
  }

  lemma NoFreePairConcat(a: Blocks, b: Blocks)
    requires NoFreePair(a) && NoFreePair(b)
    requires a != [] && b != [] ==> a[|a| - 1].used || b[0].used
    ensures NoFreePair(a + b)
  {
    forall k | 0 <= k < |a + b| - 1 ensures (a + b)[k].used || (a + b)[k + 1].used {
      if k < |a| - 1 {
        assert a[k].used || a[k + 1].used;
      } else if k >= |a| {
        assert b[k - |a|].used || b[k - |a| + 1].used;
      }
    }
  }

  /** Which blocks are in the list after a replacement. */
  lemma ReplaceMembers(bs: Blocks, i: nat, j: nat, mid: Blocks)
    requires i <= j <= |bs|
    ensures forall x :: x in Replace(bs, i, j, mid) <==> x in bs[..i] || x in mid || x in bs[j..]
    ensures forall x :: x in bs <==> x in bs[..i] || x in bs[i..j] || x in bs[j..]
  {
    assert bs == bs[..i] + bs[i..j] + bs[j..];
  }

  // ---------------------------------------------------------------- the operations

  /** Payload words of a block. */
  function Room(b: Block): int {
    b.next - b.addr - HEADER
  }

  predicate Fits(b: Block, n: nat) {
    !b.used && Room(b) >= n
  }

  ghost predicate IsFirstFit(bs: Blocks, i: nat, n: nat) {
    i < |bs| && Fits(bs[i], n) && forall j :: 0 <= j < i ==> !Fits(bs[j], n)
  }

  ghost predicate NoFit(bs: Blocks, n: nat) {
    forall j :: 0 <= j < |bs| ==> !Fits(bs[j], n)
  }

  /** Block b split behind n payload words. */
  function Split(b: Block, n: nat): Blocks {
    [Block(b.addr, b.addr + HEADER + n, true), Block(b.addr + HEADER + n, b.next, false)]
  }

  /** What becomes of a free block that serves a request: a remainder of MIN_SIZE words or more stays free. */
  function Carved(b: Block, n: nat): Blocks {
    if Room(b) >= n + HEADER + MIN_SIZE then Split(b, n) else [Block(b.addr, b.next, true)]
  }

  function AllocAt(bs: Blocks, i: nat, n: nat): Blocks
    requires i < |bs|
  {
    Replace(bs, i, i + 1, Carved(bs[i], n))
  }

  /** plug_holes, forward half: block i swallows a free block behind it. */
  function PlugForward(bs: Blocks, i: nat): (r: Blocks)
    requires i < |bs|
    ensures i < |r|
  {
    if i + 1 < |bs| && !bs[i + 1].used
    then Replace(bs, i, i + 2, [Block(bs[i].addr, bs[i + 1].next, bs[i].used)])
    else bs
  }

  /** plug_holes, backward half: a free block in front of block i swallows it. */
  function PlugBackward(bs: Blocks, i: nat): Blocks
    requires i < |bs|
  {
    if i > 0 && !bs[i - 1].used
    then Replace(bs, i - 1, i + 1, [Block(bs[i - 1].addr, bs[i].next, false)])
    else bs
  }

  function PlugHoles(bs: Blocks, i: nat): Blocks
    requires i < |bs|
  {
    PlugBackward(PlugForward(bs, i), i)
  }

  function MarkFree(bs: Blocks, i: nat): Blocks
    requires i < |bs|
  {
    Replace(bs, i, i + 1, [bs[i].(used := false)])
  }

  function FreeAt(bs: Blocks, i: nat): Blocks
    requires i < |bs|
  {
    PlugHoles(MarkFree(bs, i), i)
  }

  function SplitAt(bs: Blocks, i: nat, n: nat): Blocks
    requires i < |bs|
  {
    Replace(bs, i, i + 1, Split(bs[i], n))
  }

  /** The in-place branch of realloc: used block i keeps n words and the tail is freed. */
  function ShrinkAt(bs: Blocks, i: nat, n: nat): Blocks
    requires i < |bs|
  {
    PlugHoles(SplitAt(bs, i, n), i + 1)
  }

  // ---------------------------------------------------------------- the invariant of the block list

  ghost predicate Sound(bs: Blocks, end: nat) {
    bs != [] && Chain(bs, 0, end) && NoFreePair(bs)
  }

  /** The used blocks are those of bs without those in gone and with those in extra. */
  ghost predicate UsedChange(bs: Blocks, bs': Blocks, gone: set<Block>, extra: set<Block>) {
    forall b: Block :: b.used ==> (b in bs' <==> (b in bs && b !in gone) || b in extra)
  }

  lemma AllocSound(bs: Blocks, end: nat, i: nat, n: nat)
    requires Sound(bs, end) && i < |bs| && Fits(bs[i], n)
    ensures Sound(AllocAt(bs, i, n), end)
    ensures var bs' := AllocAt(bs, i, n);
            && bs'[i].used && bs'[i].addr == bs[i].addr && n <= Room(bs'[i]) < n + HEADER + MIN_SIZE
            && UsedWords(bs') == UsedWords(bs) + (bs'[i].next - bs'[i].addr)
  {
    var b := bs[i];
    var mid := Carved(b, n);
    ChainCut(bs, 0, end, i);
    assert Chain(mid, b.addr, b.next) by {
      assert |mid| == 2 ==> mid[1..] == [mid[1]];
    }
    ReplaceChain(bs, 0, end, i, i + 1, mid);
    ReplaceUsedWords(bs, i, i + 1, mid);
    assert bs[i..i + 1] == [b];
    assert UsedWords(mid) == mid[0].next - mid[0].addr by {
      assert |mid| == 2 ==> mid[1..] == [mid[1]];
    }
    assert i + 1 < |bs| ==> b.used || bs[i + 1].used;
    ReplaceNoFreePair(bs, i, i + 1, mid);
  }

  lemma AllocMembers(bs: Blocks, i: nat, n: nat)
    requires i < |bs| && !bs[i].used
    ensures UsedChange(bs, AllocAt(bs, i, n), {}, {AllocAt(bs, i, n)[i]})
  {
    var mid := Carved(bs[i], n);
    ReplaceMembers(bs, i, i + 1, mid);
    assert bs[i..i + 1] == [bs[i]];
    assert forall x :: x in mid && x.used <==> x == mid[0];
  }

  /** Freed block i together with its free neighbours, as one stretch [first, last). */
  function FreedFrom(bs: Blocks, i: nat): nat
    requires i < |bs|
  {
    if i > 0 && !bs[i - 1].used then i - 1 else i
  }

  function FreedTo(bs: Blocks, i: nat): nat
    requires i < |bs|
  {
    if i + 1 < |bs| && !bs[i + 1].used then i + 2 else i + 1
  }

  /** Merging forward and then backward turns the whole stretch into one free block. */
  lemma FreeAtMerges(bs: Blocks, i: nat)
    requires i < |bs|
    ensures var j, k := FreedFrom(bs, i), FreedTo(bs, i);
            FreeAt(bs, i) == Replace(bs, j, k, [Block(bs[j].addr, bs[k - 1].next, false)])
  {
    var m := MarkFree(bs, i);
    assert m[..i] == bs[..i] && m[i + 1..] == bs[i + 1..];
    var f := PlugForward(m, i);
    assert f[..i] == bs[..i] && f[i + 1..] == bs[FreedTo(bs, i)..];
    assert f[i].next == bs[FreedTo(bs, i) - 1].next;
    assert i > 0 ==> f[i - 1] == bs[i - 1] && f[..i - 1] == bs[..i - 1];
  }

  lemma FreeSound(bs: Blocks, end: nat, i: nat)
    requires Sound(bs, end) && i < |bs| && bs[i].used
    ensures Sound(FreeAt(bs, i), end)
    ensures UsedWords(FreeAt(bs, i)) == UsedWords(bs) - (bs[i].next - bs[i].addr)
  {
    FreeAtMerges(bs, i);
    FreedChain(bs, end, i);
    FreedNoFreePair(bs, i);
    var j, k := FreedFrom(bs, i), FreedTo(bs, i);
    var mid := [Block(bs[j].addr, bs[k - 1].next, false)];
    ReplaceUsedWords(bs, j, k, mid);
    FreedUsedWords(bs, i);
  }

  lemma FreedChain(bs: Blocks, end: nat, i: nat)
    requires Chain(bs, 0, end) && i < |bs|
    ensures var j, k := FreedFrom(bs, i), FreedTo(bs, i);
            Chain(Replace(bs, j, k, [Block(bs[j].addr, bs[k - 1].next, false)]), 0, end)
  {
    var j, k := FreedFrom(bs, i), FreedTo(bs, i);
    FreedRoom(bs, end, i);
    ReplaceChain(bs, 0, end, j, k, [Block(bs[j].addr, bs[k - 1].next, false)]);
  }

  lemma FreedNoFreePair(bs: Blocks, i: nat)
    requires NoFreePair(bs) && i < |bs| && bs[i].used
    ensures var j, k := FreedFrom(bs, i), FreedTo(bs, i);
            NoFreePair(Replace(bs, j, k, [Block(bs[j].addr, bs[k - 1].next, false)]))
  {
    var j, k := FreedFrom(bs, i), FreedTo(bs, i);
    assert i > 1 ==> bs[i - 2].used || bs[i - 1].used;
    assert i + 2 < |bs| ==> bs[i + 1].used || bs[i + 2].used;
    ReplaceNoFreePair(bs, j, k, [Block(bs[j].addr, bs[k - 1].next, false)]);
  }

  lemma FreedRoom(bs: Blocks, end: nat, i: nat)
    requires Chain(bs, 0, end) && i < |bs|
    ensures bs[FreedFrom(bs, i)].addr + HEADER <= bs[FreedTo(bs, i) - 1].next
  {
    ChainCut(bs, 0, end, i);
    if i > 0 {
      ChainCut(bs, 0, end, i - 1);
    }
  }

  lemma FreedUsedWords(bs: Blocks, i: nat)
    requires i < |bs| && bs[i].used
    ensures UsedWords(bs[FreedFrom(bs, i)..FreedTo(bs, i)]) == bs[i].next - bs[i].addr
  {
    var s := bs[FreedFrom(bs, i)..FreedTo(bs, i)];
    var before := bs[FreedFrom(bs, i)..i];
    var after := bs[i + 1..FreedTo(bs, i)];
    assert s == before + [bs[i]] + after;
    UsedWordsConcat(before + [bs[i]], after);
    UsedWordsConcat(before, [bs[i]]);
    assert |before| == 1 ==> before[1..] == [];
    assert |after| == 1 ==> after[1..] == [];
  }

  lemma FreeMembers(bs: Blocks, end: nat, i: nat)
    requires Sound(bs, end) && i < |bs| && bs[i].used
    ensures UsedChange(bs, FreeAt(bs, i), {bs[i]}, {})
  {
    FreeAtMerges(bs, i);
    var j, k := FreedFrom(bs, i), FreedTo(bs, i);
    var mid := [Block(bs[j].addr, bs[k - 1].next, false)];
    ReplaceMembers(bs, j, k, mid);
    forall b: Block | b.used ensures b in FreeAt(bs, i) <==> b in bs && b != bs[i] {
      if b in bs[j..k] {
        assert b == bs[i];
      }
      if b == bs[i] && (b in bs[..j] || b in bs[k..]) {
        var l :| 0 <= l < |bs| && l != i && bs[l] == b;
        ChainDistinct(bs, 0, end, l, i);
        assert false;
      }
    }
  }

  /** Freeing a block that was just allocated restores the block list, whether or not it was split. */
  lemma AllocThenFree(bs: Blocks, end: nat, i: nat, n: nat)
    requires Sound(bs, end) && i < |bs| && Fits(bs[i], n)
    ensures i < |AllocAt(bs, i, n)| && FreeAt(AllocAt(bs, i, n), i) == bs
  {
    AllocatedParts(bs, end, i, n);
    FreeAtMerges(AllocAt(bs, i, n), i);
    hide FreedFrom, FreedTo, FreeAt, AllocAt, Carved, Sound;
    assert bs == bs[..i] + [bs[i]] + bs[i + 1..];
  }

  /** What a free of the block just allocated finds: used blocks around what was one free block. */
  lemma AllocatedParts(bs: Blocks, end: nat, i: nat, n: nat)
    requires Sound(bs, end) && i < |bs| && Fits(bs[i], n)
    ensures var a, k := AllocAt(bs, i, n), i + |Carved(bs[i], n)|;
            && i < k <= |a| && a[..i] == bs[..i] && a[k..] == bs[i + 1..]
            && FreedFrom(a, i) == i && FreedTo(a, i) == k
            && Block(a[i].addr, a[k - 1].next, false) == bs[i]
  {
    hide Chain;
    var a, mid := AllocAt(bs, i, n), Carved(bs[i], n);
    assert i > 0 ==> bs[i - 1].used;
    assert bs[i].used || i + 1 == |bs| || bs[i + 1].used;
    assert a[..i] == bs[..i];
    assert a[i..i + |mid|] == mid && a[i + |mid|..] == bs[i + 1..];
    assert i + |mid| < |a| ==> a[i + |mid|] == bs[i + 1];
    assert a[i] == mid[0] && (|mid| == 2 ==> a[i + 1] == mid[1]);
    assert i > 0 ==> a[i - 1] == bs[i - 1];
  }

  // ---------------------------------------------------------------- shrinking in place

  /** The freed tail of a shrunk block merges with a free block behind it and never with the block itself. */
  lemma ShrinkAtMerges(bs: Blocks, i: nat, n: nat)
    requires i < |bs|
    ensures var k := FreedTo(bs, i);
            var b := bs[i];
            ShrinkAt(bs, i, n) == Replace(bs, i, k, [Block(b.addr, b.addr + HEADER + n, true),
                                                     Block(b.addr + HEADER + n, bs[k - 1].next, false)])
  {
    var s := SplitAt(bs, i, n);
    var b := bs[i];
    assert s[..i + 1] == bs[..i] + [Block(b.addr, b.addr + HEADER + n, true)];
    assert s[i + 1] == Block(b.addr + HEADER + n, b.next, false);
    assert s[i + 2..] == bs[i + 1..];
    assert i + 2 < |s| ==> s[i + 2] == bs[i + 1] && s[i + 3..] == bs[i + 2..];
    var f := PlugForward(s, i + 1);
    assert f[i] == Block(b.addr, b.addr + HEADER + n, true);
  }

  lemma ShrinkSound(bs: Blocks, end: nat, i: nat, n: nat)
    requires Sound(bs, end) && i < |bs| && bs[i].used && n + HEADER < Room(bs[i])
    ensures Sound(ShrinkAt(bs, i, n), end)
    ensures ShrinkAt(bs, i, n)[i] == Block(bs[i].addr, bs[i].addr + HEADER + n, true)
  {
    ShrinkAtMerges(bs, i, n);
    var k := FreedTo(bs, i);
    var b := bs[i];
    var mid := [Block(b.addr, b.addr + HEADER + n, true), Block(b.addr + HEADER + n, bs[k - 1].next, false)];
    ChainCut(bs, 0, end, i);
    assert mid[1..] == [mid[1]];
    ReplaceChain(bs, 0, end, i, k, mid);
    assert i + 2 < |bs| ==> bs[i + 1].used || bs[i + 2].used;
    ReplaceNoFreePair(bs, i, k, mid);
  }

  lemma ShrinkUsedWords(bs: Blocks, i: nat, n: nat)
    requires i < |bs| && bs[i].used
    ensures UsedWords(ShrinkAt(bs, i, n)) == UsedWords(bs) - (Room(bs[i]) - n)
  {
    ShrinkAtMerges(bs, i, n);
    ShrunkUsedWords(bs, i, n);
  }

  lemma ShrunkUsedWords(bs: Blocks, i: nat, n: nat)
    requires i < |bs| && bs[i].used
    ensures var k := FreedTo(bs, i);
            var b := bs[i];
            UsedWords(Replace(bs, i, k, [Block(b.addr, b.addr + HEADER + n, true),
                                         Block(b.addr + HEADER + n, bs[k - 1].next, false)]))
            == UsedWords(bs) - (Room(b) - n)
  {
    var k := FreedTo(bs, i);
    var b := bs[i];
    var kept := Block(b.addr, b.addr + HEADER + n, true);
    var tail := Block(b.addr + HEADER + n, bs[k - 1].next, false);
    ReplaceUsedWords(bs, i, k, [kept, tail]);
    UsedWordsPair(kept, tail);
    ForwardUsedWords(bs, i);
  }

  lemma ForwardUsedWords(bs: Blocks, i: nat)
    requires i < |bs| && bs[i].used
    ensures UsedWords(bs[i..FreedTo(bs, i)]) == bs[i].next - bs[i].addr
  {
    if FreedTo(bs, i) == i + 2 {
      assert bs[i..i + 2] == [bs[i], bs[i + 1]];
      UsedWordsPair(bs[i], bs[i + 1]);
    } else {
      assert bs[i..i + 1] == [bs[i]];
      UsedWordsPair(bs[i], bs[i].(used := false));
    }
  }

  lemma UsedWordsPair(a: Block, b: Block)
    requires a.used && !b.used
    ensures UsedWords([a]) == a.next - a.addr && UsedWords([a, b]) == a.next - a.addr
  {
    UsedWordsConcat([a], [b]);
  }

  lemma ShrinkMembers(bs: Blocks, end: nat, i: nat, n: nat)
    requires Sound(bs, end) && i < |bs| && bs[i].used && n + HEADER < Room(bs[i])
    ensures i < |ShrinkAt(bs, i, n)| && UsedChange(bs, ShrinkAt(bs, i, n), {bs[i]}, {ShrinkAt(bs, i, n)[i]})
  {
    ShrinkAtMerges(bs, i, n);
    var k := FreedTo(bs, i);
    var b := bs[i];
    var mid := [Block(b.addr, b.addr + HEADER + n, true), Block(b.addr + HEADER + n, bs[k - 1].next, false)];
    ReplaceMembers(bs, i, k, mid);
    forall x: Block | x.used ensures x in ShrinkAt(bs, i, n) <==> (x in bs && x != b) || x == mid[0] {
      if x in bs[i..k] {
        assert x == b;
      }
      if x == b && (x in bs[..i] || x in bs[k..]) {
        var l :| 0 <= l < |bs| && l != i && bs[l] == b;
        ChainDistinct(bs, 0, end, l, i);
        assert false;
      }
    }
  }

  // ---------------------------------------------------------------- freeing everything

  function Find(bs: Blocks, b: Block): (i: nat)
    requires b in bs
    ensures i < |bs| && bs[i] == b
  {
    if bs[0] == b then 0 else 1 + Find(bs[1..], b)
  }

  /** Frees the given blocks one after the other. */
  function FreeEach(bs: Blocks, order: Blocks): Blocks
    decreases |order|
  {
    if order == [] then bs
    else FreeEach(if order[0] in bs then FreeAt(bs, Find(bs, order[0])) else bs, order[1..])
  }

  /** Freeing all live blocks leaves one free block, whatever the order. */
  lemma {:induction false} FreeAllLeavesOne(bs: Blocks, end: nat, order: Blocks)
    requires Sound(bs, end) && NoDuplicates(order)
    requires forall b: Block :: b in order <==> b.used && b in bs
    ensures FreeEach(bs, order) == [Block(0, end, false)]
    decreases |order|
  {
    if order == [] {
      assert bs[0] in bs && !bs[0].used;
      assert |bs| == 1;
      assert bs == [bs[0]] && Chain(bs[1..], bs[0].next, end);
    } else {
      var b := order[0];
      var i := Find(bs, b);
      var bs' := FreeAt(bs, i);
      FreeSound(bs, end, i);
      FreeMembers(bs, end, i);
      forall x: Block ensures x in order[1..] <==> x.used && x in bs' {
        if x in order[1..] {
          var l :| 1 <= l < |order| && order[l] == x;
          assert x in order && order[0] != order[l];
        }
      }
      FreeAllLeavesOne(bs', end, order[1..]);
    }
  }
}
