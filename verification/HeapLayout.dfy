/** How the block list of HeapBlocks is laid out in the words of the pool: pool_ptr, next and prev of every header. */
module HeapLayout {
  import opened HeapBlocks

  /** MEM_USED and MEM_FREED: the (even) address of the memory object with the lowest bit as the used flag. */
  function Tag(self: nat, used: bool): int {
    if used then self + 1 else self
  }

  ghost predicate HeaderIs(h: seq<int>, self: nat, b: Block, prev: int) {
    b.addr + 2 < |h| && h[b.addr] == Tag(self, b.used) && h[b.addr + 1] == b.next && h[b.addr + 2] == prev
  }

  /** The headers of consecutive blocks, each pointing back to the one before; prev is in front of the first. */
  ghost predicate Laid(h: seq<int>, self: nat, bs: Blocks, prev: int) {
    bs == [] || (HeaderIs(h, self, bs[0], prev) && Laid(h, self, bs[1..], bs[0].addr))
  }

  /** The whole pool: headers, and the used sentinel at heap_end whose next is its own offset. */
  ghost predicate LaidHeap(h: seq<int>, self: nat, bs: Blocks, end: nat) {
    && |h| == end + HEADER
    && self % 2 == 0
    && bs != [] && Chain(bs, 0, end)
    && Laid(h, self, bs, 0)
    && h[end] == Tag(self, true) && h[end + 1] == end
  }

  function LastAddr(bs: Blocks, prev: int): int {
    if bs == [] then prev else bs[|bs| - 1].addr
  }

  lemma {:induction false} LaidConcat(h: seq<int>, self: nat, a: Blocks, b: Blocks, prev: int)
    ensures Laid(h, self, a + b, prev) <==> Laid(h, self, a, prev) && Laid(h, self, b, LastAddr(a, prev))
  {
    if a == [] {
      assert a + b == b;
    } else {
      assert (a + b)[1..] == a[1..] + b;
      LaidConcat(h, self, a[1..], b, a[0].addr);
      assert |a| > 1 ==> LastAddr(a[1..], a[0].addr) == LastAddr(a, prev);
    }
  }

  /** The header of block i, and of whatever follows it. */
  lemma {:induction false} LaidAt(h: seq<int>, self: nat, bs: Blocks, prev: int, i: nat)
    requires Laid(h, self, bs, prev) && i < |bs|
    ensures HeaderIs(h, self, bs[i], LastAddr(bs[..i], prev))
    ensures Laid(h, self, bs[..i], prev)
    ensures Laid(h, self, bs[i + 1..], bs[i].addr)
  {
    assert bs == bs[..i] + bs[i..];
    LaidConcat(h, self, bs[..i], bs[i..], prev);
    assert bs[i..][1..] == bs[i + 1..];
  }

  /** Writes outside a stretch of blocks leave it laid out; at most its first back pointer may change. */
  lemma {:induction false} LaidFrame(h: seq<int>, h': seq<int>, self: nat, bs: Blocks, prev: int, prev': int, lo: nat,
                                     hi: nat)
    requires Laid(h, self, bs, prev) && Chain(bs, lo, hi) && hi <= |h| == |h'|
    requires forall k :: lo <= k < hi && k != lo + 2 ==> h'[k] == h[k]
    requires bs != [] ==> h'[lo + 2] == prev'
    ensures Laid(h', self, bs, prev')
  {
    if bs != [] {
      ChainAscends(bs[1..], bs[0].next, hi);
      if |bs| > 1 {
        assert HeaderIs(h, self, bs[1], bs[0].addr);
        ChainAscends(bs[1..][1..], bs[1].next, hi);
      }
      LaidFrame(h, h', self, bs[1..], bs[0].addr, bs[0].addr, bs[0].next, hi);
    }
  }

  /** A write to the words of blocks i up to j and to the back pointer behind them. */
  ghost predicate Local(h: seq<int>, h': seq<int>, lo: nat, hi: nat) {
    && |h'| == |h|
    && forall k {:trigger h'[k]} {:trigger h[k]} :: 0 <= k < |h| && (k < lo || hi <= k) && k != hi + 2 ==> h'[k] == h[k]
  }

  lemma ReplaceLaid(h: seq<int>, h': seq<int>, self: nat, bs: Blocks, end: nat, i: nat, j: nat, mid: Blocks)
    requires LaidHeap(h, self, bs, end) && i < j <= |bs|
    requires bs[i].addr + HEADER <= bs[j - 1].next
    requires Local(h, h', bs[i].addr, bs[j - 1].next)
    requires mid != [] && Chain(mid, bs[i].addr, bs[j - 1].next)
    requires Laid(h', self, mid, LastAddr(bs[..i], 0))
    requires j < |bs| ==> bs[j - 1].next + 2 < |h'| && h'[bs[j - 1].next + 2] == LastAddr(mid, 0)
    ensures LaidHeap(h', self, Replace(bs, i, j, mid), end)
  {
    var lo, hi := bs[i].addr, bs[j - 1].next;
    PrefixLaid(h, h', self, bs, end, i, hi);
    SuffixLaid(h, h', self, bs, end, j, lo, LastAddr(mid, 0));
    LaidConcat(h', self, bs[..i], mid, 0);
    LaidConcat(h', self, bs[..i] + mid, bs[j..], 0);
    assert LastAddr(bs[..i] + mid, 0) == LastAddr(mid, 0);
    ReplaceChain(bs, 0, end, i, j, mid);
    ChainCut(bs, 0, end, j - 1);
  }

  /** Nothing in front of block i is touched. */
  lemma PrefixLaid(h: seq<int>, h': seq<int>, self: nat, bs: Blocks, end: nat, i: nat, hi: nat)
    requires LaidHeap(h, self, bs, end) && i < |bs| && bs[i].addr <= hi && Local(h, h', bs[i].addr, hi)
    ensures Laid(h', self, bs[..i], 0)
  {
    ChainCut(bs, 0, end, i);
    LaidAt(h, self, bs, 0, i);
    if i > 0 {
      ChainAscends(bs[..i], 0, bs[i].addr);
      assert HeaderIs(h, self, bs[..i][0], 0);
    }
    LaidFrame(h, h', self, bs[..i], 0, 0, 0, bs[i].addr);
  }

  /** Behind block j - 1 only the back pointer of block j is touched. */
  lemma SuffixLaid(h: seq<int>, h': seq<int>, self: nat, bs: Blocks, end: nat, j: nat, lo: nat, prev: int)
    requires LaidHeap(h, self, bs, end) && 0 < j <= |bs| && lo <= bs[j - 1].next && Local(h, h', lo, bs[j - 1].next)
    requires j < |bs| ==> bs[j - 1].next + 2 < |h'| && h'[bs[j - 1].next + 2] == prev
    ensures Laid(h', self, bs[j..], prev)
  {
    ChainCut(bs, 0, end, j - 1);
    LaidAt(h, self, bs, 0, j - 1);
    if j < |bs| {
      ChainAscends(bs[j..], bs[j - 1].next, end);
    }
    LaidFrame(h, h', self, bs[j..], bs[j - 1].addr, prev, bs[j - 1].next, end);
  }

  /** The payload of b. */
  ghost predicate SamePayload(h: seq<int>, h': seq<int>, b: Block) {
    |h'| == |h| && forall k {:trigger h'[k]} :: b.addr + HEADER <= k < b.next && k < |h| ==> h'[k] == h[k]
  }

  /** The payloads of all blocks outside i up to j survive a local write. */
  lemma LocalPayload(h: seq<int>, h': seq<int>, bs: Blocks, end: nat, i: nat, j: nat, b: Block)
    requires Chain(bs, 0, end) && |h| == end + HEADER && i < j <= |bs|
    requires Local(h, h', bs[i].addr, bs[j - 1].next)
    requires b in bs[..i] || b in bs[j..]
    ensures SamePayload(h, h', b)
  {
    if b in bs[..i] {
      var k :| 0 <= k < i && bs[k] == b;
      ChainCut(bs, 0, end, i);
      ChainCut(bs[..i], 0, bs[i].addr, k);
      ChainCut(bs, 0, end, j - 1);
      ChainBefore(bs, end, i, j - 1);
    } else {
      var k :| j <= k < |bs| && bs[k] == b;
      ChainBefore(bs, end, j - 1, k);
    }
  }

  /** Where the header of block i lies. */
  lemma HeapAt(h: seq<int>, self: nat, bs: Blocks, end: nat, i: nat)
    requires LaidHeap(h, self, bs, end) && i < |bs|
    ensures bs[i].addr + HEADER <= bs[i].next <= end
    ensures h[bs[i].addr] == Tag(self, bs[i].used) && h[bs[i].addr + 1] == bs[i].next
    ensures h[bs[i].addr + 2] == if i == 0 then 0 else bs[i - 1].addr
    ensures i + 1 < |bs| ==> bs[i].next == bs[i + 1].addr && bs[i].next + HEADER <= bs[i + 1].next <= end
    ensures i + 1 == |bs| ==> bs[i].next == end
    ensures i == 0 ==> bs[i].addr == 0
  {
    ChainCut(bs, 0, end, i);
    LaidAt(h, self, bs, 0, i);
    assert i > 0 ==> LastAddr(bs[..i], 0) == bs[i - 1].addr;
    if i + 1 == |bs| {
      assert bs[i + 1..] == [];
    }
  }

  lemma {:induction false} LowestFreeBound(bs: Blocks, lo: nat, end: nat)
    requires Chain(bs, lo, end)
    ensures lo <= LowestFree(bs, end) <= end
  {
    ChainAscends(bs, lo, end);
    if bs != [] && bs[0].used {
      LowestFreeBound(bs[1..], bs[0].next, end);
    }
  }

  /** Marking block i free moves the lowest free address to it exactly when it lies lower. */
  lemma {:induction false} MarkFreeLowest(bs: Blocks, lo: nat, end: nat, i: nat)
    requires Chain(bs, lo, end) && i < |bs|
    ensures LowestFree(MarkFree(bs, i), end)
            == if bs[i].addr < LowestFree(bs, end) then bs[i].addr else LowestFree(bs, end)
  {
    var m := MarkFree(bs, i);
    if i == 0 {
      if bs[0].used {
        LowestFreeBound(bs[1..], bs[0].next, end);
      }
    } else {
      assert m[1..] == MarkFree(bs[1..], i - 1);
      MarkFreeLowest(bs[1..], bs[0].next, end, i - 1);
      if !bs[0].used {
        ChainCut(bs, lo, end, i);
      }
    }
  }

  /** Merging two free blocks does not move the lowest free address. */
  lemma {:induction false} MergeLowest(bs: Blocks, end: nat, i: nat, m: Block)
    requires i + 1 < |bs| && !bs[i].used && !bs[i + 1].used && m.addr == bs[i].addr && !m.used
    ensures LowestFree(Replace(bs, i, i + 2, [m]), end) == LowestFree(bs, end)
  {
    var r := Replace(bs, i, i + 2, [m]);
    if i > 0 {
      assert r[1..] == Replace(bs[1..], i - 1, i + 1, [m]);
      MergeLowest(bs[1..], end, i - 1, m);
    }
  }

  lemma PlugLowest(bs: Blocks, end: nat, i: nat)
    requires i < |bs| && !bs[i].used
    ensures LowestFree(PlugForward(bs, i), end) == LowestFree(bs, end)
    ensures LowestFree(PlugBackward(bs, i), end) == LowestFree(bs, end)
  {
    if i + 1 < |bs| && !bs[i + 1].used {
      MergeLowest(bs, end, i, Block(bs[i].addr, bs[i + 1].next, bs[i].used));
    }
    if i > 0 && !bs[i - 1].used {
      MergeLowest(bs, end, i - 1, Block(bs[i - 1].addr, bs[i].next, false));
    }
  }

  /** Every live block stays live with the same payload. */
  ghost predicate Keeps(h: seq<int>, h': seq<int>, bs: Blocks, bs': Blocks) {
    |h'| == |h| && forall b {:trigger b in bs} {:trigger b in bs'} :: b in bs && b.used ==>
      b in bs' && SamePayload(h, h', b)
  }

  /** The same for every live block but one. */
  ghost predicate KeepsBut(h: seq<int>, h': seq<int>, bs: Blocks, bs': Blocks, x: Block) {
    |h'| == |h| && forall b {:trigger b in bs} {:trigger b in bs'} :: b in bs && b.used && b != x ==>
      b in bs' && SamePayload(h, h', b)
  }

  lemma KeepsTransitive(h: seq<int>, h': seq<int>, h'': seq<int>, bs: Blocks, bs': Blocks, bs'': Blocks)
    requires Keeps(h, h', bs, bs') && Keeps(h', h'', bs', bs'')
    ensures Keeps(h, h'', bs, bs'')
  {
    forall b | b in bs && b.used ensures b in bs'' && SamePayload(h, h'', b) {
      assert b in bs';
    }
  }

  lemma KeepsButThen(h: seq<int>, h': seq<int>, h'': seq<int>, bs: Blocks, bs': Blocks, bs'': Blocks, x: Block)
    requires KeepsBut(h, h', bs, bs', x) && Keeps(h', h'', bs', bs'')
    ensures KeepsBut(h, h'', bs, bs'', x)
  {
    forall b | b in bs && b.used && b != x ensures b in bs'' && SamePayload(h, h'', b) {
      assert b in bs';
    }
  }

  /** Replacing free blocks by other blocks keeps all live ones. */
  lemma ReplaceKeeps(h: seq<int>, h': seq<int>, bs: Blocks, end: nat, i: nat, j: nat, mid: Blocks)
    requires Chain(bs, 0, end) && |h| == end + HEADER && i < j <= |bs|
    requires Local(h, h', bs[i].addr, bs[j - 1].next)
    requires forall b :: b in bs[i..j] ==> !b.used
    ensures Keeps(h, h', bs, Replace(bs, i, j, mid))
  {
    ReplaceMembers(bs, i, j, mid);
    forall b | b in bs && b.used ensures b in Replace(bs, i, j, mid) && SamePayload(h, h', b) {
      LocalPayload(h, h', bs, end, i, j, b);
    }
  }

  /** Replacing one block keeps all other live ones. */
  lemma ReplaceKeepsBut(h: seq<int>, h': seq<int>, bs: Blocks, end: nat, i: nat, mid: Blocks)
    requires Chain(bs, 0, end) && |h| == end + HEADER && i < |bs|
    requires Local(h, h', bs[i].addr, bs[i].next)
    ensures KeepsBut(h, h', bs, Replace(bs, i, i + 1, mid), bs[i])
  {
    ReplaceMembers(bs, i, i + 1, mid);
    assert bs[i..i + 1] == [bs[i]];
    forall b | b in bs && b.used && b != bs[i] ensures b in Replace(bs, i, i + 1, mid) && SamePayload(h, h', b) {
      LocalPayload(h, h', bs, end, i, i + 1, b);
    }
  }

  /** Writing into a block's own payload disturbs neither the headers nor any other block. */
  lemma PayloadWrite(h: seq<int>, h': seq<int>, self: nat, bs: Blocks, end: nat, i: nat)
    requires LaidHeap(h, self, bs, end) && i < |bs| && |h'| == |h|
    requires forall k {:trigger h'[k]} {:trigger h[k]} ::
               0 <= k < |h| && (k < bs[i].addr + HEADER || bs[i].next <= k) ==> h'[k] == h[k]
    ensures LaidHeap(h', self, bs, end) && KeepsBut(h, h', bs, bs, bs[i])
  {
    HeapAt(h, self, bs, end, i);
    if i + 1 < |bs| {
      HeapAt(h, self, bs, end, i + 1);
    }
    var mid := [bs[i]];
    LaidAt(h, self, bs, 0, i);
    assert mid[1..] == [];
    assert HeaderIs(h', self, bs[i], LastAddr(bs[..i], 0));
    assert Laid(h', self, mid, LastAddr(bs[..i], 0));
    assert Replace(bs, i, i + 1, mid) == bs;
    ReplaceLaid(h, h', self, bs, end, i, i + 1, mid);
    ReplaceKeepsBut(h, h', bs, end, i, mid);
  }
}
