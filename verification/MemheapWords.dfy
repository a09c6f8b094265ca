/**
 * The words of a memheap pool: item headers and payloads in one array, the header of the free list behind the pool.
 * Next to the words the class keeps, for reasoning, each header field as a sequence over addresses.
 */
module MemheapWords {
  import opened HeapBlocks
  import opened MemheapBlocks
  import opened Memory

  /** RT_MEMHEAP_MAGIC; its lowest bit is the used flag. */
  const MAGIC := 0x1ea01ea0

  /** The words of struct rt_memheap_item, the magic being the first. */
  const POOL := 1
  const NEXT := 2
  const PREV := 3
  const NEXT_FREE := 4
  const PREV_FREE := 5

  /** No two headers overlap. */
  ghost predicate Spaced(heads: set<int>, size: nat) {
    && (forall a {:trigger a in heads} :: a in heads ==> 0 <= a <= size)
    && (forall a, b {:trigger a in heads, b in heads} :: a in heads && b in heads && a < b ==> a + ITEM <= b)
  }

  /** Only the value at q may have changed. */
  ghost predicate OnlyAt(x: seq<int>, y: seq<int>, q: int) {
    |y| == |x| && forall k {:trigger y[k]} :: 0 <= k < |x| && k != q ==> y[k] == x[k]
  }

  /** There is room for one more header at q. */
  ghost predicate Clear(heads: set<int>, size: nat, q: int) {
    0 <= q <= size && forall a {:trigger a in heads} :: a in heads ==> a + ITEM <= q || q + ITEM <= a
  }

  /** Word k belongs to one of the headers. */
  ghost predicate InHead(heads: set<int>, k: int) {
    exists a :: a in heads && a <= k < a + ITEM
  }

  /** Nothing but headers has been written. */
  ghost predicate OnlyHeads(m: seq<int>, m': seq<int>, heads: set<int>) {
    && |m'| == |m|
    && forall k {:trigger m'[k]} :: 0 <= k < |m| && !InHead(heads, k) ==> m'[k] == m[k]
  }

  lemma OnlyHeadsWrite(base: seq<int>, m: seq<int>, heads: set<int>, a: int, f: nat, v: int)
    requires OnlyHeads(base, m, heads) && a in heads && f < ITEM && 0 <= a + f < |m|
    ensures OnlyHeads(base, m[a + f := v], heads)
  {
    assert InHead(heads, a + f);
  }

  lemma HeadApart(heads: set<int>, size: nat, a: int, b: int)
    requires Spaced(heads, size) && a in heads && b in heads
    ensures 0 <= a <= size && 0 <= b <= size && (a == b || a + ITEM <= b || b + ITEM <= a)
  {
  }

  class Words {
    const size: nat                // pool_size
    const self: int                // the memheap, as stored in pool_ptr
    const mem: array<int>
    ghost var next: seq<int>
    ghost var prev: seq<int>
    ghost var used: seq<bool>
    ghost var nextFree: seq<int>
    ghost var prevFree: seq<int>
    ghost var heads: set<int>      // where a header stands
    ghost var base: seq<int>       // the words at the beginning of the operation

    ghost predicate Sized()
      reads this`next, this`prev, this`used, this`nextFree, this`prevFree
    {
      mem.Length == size + ITEM && |next| == |prev| == |used| == |nextFree| == |prevFree| == size + 1
    }

    ghost predicate HeldAt(a: int)
      requires Sized() && 0 <= a <= size
      reads this`next, this`prev, this`used, this`nextFree, this`prevFree, mem
    {
      && mem[a] == (if used[a] then MAGIC + 1 else MAGIC) && mem[a + POOL] == self
      && mem[a + NEXT] == next[a] && mem[a + PREV] == prev[a]
      && mem[a + NEXT_FREE] == nextFree[a] && mem[a + PREV_FREE] == prevFree[a]
    }

    /** The words at every header are what the fields say. */
    ghost predicate Held()
      reads this`next, this`prev, this`used, this`nextFree, this`prevFree, this`heads, mem
      ensures Held() ==> Sized() && Spaced(heads, size)
    {
      && Sized() && Spaced(heads, size)
      && forall a {:trigger a in heads} :: a in heads ==> HeldAt(a)
    }

    /** In an operation: so far only headers were written. */
    ghost predicate Valid()
      reads this, mem
      ensures Valid() ==> Held()
    {
      Held() && OnlyHeads(base, mem[..], heads)
    }

    constructor (size: nat, self: int)
      ensures Valid() && this.size == size && this.self == self && heads == {} && fresh(mem)
    {
      this.size, this.self := size, self;
      mem := new int[size + ITEM];
      heads := {};
      next, prev, nextFree, prevFree := seq(size + 1, k => 0), seq(size + 1, k => 0), seq(size + 1,
                                            k => 0), seq(size + 1, k => 0);
      used := seq(size + 1, k => false);
      new;
      base := mem[..];
    }

    /** A new operation begins. */
    ghost method Begin()
      requires Held()
      modifies this`base
      ensures Valid() && base == mem[..]
    {
      base := mem[..];
    }

    /** Some headers have become payload. */
    ghost method Forget(hs: set<int>)
      requires Held() && hs <= heads
      modifies this`base, this`heads
      ensures Valid() && base == mem[..] && heads == hs
    {
      heads := hs;
      base := mem[..];
    }

    function Next(a: int): (v: int)
      requires Held() && a in heads
      reads this, mem
      ensures v == next[a]
    {
      mem[a + NEXT]
    }

    function Prev(a: int): (v: int)
      requires Held() && a in heads
      reads this, mem
      ensures v == prev[a]
    {
      mem[a + PREV]
    }

    function NextFree(a: int): (v: int)
      requires Held() && a in heads
      reads this, mem
      ensures v == nextFree[a]
    {
      mem[a + NEXT_FREE]
    }

    function PrevFree(a: int): (v: int)
      requires Held() && a in heads
      reads this, mem
      ensures v == prevFree[a]
    {
      mem[a + PREV_FREE]
    }

    /** rt_memcpy of payload words: no header lies where the words go. */
    method CopyPayload(dst: nat, src: nat, count: nat)
      requires Held() && src + count <= mem.Length && dst + count <= mem.Length
      requires (src + count <= dst || dst + count <= src)
      requires forall a {:trigger a in heads} :: a in heads ==> a + ITEM <= dst || dst + count <= a
      modifies mem, this`base
      ensures Valid() && base == mem[..] && Copied(old(mem[..]), mem[..], src, dst, count)
      ensures forall k {:trigger mem[k]} :: 0 <= k < mem.Length && !(dst <= k < dst + count) ==> mem[k] == old(mem[k])
    {
      CopyWords(mem, dst, src, count);
      Begin();
    }

    /** RT_MEMHEAP_IS_USED */
    predicate IsUsed(a: int)
      requires Held() && a in heads
      reads this, mem
      ensures IsUsed(a) == used[a]
    {
      mem[a] % 2 == 1
    }

    /** Word f of the header at a is written; all other words of headers stay. */
    method Store(a: int, f: nat, v: int)
      requires Valid() && a in heads && f < ITEM
      modifies mem
      ensures Sized() && Spaced(heads, size) && 0 <= a <= size && OnlyHeads(base, mem[..], heads)
      ensures mem[a] == (if f == 0 then v else old(mem[a]))
      ensures mem[a + POOL] == (if f == POOL then v else old(mem[a + POOL]))
      ensures mem[a + NEXT] == (if f == NEXT then v else old(mem[a + NEXT]))
      ensures mem[a + PREV] == (if f == PREV then v else old(mem[a + PREV]))
      ensures mem[a + NEXT_FREE] == (if f == NEXT_FREE then v else old(mem[a + NEXT_FREE]))
      ensures mem[a + PREV_FREE] == (if f == PREV_FREE then v else old(mem[a + PREV_FREE]))
      ensures forall b {:trigger b in heads} :: b in heads && b != a ==> 0 <= b <= size && HeldAt(b)
    {
      hide OnlyHeads;
      ghost var m := mem[..];
      HeadApart(heads, size, a, a);
      OnlyHeadsWrite(base, m, heads, a, f, v);
      forall b | b in heads && b != a ensures 0 <= b <= size && (a + ITEM <= b || b + ITEM <= a) && HeldAt(b) {
        HeadApart(heads, size, a, b);
      }
      hide Spaced;
      mem[a + f] := v;
      assert mem[..] == m[a + f := v];
    }

    method SetNext(a: int, v: int)
      requires Valid() && a in heads
      modifies this`next, mem
      ensures Valid() && next == old(next)[a := v]
    {
      hide OnlyHeads, Spaced;
      Store(a, NEXT, v);
      next := next[a := v];
    }

    method SetPrev(a: int, v: int)
      requires Valid() && a in heads
      modifies this`prev, mem
      ensures Valid() && prev == old(prev)[a := v]
    {
      hide OnlyHeads, Spaced;
      Store(a, PREV, v);
      prev := prev[a := v];
    }

    method SetNextFree(a: int, v: int)
      requires Valid() && a in heads
      modifies this`nextFree, mem
      ensures Valid() && nextFree == old(nextFree)[a := v]
    {
      hide OnlyHeads, Spaced;
      Store(a, NEXT_FREE, v);
      nextFree := nextFree[a := v];
    }

    method SetPrevFree(a: int, v: int)
      requires Valid() && a in heads
      modifies this`prevFree, mem
      ensures Valid() && prevFree == old(prevFree)[a := v]
    {
      hide OnlyHeads, Spaced;
      Store(a, PREV_FREE, v);
      prevFree := prevFree[a := v];
    }

    method SetUsed(a: int, u: bool)
      requires Valid() && a in heads
      modifies this`used, mem
      ensures Valid() && used == old(used)[a := u]
    {
      hide OnlyHeads, Spaced;
      Store(a, 0, if u then MAGIC + 1 else MAGIC);
      used := used[a := u];
    }

    /** The magic and the pool_ptr of a free item that is to stand at q. */
    method Mark(q: int)
      requires Valid() && Clear(heads, size, q)
      modifies mem
      ensures Sized() && Spaced(heads + {q}, size) && OnlyHeads(base, mem[..], heads + {q})
      ensures mem[q] == MAGIC && mem[q + POOL] == self
      ensures forall b {:trigger b in heads} :: b in heads ==> 0 <= b <= size && HeldAt(b)
    {
      ghost var m := mem[..];
      NewHead(base, m, heads, q);
      OnlyHeadsWrite(base, m, heads + {q}, q, 0, MAGIC);
      OnlyHeadsWrite(base, m[q := MAGIC], heads + {q}, q, POOL, self);
      hide OnlyHeads, InHead;
      forall b | b in heads ensures 0 <= b <= size && (q + ITEM <= b || b + ITEM <= q) && HeldAt(b) {
        HeadApart(heads, size, b, b);
      }
      mem[q] := MAGIC;
      mem[q + POOL] := self;
      assert mem[..] == m[q := MAGIC][q + POOL := self];
    }

    /** A free item comes to stand at q: its magic and pool_ptr are written, its links are still what the words were. */
    method Create(q: int)
      requires Valid() && Clear(heads, size, q)
      modifies this`next, this`prev, this`used, this`nextFree, this`prevFree, this`heads, mem
      ensures Valid() && heads == old(heads) + {q} && used == old(used)[q := false]
      ensures OnlyAt(old(next), next, q) && OnlyAt(old(prev), prev, q)
      ensures OnlyAt(old(nextFree), nextFree, q) && OnlyAt(old(prevFree), prevFree, q)
    {
      assert q !in heads;
      Mark(q);
      Adopt(q);
    }

    /** The fields take over what the words at q say. */
    ghost method Adopt(q: int)
      requires Sized() && Spaced(heads + {q}, size) && q !in heads && OnlyHeads(base, mem[..], heads + {q})
      requires 0 <= q <= size && mem[q] == MAGIC && mem[q + POOL] == self
      requires forall b {:trigger b in heads} :: b in heads ==> 0 <= b <= size && HeldAt(b)
      modifies this`next, this`prev, this`used, this`nextFree, this`prevFree, this`heads
      ensures Valid() && heads == old(heads) + {q} && used == old(used)[q := false]
      ensures OnlyAt(old(next), next, q) && OnlyAt(old(prev), prev, q)
      ensures OnlyAt(old(nextFree), nextFree, q) && OnlyAt(old(prevFree), prevFree, q)
    {
      hide OnlyHeads, Spaced;
      next, prev := next[q := mem[q + NEXT]], prev[q := mem[q + PREV]];
      nextFree, prevFree := nextFree[q := mem[q + NEXT_FREE]], prevFree[q := mem[q + PREV_FREE]];
      used := used[q := false];
      heads := heads + {q};
    }
  }

  lemma NewHead(base: seq<int>, m: seq<int>, heads: set<int>, q: int)
    requires OnlyHeads(base, m, heads)
    ensures OnlyHeads(base, m, heads + {q})
  {
    forall k | InHead(heads, k) ensures InHead(heads + {q}, k) {
      var a :| a in heads && a <= k < a + ITEM;
      assert a in heads + {q};
    }
  }

  // ---------------------------------------------------------------- headers and payloads

  /** Where the headers of a block list stand: one for each block, the tail item and the header of the free list. */
  function Heads(bs: Blocks, end: nat): set<int> {
    (set k {:trigger bs[k]} | 0 <= k < |bs| :: bs[k].addr as int) + {end, end + ITEM}
  }

  /** A block that can be cut has room for one more header. */
  lemma CutClear(bs: Blocks, end: nat, i: nat, n: nat)
    requires Chain(bs, 0, end) && Roomy(bs) && i < |bs| && IsCut(bs[i], n)
    ensures Clear(Heads(bs, end), end + ITEM, bs[i].addr + ITEM + n)
  {
    ChainCut(bs, 0, end, i);
    forall k | 0 <= k < |bs| ensures bs[k].addr <= bs[i].addr || bs[i].next <= bs[k].addr {
      if i < k {
        ChainBefore(bs, end, i, k);
      } else if k < i {
        ChainBefore(bs, end, k, i);
        ChainCut(bs, 0, end, k);
      }
    }
  }

  /** Words lo up to hi are the same. */
  ghost predicate SameWords(m: seq<int>, m': seq<int>, lo: int, hi: int) {
    |m'| == |m| && forall k {:trigger m'[k]} :: lo <= k < hi && 0 <= k < |m| ==> m'[k] == m[k]
  }

  function Nearer(x: int, y: int): int {
    if x < y then x else y
  }

  /** Every block that is live before and after keeps its payload, as far as it belongs to the block both times. */
  ghost predicate KeepsWords(m: seq<int>, m': seq<int>, bs: Blocks, bs': Blocks) {
    && |m'| == |m|
    && forall b: Block, b': Block {:trigger b in bs, b' in bs'} ::
         b in bs && b' in bs' && b.used && b'.used && b'.addr == b.addr
         ==> SameWords(m, m', b.addr + ITEM, Nearer(b.next, b'.next))
  }

  /** Writing headers of the old and the new block list leaves every live payload alone. */
  lemma HeadsKeepWords(m: seq<int>, m': seq<int>, heads: set<int>, bs: Blocks, bs': Blocks, end: nat)
    requires OnlyHeads(m, m', heads) && heads <= Heads(bs, end) + Heads(bs', end)
    requires Chain(bs, 0, end) && Roomy(bs) && Chain(bs', 0, end) && Roomy(bs')
    ensures KeepsWords(m, m', bs, bs')
  {
    forall b: Block, b': Block | b in bs && b' in bs' && b.used && b'.used && b'.addr == b.addr
      ensures SameWords(m, m', b.addr + ITEM, Nearer(b.next, b'.next))
    {
      forall k | b.addr + ITEM <= k < Nearer(b.next, b'.next) && 0 <= k < |m| ensures m'[k] == m[k] {
        PayloadFree(bs, end, b, k);
        PayloadFree(bs', end, b', k);
        assert !InHead(heads, k);
      }
    }
  }

  /** A payload word belongs to no header. */
  lemma PayloadFree(bs: Blocks, end: nat, b: Block, k: int)
    requires Chain(bs, 0, end) && Roomy(bs) && b in bs && b.addr + ITEM <= k < b.next
    ensures !InHead(Heads(bs, end), k)
    ensures forall a {:trigger a in Heads(bs, end)} :: a in Heads(bs, end) ==> !(a <= k < a + ITEM)
  {
    var j :| 0 <= j < |bs| && bs[j] == b;
    ChainCut(bs, 0, end, j);
    forall a | a in Heads(bs, end) ensures !(a <= k < a + ITEM) {
      if i :| 0 <= i < |bs| && bs[i].addr == a {
        HeadersMissPayloads(bs, end, i, j);
      }
    }
  }

  /** The same over two steps, when no live block shrinks in the first. */
  lemma KeepsWordsThen(m: seq<int>, m': seq<int>, m'': seq<int>, bs: Blocks, bs': Blocks, bs'': Blocks)
    requires KeepsWords(m, m', bs, bs') && KeepsWords(m', m'', bs', bs'')
    requires forall b: Block {:trigger b in bs} :: b in bs && b.used ==>
               exists c: Block :: c in bs' && c.used && c.addr == b.addr && c.next >= b.next
    ensures KeepsWords(m, m'', bs, bs'')
  {
    forall b: Block, b'': Block | b in bs && b'' in bs'' && b.used && b''.used && b''.addr == b.addr
      ensures SameWords(m, m'', b.addr + ITEM, Nearer(b.next, b''.next))
    {
      var c: Block :| c in bs' && c.used && c.addr == b.addr && c.next >= b.next;
      assert SameWords(m, m', b.addr + ITEM, Nearer(b.next, c.next));
      assert SameWords(m', m'', b.addr + ITEM, Nearer(c.next, b''.next));
    }
  }

  lemma SameWordsKept(m: seq<int>, bs: Blocks, end: nat)
    ensures KeepsWords(m, m, bs, bs)
  {
  }

  lemma ReplaceHeads(bs: Blocks, end: nat, i: nat, j: nat, mid: Blocks)
    requires i <= j <= |bs|
    ensures forall a {:trigger a in Heads(Replace(bs, i, j, mid), end)} :: a in Heads(Replace(bs, i, j, mid), end) ==>
              a in Heads(bs, end) || exists k :: 0 <= k < |mid| && mid[k].addr == a
    ensures forall k :: 0 <= k < |mid| ==> mid[k].addr in Heads(Replace(bs, i, j, mid), end)
  {
    var r := Replace(bs, i, j, mid);
    forall a | a in Heads(r, end) ensures a in Heads(bs, end) || exists k :: 0 <= k < |mid| && mid[k].addr == a {
      if l :| 0 <= l < |r| && r[l].addr == a {
        if l < i {
          assert bs[l].addr == a;
        } else if l < i + |mid| {
          assert mid[l - i].addr == a;
        } else {
          assert bs[l - i - |mid| + j].addr == a;
        }
      }
    }
    forall k | 0 <= k < |mid| ensures mid[k].addr in Heads(r, end) {
      assert r[i + k] == mid[k];
    }
  }

  /** A block list in which only one block changed, in place. */
  lemma SameHeads(bs: Blocks, end: nat, i: nat, b: Block)
    requires i < |bs| && b.addr == bs[i].addr
    ensures Heads(Replace(bs, i, i + 1, [b]), end) == Heads(bs, end)
  {
    var r := Replace(bs, i, i + 1, [b]);
    assert |r| == |bs| && forall k {:trigger r[k]} {:trigger bs[k]} :: 0 <= k < |bs| ==> r[k].addr == bs[k].addr;
  }

  lemma MarkHeads(bs: Blocks, end: nat, i: nat)
    requires i < |bs|
    ensures Heads(MarkFree(bs, i), end) == Heads(bs, end)
  {
    SameHeads(bs, end, i, bs[i].(used := false));
  }

  lemma CutHeads(bs: Blocks, end: nat, i: nat, n: nat)
    requires i < |bs|
    ensures Heads(CutAt(bs, i, n), end) == Heads(bs, end) + {bs[i].addr + ITEM + n}
  {
    var mid := Cut(bs[i], n, bs[i].next);
    var c := CutAt(bs, i, n);
    ReplaceHeads(bs, end, i, i + 1, mid);
    assert mid[0].addr == bs[i].addr && mid[1].addr == bs[i].addr + ITEM + n;
    forall a | a in Heads(bs, end) ensures a in Heads(c, end) {
      if k :| 0 <= k < |bs| && bs[k].addr == a {
        assert c[if k <= i then k else k + 1].addr == a;
      }
    }
  }

  lemma TakenHeads(bs: Blocks, end: nat, i: nat, n: nat)
    requires i < |bs|
    ensures Heads(TakeAt(bs, i, n), end)
              == Heads(bs, end) + (if IsCut(bs[i], n) then {bs[i].addr + ITEM + n as int} else {})
  {
    if IsCut(bs[i], n) {
      CutHeads(bs, end, i, n);
    } else {
      SameHeads(bs, end, i, bs[i].(used := true));
    }
  }

  lemma JoinHeads(bs: Blocks, end: nat, i: nat)
    requires i + 1 < |bs|
    ensures Heads(JoinAt(bs, i), end) <= Heads(bs, end)
  {
    var mid := [Block(bs[i].addr, bs[i + 1].next, bs[i].used)];
    ReplaceHeads(bs, end, i, i + 2, mid);
  }

  lemma FreedHeads(bs: Blocks, end: nat, i: nat)
    requires i < |bs|
    ensures Heads(FreeAt(bs, i), end) <= Heads(bs, end)
  {
    FreeAtMerges(bs, i);
    var j, k := FreedFrom(bs, i), FreedTo(bs, i);
    ReplaceHeads(bs, end, j, k, [Block(bs[j].addr, bs[k - 1].next, false)]);
  }

  /** The header behind a shrunk block is one of the new block list. */
  lemma ResizedHeads(bs: Blocks, end: nat, i: nat, n: nat)
    requires i < |bs|
    ensures bs[i].addr + ITEM + n in Heads(ResizeAt(bs, i, n), end)
  {
    var q := bs[i].addr + ITEM + n;
    assert exists k :: 0 <= k < |ResizeAt(bs, i, n)| && ResizeAt(bs, i, n)[k].addr == q by {
      assert ResizeAt(bs, i, n)[i + 1].addr == q;
    }
  }

  /** The items of the free list are headers. */
  lemma ListedHeads(bs: Blocks, end: nat, free: seq<nat>)
    requires Listed(bs, free)
    ensures forall a {:trigger a in free} :: a in free ==> a as int in Heads(bs, end)
  {
    forall a | a in free ensures a as int in Heads(bs, end) {
      assert FreeHere(bs, a);
    }
  }

  /** Once block i has joined the free one behind it, there is room for a header behind n words. */
  lemma JoinFits(bs: Blocks, end: nat, i: nat, n: nat, free: seq<nat>)
    requires Chain(bs, 0, end) && Roomy(bs) && i + 1 < |bs| && bs[i].used && Listed(bs, free) && Resizable(bs, i, n)
    requires FreedTo(bs, i) == i + 2
    ensures var joined := JoinAt(bs, i);
            && Clear(Heads(joined, end), end + ITEM, bs[i].addr + ITEM + n)
            && (forall a {:trigger a in WithoutNext(bs, i, free)} :: a in WithoutNext(bs, i, free) ==>
                  a as int in Heads(joined, end))
            && forall b: Block {:trigger b in bs} :: b in bs && b.used ==>
                 exists c: Block :: c in joined && c.used && c.addr == b.addr && c.next >= b.next
  {
    var joined := JoinAt(bs, i);
    JoinKept(bs, i);
    JoinChain(bs, end, i);
    CutClear(joined, end, i, n);
    ChainCut(bs, 0, end, i + 1);
    hide Chain, Clear, Roomy, JoinAt;
    forall b: Block | b in bs && b.used
      ensures exists c: Block :: c in joined && c.used && c.addr == b.addr && c.next >= b.next
    {
      var k :| 0 <= k < |bs| && bs[k] == b;
      var c := if k == i then joined[i] else b;
      assert c in joined && c.used && c.addr == b.addr && c.next >= b.next;
    }
    forall a | a in WithoutNext(bs, i, free) ensures a as int in Heads(joined, end) {
      assert FreeHere(bs, a);
      var k :| 0 <= k < |bs| && bs[k].addr == a && !bs[k].used;
      assert bs[k] in joined;
    }
  }

  lemma JoinChain(bs: Blocks, end: nat, i: nat)
    requires Chain(bs, 0, end) && Roomy(bs) && i + 1 < |bs|
    ensures Chain(JoinAt(bs, i), 0, end) && Roomy(JoinAt(bs, i))
    ensures bs[i].next <= bs[i + 1].next
  {
    var j := Block(bs[i].addr, bs[i + 1].next, bs[i].used);
    ChainCut(bs, 0, end, i);
    ChainCut(bs, 0, end, i + 1);
    assert [j][1..] == [];
    ReplaceChain(bs, 0, end, i, i + 2, [j]);
    ReplaceRoomy(bs, i, i + 2, [j]);
  }

  /** Joining blocks i and i + 1 leaves all others where they are. */
  lemma JoinKept(bs: Blocks, i: nat)
    requires i + 1 < |bs|
    ensures i < |JoinAt(bs, i)| && JoinAt(bs, i)[i] == Block(bs[i].addr, bs[i + 1].next, bs[i].used)
    ensures forall k {:trigger bs[k]} :: 0 <= k < |bs| && k != i && k != i + 1 ==> bs[k] in JoinAt(bs, i)
  {
    var joined := JoinAt(bs, i);
    forall k | 0 <= k < |bs| && k != i && k != i + 1 ensures bs[k] in joined {
      assert joined[if k < i then k else k - 1] == bs[k];
    }
  }

  /** No free block starts inside a live one. */
  lemma NotFreeInside(bs: Blocks, end: nat, i: nat, n: nat, free: seq<nat>)
    requires Chain(bs, 0, end) && i < |bs| && bs[i].used && Listed(bs, free) && IsCut(bs[i], n)
    ensures bs[i].addr + ITEM + n !in free
  {
    FreeHereInside(bs, end, i, bs[i].addr + ITEM + n);
  }

  lemma FirstHeads(end: nat)
    ensures Heads([Block(0, end, false)], end) == {0, end, end + ITEM}
  {
    assert [Block(0, end, false)][0].addr == 0;
  }
}
