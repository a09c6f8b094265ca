/** The memory pool of mempool.c: a free list threaded through the blocks, and threads that wait for a block. */
module MemPool {
  import opened Lists
  import opened Waiting

  const POOL := 0
  const NULL := -1
  const OWNED := -2      // the pool pointer in the first word of a block that is handed out

  datatype Outcome = Got(block: nat) | NoBlock | Sleeps

  /** The free blocks are linked through their first words, in this order; every other block is handed out. */
  ghost predicate Threaded(links: seq<int>, head: int, free: seq<nat>) {
    && NoDuplicates(free)
    && head == (if free == [] then NULL else free[0])
    && (forall k {:trigger free[k]} :: 0 <= k < |free| ==>
          free[k] < |links| && links[free[k]] == if k + 1 < |free| then free[k + 1] else NULL)
    && (forall b: nat {:trigger b in free} :: b < |links| ==> (b in free <==> links[b] != OWNED))
  }

  lemma TakeHead(links: seq<int>, head: int, free: seq<nat>)
    requires Threaded(links, head, free) && free != []
    ensures 0 <= head < |links| && Threaded(links[head := OWNED], links[head], free[1..])
  {
    var l := free[1..];
    assert head == free[0];
    forall k {:trigger l[k]} | 0 <= k < |l|
      ensures l[k] < |links| && links[head := OWNED][l[k]] == if k + 1 < |l| then l[k + 1] else NULL
    {
      assert l[k] == free[k + 1];
    }
    forall b: nat | b < |links| ensures b in l <==> links[head := OWNED][b] != OWNED {
      assert b in free <==> b == free[0] || b in l;
    }
  }

  lemma PutHead(links: seq<int>, head: int, free: seq<nat>, b: nat)
    requires Threaded(links, head, free) && b < |links| && links[b] == OWNED
    ensures Threaded(links[b := head], b, [b] + free) && b !in free
  {
    var l := [b] + free;
    assert b !in free;
    forall k {:trigger l[k]} | 0 <= k < |l|
      ensures l[k] < |links| && links[b := head][l[k]] == if k + 1 < |l| then l[k + 1] else NULL
    {
      if k > 0 {
        assert l[k] == free[k - 1];
        assert free[k - 1] in free;
      }
    }
    forall x: nat | x < |links| ensures x in l <==> links[b := head][x] != OWNED {
      assert x in free <==> links[x] != OWNED;
    }
    assert l[0] == b;
  }

  class Pool {
    const links: array<int>              // the first word of every block
    var blockList: int
    var freeCount: nat                   // block_free_count
    var sleepers: seq<Tid>
    var ph: Phases
    ghost var free: seq<nat>

    /** The counter is the length of the free list, and nobody oversleeps. */
    ghost predicate Valid()
      reads this, links
    {
      && Threaded(links[..], blockList, free) && freeCount == |free|
      && InQueue(ph, POOL, sleepers)
      && NoneLost(ph, POOL, sleepers, freeCount)
    }

    /** rt_mp_init with room for at least one block */
    constructor (blocks: nat, threads: set<Tid>)
      requires blocks > 0
      ensures Valid() && links.Length == blocks && fresh(links) && freeCount == blocks
      ensures free == seq(blocks, k => k)
    {
      links := new int[blocks];
      blockList, freeCount := 0, blocks;
      sleepers := [];
      ph := map t | t in threads :: Idle;
      free := seq(blocks, k => k);
      new;
      for offset := 0 to blocks
        modifies links
        invariant forall k {:trigger links[k]} :: 0 <= k < offset ==> links[k] == k + 1
      {
        links[offset] := offset + 1;
      }
      links[blocks - 1] := NULL;
      assert free[0] == 0;
      forall b: nat | b < blocks ensures b in free {
        assert free[b] == b;
      }
    }

    /** The locked region of rt_mp_alloc, from its start or after a wakeup. */
    method AllocRegion(t: Tid, mayWait: bool) returns (r: Outcome)
      requires Valid() && t in ph && (ph[t].Idle? || IsDue(ph[t], POOL))
      modifies this, links
      ensures Valid()
      ensures old(free) == [] ==>
                r == (if mayWait then Sleeps else NoBlock) && free == [] && links[..] == old(links[..])
      ensures old(free) != [] ==> r == Got(old(free)[0]) && free == old(free)[1..] && sleepers == old(sleepers)
      ensures r.Got? ==> links[..] == old(links[..])[r.block := OWNED]
      ensures r.Sleeps? ==> sleepers == [t] + old(sleepers) && ph == old(ph)[t := Asleep(POOL, 0)]
      ensures !r.Sleeps? ==> ph == old(ph)[t := Idle]
    {
      ghost var was := links[..];
      if freeCount == 0 {
        if !mayWait {
          Untouched(ph, t, Idle, POOL, sleepers);
          ph := ph[t := Idle];
          return NoBlock;
        }
        FallAsleep(ph, t, POOL, 0, sleepers, 0);
        assert sleepers[..0] + [t] + sleepers[0..] == [t] + sleepers;
        ph := ph[t := Asleep(POOL, 0)];
        sleepers := [t] + sleepers;
        return Sleeps;
      }
      TakeHead(was, blockList, free);
      Untouched(ph, t, Idle, POOL, sleepers);
      DueStep(ph, t, Idle, POOL);
      hide Threaded, InQueue, Due;
      freeCount := freeCount - 1;
      var block := blockList;
      blockList := links[block];
      links[block] := OWNED;
      assert links[..] == was[block := OWNED];
      free := free[1..];
      ph := ph[t := Idle];
      r := Got(block);
    }

    /** rt_mp_free of a block that is handed out: it is the next to be served, and the latest sleeper is woken. */
    method Free(block: nat)
      requires Valid() && block < links.Length && links[block] == OWNED
      modifies this, links
      ensures Valid() && free == [block] + old(free)
      ensures links[..] == old(links[..])[block := old(blockList)]
      ensures old(sleepers) == [] ==> ph == old(ph) && sleepers == []
      ensures old(sleepers) != [] ==> var t := old(sleepers)[0];
                t in old(ph) && ph == old(ph)[t := Woken(POOL, 0, true)] && sleepers == Remove(old(sleepers), t)
    {
      ghost var was := links[..];
      PutHead(was, blockList, free, block);
      hide Threaded;
      freeCount := freeCount + 1;
      links[block] := blockList;
      assert links[..] == was[block := blockList];
      blockList := block;
      free := [block] + free;
      if sleepers != [] {
        var t := sleepers[0];
        assert t in sleepers;
        WakeUp(ph, t, Woken(POOL, 0, true), sleepers);
        DueStep(ph, t, Woken(POOL, 0, true), POOL);
        ph := ph[t := Woken(POOL, 0, true)];
        sleepers := Remove(sleepers, t);
      }
    }

    /** _thread_timeout of a sleeping thread */
    method Timeout(t: Tid)
      requires Valid() && t in ph && ph[t].Asleep? && ph[t].queue == POOL
      modifies this`ph, this`sleepers
      ensures Valid() && ph == old(ph)[t := Woken(POOL, 0, false)] && sleepers == Remove(old(sleepers), t)
    {
      WakeUp(ph, t, Woken(POOL, 0, false), sleepers);
      DueStep(ph, t, Woken(POOL, 0, false), POOL);
      ph := ph[t := Woken(POOL, 0, false)];
      sleepers := Remove(sleepers, t);
    }

    /** A thread resumed with an error leaves its call without looking at the pool again. */
    method Fail(t: Tid)
      requires Valid() && t in ph && ph[t].Woken? && !ph[t].ok
      modifies this`ph
      ensures Valid() && ph == old(ph)[t := Idle]
    {
      DueStep(ph, t, Idle, POOL);
      ph := ph[t := Idle];
    }

    /** When every thread resumed to try again has run, threads sleep only while the pool is exhausted. */
    lemma RestsOnlyWithoutBlocks()
      requires Valid() && sleepers != [] && forall t :: t in ph ==> !IsDue(ph[t], POOL)
      ensures freeCount == 0 && blockList == NULL
    {
      NothingLeft(ph, POOL, sleepers, freeCount);
    }
  }
}
