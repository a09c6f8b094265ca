/** Dropping a waiter: rt_mutex_drop_thread, and exactly when it leaves every inherited priority exact. */
module MutexDrop {
  import opened Lists
  import opened MutexModel
  import opened MutexSteps

  /** t leaves the queue it waits in, as when it is deleted; the cached priority of that mutex follows. */
  function Dropped(s: System, t: ThreadId): System
    requires WellFormed(s) && t in s.threads && s.threads[t].pending.Some? && ThreadLinked(s, t)
  {
    var m := s.threads[t].pending.value;
    var waiters := Remove(s.mutexes[m].waiters, t);
    var threads := s.threads[t := s.threads[t].(pending := None)];
    System(threads, s.mutexes[m := s.mutexes[m].(waiters := waiters, priority := HeadPriority(s.threads, waiters))])
  }

  lemma DroppedWellFormed(s: System, t: ThreadId)
    requires Prioritized(s) && WellFormed(s) && t in s.threads && s.threads[t].pending.Some? && ThreadLinked(s, t)
    ensures WellFormed(Dropped(s, t))
  {
    var s' := Dropped(s, t);
    var m := s.threads[t].pending.value;
    assert MutexLinked(s, m) && QueueOk(s, m);
    RemoveSorted(s.threads, s.mutexes[m].waiters, t);
    RemoveDistinct(s.mutexes[m].waiters, t);
    forall n | n in s'.mutexes ensures MutexLinked(s', n) && QueueOk(s', n) {
      assert MutexLinked(s, n) && QueueOk(s, n);
      SameCurrentsSorted(s.threads, s'.threads, s'.mutexes[n].waiters);
    }
    forall x | x in s'.threads ensures ThreadLinked(s', x) {
      assert ThreadLinked(s, x);
    }
    WaitersExist(s');
  }

  /** Only the owner's equation can be off afterwards, and only if it ran at the dropped thread's priority. */
  lemma DroppedCurrents(s: System, t: ThreadId)
    requires Prioritized(s) && WellFormed(s) && t in s.threads && s.threads[t].pending.Some? && ThreadLinked(s, t)
    requires Next(s, t).Some?
    ensures var o := Next(s, t).value;
            && o in s.threads && o != t
            && CurrentsOkExcept(Dropped(s, t), Some(o))
            && (s.threads[o].current != s.threads[t].current ==> CurrentOk(Dropped(s, t), o))
            && (forall n :: n in s.threads[o].taken ==> n in s.mutexes)
            && s.threads[o].current <= Highest(Dropped(s, t).mutexes, s.threads[o].init, s.threads[o].taken)
  {
    var s' := Dropped(s, t);
    var m := s.threads[t].pending.value;
    assert MutexLinked(s, m) && QueueOk(s, m);
    var o := Next(s, t).value;
    assert CurrentOk(s, o) && ThreadLinked(s, o);
    forall x | x in s'.threads && x != o ensures CurrentOk(s', x) {
      assert ThreadLinked(s, x) && CurrentOk(s, x);
      SameHighest(s.mutexes, s'.mutexes, s.threads[x].init, s.threads[x].taken);
    }
    DroppedHead(s, t);
  }

  lemma DroppedHead(s: System, t: ThreadId)
    requires Prioritized(s) && WellFormed(s) && t in s.threads && s.threads[t].pending.Some? && ThreadLinked(s, t)
    ensures var m := s.threads[t].pending.value;
            var h := Dropped(s, t).mutexes[m].priority;
            h == s.mutexes[m].priority || (s.mutexes[m].priority == s.threads[t].current && h >= s.threads[t].current)
  {
    var m := s.threads[t].pending.value;
    assert MutexLinked(s, m) && QueueOk(s, m);
    var waiters := s.mutexes[m].waiters;
    SortedTail(s.threads, waiters);
    if waiters[0] == t {
      assert t !in waiters[1..];
      assert forall w :: w in waiters[1..] ==> w in waiters;
    }
    assert CurrentOk(s, t);
  }

  /** Forgetting a thread that holds nothing and waits for nothing. */
  function Forgotten(s: System, t: ThreadId): System {
    System(s.threads - {t}, s.mutexes)
  }

  lemma ForgottenPrioritized(s: System, t: ThreadId)
    requires Prioritized(s) && t in s.threads && s.threads[t].pending.None? && s.threads[t].taken == []
    ensures Prioritized(Forgotten(s, t))
  {
    var s' := Forgotten(s, t);
    assert ThreadLinked(s, t);
    forall n | n in s'.mutexes ensures MutexLinked(s', n) && QueueOk(s', n) {
      assert MutexLinked(s, n) && QueueOk(s, n);
    }
    forall x | x in s'.threads ensures ThreadLinked(s', x) && CurrentOk(s', x) {
      assert ThreadLinked(s, x) && CurrentOk(s, x);
    }
  }

  lemma DropKeepsAcyclic(s: System, t: ThreadId, s': System)
    requires WellFormed(s) && t in s.threads && s.threads[t].pending.Some? && ThreadLinked(s, t)
    requires SameShape(Forgotten(Dropped(s, t), t), s') && Acyclic(s)
    ensures Acyclic(s')
  {
    var rank: map<ThreadId, nat> :| Ranks(s, rank);
    var rank' := rank - {t};
    forall x | x in s'.threads && Next(s', x).Some? && Next(s', x).value in s'.threads
      ensures rank'[x] < rank'[Next(s', x).value]
    {
      assert Next(s', x) == Next(s, x);
    }
    assert Ranks(s', rank');
  }

  // ---------------------------------------------------------------- when a drop is exact

  /** What dropping t, which holds nothing, may do: priorities up its chain of owners become less urgent. */
  ghost predicate DropOutcome(s: System, t: ThreadId, s': System)
    requires WellFormed(s) && t in s.threads && s.threads[t].pending.Some? && ThreadLinked(s, t)
  {
    && SameShape(Forgotten(Dropped(s, t), t), s')
    && (forall x :: x in s'.threads ==> s.threads[x].current <= s'.threads[x].current)
    && (forall x :: x in s'.threads && s'.threads[x].current != s.threads[x].current
          ==> !OnCycle(s, x) && exists k: nat :: BlockedOn(s, t, x, k))
  }

  /** Some other thread than t lends x its priority. */
  ghost predicate LentWithout(s: System, t: ThreadId, x: ThreadId)
    requires x in s.threads
  {
    exists u: ThreadId, j: nat :: u != t && Lends(s, u, x, j, s.threads[x].current)
  }

  /** Every deadlocked thread that t is blocked on would keep its priority without t. */
  ghost predicate CyclesStillLent(s: System, t: ThreadId) {
    forall x: ThreadId, k: nat {:trigger BlockedOn(s, t, x, k)} ::
      x in s.threads && BlockedOn(s, t, x, k) && OnCycle(s, x) ==> LentWithout(s, t, x)
  }

  /** Nobody is blocked on a thread that holds nothing; the other waits are the same after t has gone. */
  lemma {:induction false} DropBlocks(s: System, t: ThreadId, s': System, u: ThreadId, x: ThreadId, k: nat)
    requires WellFormed(s) && t in s.threads && s.threads[t].pending.Some? && ThreadLinked(s, t)
    requires s.threads[t].taken == []
    requires SameShape(Forgotten(Dropped(s, t), t), s') && u != t
    ensures BlockedOn(s, u, x, k) <==> BlockedOn(s', u, x, k)
    ensures BlockedOn(s, u, x, k) ==> x != t
    decreases k
  {
    assert Next(s', u) == Next(s, u);
    if k > 0 && Next(s, u).Some? {
      assert MutexLinked(s, s.threads[u].pending.value);
      assert Next(s, u).value != t;
      DropBlocks(s, t, s', Next(s, u).value, x, k - 1);
    }
  }

  /** The drop as the kernel carries it out, from its pieces. */
  lemma DropOutcomeFrom(s: System, t: ThreadId, s2: System)
    requires WellFormed(s) && t in s.threads && s.threads[t].pending.Some? && ThreadLinked(s, t)
    requires s.threads[t].taken == []
    requires Next(s, t).Some? && Lowered(Dropped(s, t), s2, Next(s, t).value)
    ensures DropOutcome(s, t, Forgotten(s2, t))
  {
    var d, s', o := Dropped(s, t), Forgotten(s2, t), Next(s, t).value;
    assert MutexLinked(s, s.threads[t].pending.value);
    forall x | x in s'.threads && s'.threads[x].current != s.threads[x].current
      ensures !OnCycle(s, x) && exists k: nat :: BlockedOn(s, t, x, k)
    {
      var k: nat :| BlockedOn(d, o, x, k);
      DroppedBlocks(s, t, o, x, k);
      assert BlockedOn(s, t, x, k + 1);
      if OnCycle(s, x) {
        var j: nat :| j > 0 && BlockedOn(s, x, x, j);
        DroppedBlocks(s, t, x, x, j);
      }
    }
  }

  lemma {:induction false} DroppedBlocks(s: System, t: ThreadId, u: ThreadId, x: ThreadId, k: nat)
    requires WellFormed(s) && t in s.threads && s.threads[t].pending.Some? && ThreadLinked(s, t)
    requires s.threads[t].taken == []
    requires u != t
    ensures BlockedOn(s, u, x, k) <==> BlockedOn(Dropped(s, t), u, x, k)
    decreases k
  {
    assert Next(Dropped(s, t), u) == Next(s, u);
    if k > 0 && Next(s, u).Some? {
      assert MutexLinked(s, s.threads[u].pending.value);
      DroppedBlocks(s, t, Next(s, u).value, x, k - 1);
    }
  }

  /** Following the lenders back from x ends at a thread that runs at its own priority, or runs into a cycle. */
  ghost predicate FromCycle(s: System, x: ThreadId)
    requires x in s.threads
  {
    exists c: ThreadId, k: nat ::
      c in s.threads && BlockedOn(s, c, x, k) && OnCycle(s, c) && s.threads[c].current == s.threads[x].current
  }

  lemma {:induction false} LentOrFromCycle(s: System, x: ThreadId, h: ThreadId, k: nat, seen: set<ThreadId>)
    requires Prioritized(s) && x in s.threads && h in s.threads && BlockedOn(s, h, x, k)
    requires s.threads[h].current == s.threads[x].current
    requires forall v :: v in seen ==> WaitsFor(s, h, v)
    ensures Supported(s, x, s.threads[x].current) || FromCycle(s, x)
    decreases s.threads.Keys - seen
  {
    assert CurrentOk(s, h) && ThreadLinked(s, h);
    var p := s.threads[h].current;
    if h in seen {
      assert OnCycle(s, h);
    } else if p == s.threads[h].init {
      assert Lends(s, h, x, k, p);
    } else {
      var m :| m in s.threads[h].taken && s.mutexes[m].priority == p;
      assert QueueOk(s, m) && MutexLinked(s, m);
      var g := s.mutexes[m].waiters[0];
      assert g in s.mutexes[m].waiters && Next(s, g) == Some(h);
      assert BlockedOn(s, h, h, 0) && BlockedOn(s, g, h, 1) && BlockedOn(s, g, x, k + 1);
      forall v | v in seen + {h} ensures WaitsFor(s, g, v) {
        if v != h {
          var j: nat :| j > 0 && BlockedOn(s, h, v, j);
          assert BlockedOn(s, g, v, j + 1);
        } else {
          assert BlockedOn(s, g, v, 1);
        }
      }
      LentOrFromCycle(s, x, g, k + 1, seen + {h});
    }
  }

  /** Only the deadlocked threads decide whether the local equations make every priority exact. */
  lemma GoodIfCyclesLent(s: System)
    requires Prioritized(s)
    requires forall c :: c in s.threads && OnCycle(s, c) ==> Supported(s, c, s.threads[c].current)
    ensures Good(s)
  {
    forall x | x in s.threads ensures Supported(s, x, s.threads[x].current) {
      assert BlockedOn(s, x, x, 0);
      LentOrFromCycle(s, x, x, 0, {});
      if FromCycle(s, x) {
        var c: ThreadId, k: nat :|
          c in s.threads && BlockedOn(s, c, x, k) && OnCycle(s, c) && s.threads[c].current == s.threads[x].current;
        var u: ThreadId, j: nat :| Lends(s, u, c, j, s.threads[c].current);
        BlockedOnJoin(s, u, c, x, j, k);
        assert Lends(s, u, x, j + k, s.threads[x].current);
      }
    }
  }

  /** A deadlocked thread keeps its priority and its lender when that lender is not t. */
  lemma CycleKeepsLender(s: System, t: ThreadId, s': System, c: ThreadId)
    requires WellFormed(s) && t in s.threads && s.threads[t].pending.Some? && ThreadLinked(s, t)
    requires s.threads[t].taken == []
    requires DropOutcome(s, t, s') && c in s'.threads && OnCycle(s, c) && LentWithout(s, t, c)
    ensures Supported(s', c, s'.threads[c].current)
  {
    var u: ThreadId, j: nat :| u != t && Lends(s, u, c, j, s.threads[c].current);
    DropBlocks(s, t, s', u, c, j);
    assert Lends(s', u, c, j, s'.threads[c].current);
  }

  lemma CycleAfterDrop(s: System, t: ThreadId, s': System, c: ThreadId)
    requires WellFormed(s) && t in s.threads && s.threads[t].pending.Some? && ThreadLinked(s, t)
    requires s.threads[t].taken == []
    requires SameShape(Forgotten(Dropped(s, t), t), s') && c != t
    ensures OnCycle(s', c) <==> OnCycle(s, c)
  {
    forall k: nat ensures BlockedOn(s, c, c, k) <==> BlockedOn(s', c, c, k) {
      DropBlocks(s, t, s', c, c, k);
    }
  }

  /**
   * Dropping t leaves every inherited priority exact if and only if each deadlocked thread that t is blocked on is
   * lent its priority by some thread other than t.
   */
  lemma DropExact(s: System, t: ThreadId, s': System)
    requires Good(s) && WellFormed(s) && t in s.threads && s.threads[t].pending.Some? && ThreadLinked(s, t)
    requires s.threads[t].taken == [] && DropOutcome(s, t, s') && Prioritized(s')
    ensures Good(s') <==> CyclesStillLent(s, t)
  {
    if CyclesStillLent(s, t) {
      forall c | c in s'.threads && OnCycle(s', c) ensures Supported(s', c, s'.threads[c].current) {
        CycleAfterDrop(s, t, s', c);
        StillLent(s, t, c);
        CycleKeepsLender(s, t, s', c);
      }
      GoodIfCyclesLent(s');
    }
    if Good(s') {
      forall x: ThreadId, k: nat | x in s.threads && BlockedOn(s, t, x, k) && OnCycle(s, x)
        ensures LentWithout(s, t, x)
      {
        NotOnCycle(s, t);
        assert Supported(s', x, s'.threads[x].current);
        var u: ThreadId, j: nat :| Lends(s', u, x, j, s'.threads[x].current);
        DropBlocks(s, t, s', u, x, j);
        assert Lends(s, u, x, j, s.threads[x].current);
      }
    }
  }

  /** A deadlocked thread is lent its priority without t, since t is not blocked on it or the condition says so. */
  lemma StillLent(s: System, t: ThreadId, c: ThreadId)
    requires Good(s) && CyclesStillLent(s, t) && c in s.threads && c != t && OnCycle(s, c)
    ensures LentWithout(s, t, c)
  {
    assert Supported(s, c, s.threads[c].current);
    var u: ThreadId, j: nat :| Lends(s, u, c, j, s.threads[c].current);
    assert u == t ==> BlockedOn(s, t, c, j);
  }

  lemma NotOnCycle(s: System, t: ThreadId)
    requires WellFormed(s) && t in s.threads && s.threads[t].pending.Some? && ThreadLinked(s, t)
    requires s.threads[t].taken == []
    ensures !OnCycle(s, t)
  {
    if OnCycle(s, t) {
      var k: nat :| k > 0 && BlockedOn(s, t, t, k);
      assert MutexLinked(s, s.threads[t].pending.value);
      DropBlocks(s, t, Forgotten(Dropped(s, t), t), Next(s, t).value, t, k - 1);
    }
  }

  lemma DropFacts(s: System, t: ThreadId)
    requires Prioritized(s) && t in s.threads && s.threads[t].pending.Some?
    ensures WellFormed(s) && ThreadLinked(s, t) && s.threads[t].suspended
  {
    WaitersExist(s);
  }

  /** What rt_mutex_drop_thread can rely on once t has left its queue. */
  lemma DropReady(s: System, t: ThreadId)
    requires Prioritized(s) && WellFormed(s) && t in s.threads && s.threads[t].pending.Some? && ThreadLinked(s, t)
    ensures var m := s.threads[t].pending.value;
            && m in s.mutexes && s.mutexes[m].owner.Some? && Next(s, t) == s.mutexes[m].owner
            && (forall w :: w in s.mutexes[m].waiters ==> w in s.threads) && s.mutexes[m].owner.value in s.threads
            && var d, o := Dropped(s, t), s.mutexes[m].owner.value;
            && o in d.threads && o != t && (forall n :: n in d.threads[o].taken ==> n in d.mutexes)
            && var q := Highest(d.mutexes, d.threads[o].init, d.threads[o].taken);
            && (s.threads[o].current != s.threads[t].current || q == d.threads[o].current ==>
                  Prioritized(d) && WellFormed(d) && Lowered(d, d, o))
            && (q != d.threads[o].current ==>
                  MayUpdate(d, o, q) && forall s2 :: Propagated(d, s2, o, q) ==> Lowered(d, s2, o))
  {
    var m := s.threads[t].pending.value;
    assert MutexLinked(s, m);
    DroppedWellFormed(s, t);
    DroppedCurrents(s, t);
    var d, o := Dropped(s, t), s.mutexes[m].owner.value;
    assert ThreadLinked(d, o);
  }

  lemma StillThere(s: System, t: ThreadId, s2: System)
    requires WellFormed(s) && t in s.threads && s.threads[t].pending.Some? && ThreadLinked(s, t)
    requires Next(s, t).Some? && Lowered(Dropped(s, t), s2, Next(s, t).value)
    ensures t in s2.threads && s2.threads[t].suspended
  {
  }

  /** The whole drop, once the priorities have been updated. */
  lemma DropDone(s: System, t: ThreadId, s2: System)
    requires Prioritized(s) && WellFormed(s) && t in s.threads && s.threads[t].pending.Some? && ThreadLinked(s, t)
    requires s.threads[t].taken == [] && Next(s, t).Some? && Prioritized(s2)
    requires Lowered(Dropped(s, t), s2, Next(s, t).value)
    ensures var s' := Forgotten(s2, t);
            && Prioritized(s') && DropOutcome(s, t, s')
            && (Good(s) ==> (Good(s') <==> CyclesStillLent(s, t)))
            && (Acyclic(s) ==> Good(s'))
  {
    var s' := Forgotten(s2, t);
    ForgottenPrioritized(s2, t);
    DropOutcomeFrom(s, t, s2);
    if Good(s) {
      DropExact(s, t, s');
    }
    if Acyclic(s) {
      DropKeepsAcyclic(s, t, s');
      AcyclicIsGood(s');
    }
  }

  /**
   * A drop can leave threads of a deadlock above anything that waits for them. Threads 0 and 1 wait for each
   * other's mutex; once thread 9 is dropped they keep lending each other its priority.
   */
  function Deadlock(): System {
    System(
      map[0 := Thread(10, 1, true, Some(2), [1]),
          1 := Thread(10, 1, true, Some(1), [2]),
          9 := Thread(1, 1, true, Some(1), [])],
      map[1 := Mutex(Some(0), 1, 1, [9, 1]),
          2 := Mutex(Some(1), 1, 1, [0])])
  }

  lemma DeadlockLinked()
    ensures WellFormed(Deadlock())
  {
    var s := Deadlock();
    hide Highest;
    forall m | m in s.mutexes ensures MutexLinked(s, m) && QueueOk(s, m) {
      assert m == 1 || m == 2;
    }
    forall t | t in s.threads ensures ThreadLinked(s, t) {
      assert t == 0 || t == 1 || t == 9;
    }
  }

  lemma DeadlockCurrents()
    ensures CurrentsOkExcept(Deadlock(), None)
  {
    var s := Deadlock();
    forall t | t in s.threads ensures CurrentOk(s, t) {
      if t == 0 {
        assert 1 in s.threads[0].taken;
      } else if t == 1 {
        assert 2 in s.threads[1].taken;
      }
    }
  }

  lemma DeadlockGood()
    ensures Good(Deadlock())
  {
    DeadlockLinked();
    DeadlockCurrents();
    var s := Deadlock();
    assert BlockedOn(s, 1, 1, 0) && BlockedOn(s, 0, 0, 0) && BlockedOn(s, 9, 9, 0);
    assert Next(s, 9) == Some(0) && Next(s, 0) == Some(1);
    assert BlockedOn(s, 9, 0, 1);
    assert BlockedOn(s, 0, 1, 1);
    assert BlockedOn(s, 9, 1, 2);
    assert Lends(s, 9, 9, 0, 1) && Lends(s, 9, 0, 1, 1) && Lends(s, 9, 1, 2, 1);
    assert Supported(s, 9, 1) && Supported(s, 0, 1) && Supported(s, 1, 1);
  }

  lemma DropInDeadlockInexact()
    ensures Good(Deadlock()) && WellFormed(Deadlock()) && ThreadLinked(Deadlock(), 9)
    ensures var s' := Forgotten(Dropped(Deadlock(), 9), 9);
            Prioritized(s') && !IsInheritedPriority(s', 0, s'.threads[0].current)
  {
    DeadlockGood();
    DeadlockLinked();
    assert ThreadLinked(Deadlock(), 9);
    DeadlockDroppedPrioritized();
    var s' := Forgotten(Dropped(Deadlock(), 9), 9);
    assert forall u :: u in s'.threads ==> s'.threads[u].init == 10;
  }

  lemma DeadlockDroppedPrioritized()
    requires Good(Deadlock()) && WellFormed(Deadlock()) && ThreadLinked(Deadlock(), 9)
    ensures Prioritized(Forgotten(Dropped(Deadlock(), 9), 9))
  {
    var s := Deadlock();
    var d := Dropped(s, 9);
    DroppedWellFormed(s, 9);
    DeadlockDropped();
    forall t | t in d.threads ensures CurrentOk(d, t) {
      assert CurrentOk(s, t);
      SameHighest(s.mutexes, d.mutexes, s.threads[t].init, s.threads[t].taken);
    }
    ForgottenPrioritized(d, 9);
  }

  lemma DeadlockDropped()
    ensures WellFormed(Deadlock()) && ThreadLinked(Deadlock(), 9)
    ensures Dropped(Deadlock(), 9).mutexes[1].priority == 1 && Dropped(Deadlock(), 9).mutexes[2].priority == 1
  {
    DeadlockLinked();
    assert ThreadLinked(Deadlock(), 9);
    RemoveSplits([9, 1], 9, 0);
  }
}
