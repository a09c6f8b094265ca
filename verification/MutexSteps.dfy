/** The state changes behind mutex take, release and drop, each shown to keep the invariants of MutexModel. */
module MutexSteps {
  import opened Lists
  import opened MutexModel
  import Waiting

  /** Where a thread of priority p goes: behind every waiter that is not strictly less urgent. */
  function Slot(threads: map<ThreadId, Thread>, waiters: seq<ThreadId>, p: nat): (i: nat)
    requires forall w :: w in waiters ==> w in threads
    ensures i <= |waiters|
    ensures forall j :: 0 <= j < i ==> threads[waiters[j]].current <= p
    ensures i < |waiters| ==> p < threads[waiters[i]].current
  {
    if waiters == [] || p < threads[waiters[0]].current then 0 else 1 + Slot(threads, waiters[1..], p)
  }

  /** The place depends on the priorities only. */
  lemma SameSlot(threads: map<ThreadId, Thread>, threads': map<ThreadId, Thread>, waiters: seq<ThreadId>, p: nat)
    requires forall w :: w in waiters ==> w in threads && w in threads' && threads'[w].current == threads[w].current
    ensures Slot(threads', waiters, p) == Slot(threads, waiters, p)
  {
  }

  function Currents(threads: map<ThreadId, Thread>): map<ThreadId, nat> {
    map t | t in threads :: threads[t].current
  }

  /** The place that _ipc_list_suspend finds. */
  lemma PlaceIsSlot(threads: map<ThreadId, Thread>, waiters: seq<ThreadId>, t: ThreadId, i: nat)
    requires t in threads && forall w :: w in waiters ==> w in threads
    requires Waiting.IsPlace(true, Currents(threads), waiters, t, i)
    ensures i == Slot(threads, waiters, threads[t].current)
  {
    var s := Slot(threads, waiters, threads[t].current);
    assert i < |waiters| ==> Currents(threads)[waiters[i]] == threads[waiters[i]].current;
    assert s < |waiters| ==> Currents(threads)[waiters[s]] == threads[waiters[s]].current;
  }

  function Queued(threads: map<ThreadId, Thread>, waiters: seq<ThreadId>, t: ThreadId): seq<ThreadId>
    requires t in threads && forall w :: w in waiters ==> w in threads
  {
    var i := Slot(threads, waiters, threads[t].current);
    waiters[..i] + [t] + waiters[i..]
  }

  lemma QueuedFirst(threads: map<ThreadId, Thread>, waiters: seq<ThreadId>, t: ThreadId)
    requires t in threads && forall w :: w in waiters ==> w in threads
    ensures waiters == [] || threads[t].current < threads[waiters[0]].current ==>
              Queued(threads, waiters, t) == [t] + waiters
    ensures waiters != [] && threads[waiters[0]].current <= threads[t].current ==>
              Queued(threads, waiters, t) == [waiters[0]] + Queued(threads, waiters[1..], t)
  {
  }

  lemma QueuedMembers(threads: map<ThreadId, Thread>, waiters: seq<ThreadId>, t: ThreadId)
    requires t in threads && forall w :: w in waiters ==> w in threads
    ensures forall w :: w in Queued(threads, waiters, t) <==> w == t || w in waiters
  {
    var i := Slot(threads, waiters, threads[t].current);
    assert waiters == waiters[..i] + waiters[i..];
  }

  lemma {:induction false} QueuedInOrder(threads: map<ThreadId, Thread>, waiters: seq<ThreadId>, t: ThreadId)
    requires t in threads && (forall w :: w in waiters ==> w in threads) && Sorted(threads, waiters)
    ensures forall w :: w in Queued(threads, waiters, t) <==> w == t || w in waiters
    ensures Sorted(threads, Queued(threads, waiters, t))
    decreases |waiters|
  {
    QueuedMembers(threads, waiters, t);
    QueuedFirst(threads, waiters, t);
    if waiters == [] {
    } else if threads[t].current < threads[waiters[0]].current {
      SortedTail(threads, waiters);
      SortedPrepend(threads, t, waiters);
    } else {
      SortedTail(threads, waiters);
      QueuedInOrder(threads, waiters[1..], t);
      SortedPrepend(threads, waiters[0], Queued(threads, waiters[1..], t));
    }
  }

  lemma SortedPrepend(threads: map<ThreadId, Thread>, a: ThreadId, waiters: seq<ThreadId>)
    requires a in threads && (forall w :: w in waiters ==> w in threads) && Sorted(threads, waiters)
    requires forall w :: w in waiters ==> threads[a].current <= threads[w].current
    ensures Sorted(threads, [a] + waiters)
  {
  }

  lemma SortedTail(threads: map<ThreadId, Thread>, waiters: seq<ThreadId>)
    requires (forall w :: w in waiters ==> w in threads) && Sorted(threads, waiters) && waiters != []
    ensures Sorted(threads, waiters[1..])
    ensures forall w :: w in waiters ==> threads[waiters[0]].current <= threads[w].current
  {
    forall w | w in waiters ensures threads[waiters[0]].current <= threads[w].current {
      var i :| 0 <= i < |waiters| && waiters[i] == w;
    }
  }

  lemma QueuedSorted(threads: map<ThreadId, Thread>, waiters: seq<ThreadId>, t: ThreadId)
    requires t in threads && forall w :: w in waiters ==> w in threads
    requires t !in waiters && NoDuplicates(waiters) && Sorted(threads, waiters)
    ensures var r := Queued(threads, waiters, t);
            && NoDuplicates(r)
            && (forall w :: w in r <==> w == t || w in waiters)
            && Sorted(threads, r)
  {
    InsertKeepsDistinct(waiters, Slot(threads, waiters, threads[t].current), t);
    QueuedInOrder(threads, waiters, t);
  }

  /** A queue keeps its order when none of its members changes priority. */
  lemma SameCurrentsSorted(threads: map<ThreadId, Thread>, threads': map<ThreadId, Thread>, waiters: seq<ThreadId>)
    requires forall w :: w in waiters ==> w in threads && w in threads' && threads'[w].current == threads[w].current
    requires Sorted(threads, waiters)
    ensures Sorted(threads', waiters) && HeadPriority(threads', waiters) == HeadPriority(threads, waiters)
  {
  }

  lemma {:induction false} RemoveSorted(threads: map<ThreadId, Thread>, waiters: seq<ThreadId>, t: ThreadId)
    requires forall w :: w in waiters ==> w in threads
    requires Sorted(threads, waiters)
    ensures Sorted(threads, Remove(waiters, t))
    decreases |waiters|
  {
    if waiters != [] {
      SortedTail(threads, waiters);
      RemoveSorted(threads, waiters[1..], t);
      if waiters[0] != t {
        SortedPrepend(threads, waiters[0], Remove(waiters[1..], t));
      }
    }
  }

  // ---------------------------------------------------------------- changing one priority

  /** t gets priority p and, if it waits for a mutex, is re-queued there; that mutex's cached priority follows. */
  function Requeued(s: System, t: ThreadId, p: nat): System
    requires t in s.threads
    requires forall m, w :: m in s.mutexes && w in s.mutexes[m].waiters ==> w in s.threads
  {
    var threads := s.threads[t := s.threads[t].(current := p)];
    if s.threads[t].suspended && s.threads[t].pending.Some? && s.threads[t].pending.value in s.mutexes then
      var m := s.threads[t].pending.value;
      var waiters := Queued(threads, Remove(s.mutexes[m].waiters, t), t);
      System(threads, s.mutexes[m := s.mutexes[m].(waiters := waiters, priority := HeadPriority(threads, waiters))])
    else
      System(threads, s.mutexes)
  }

  lemma WaitersExist(s: System)
    requires Linked(s)
    ensures forall m, w :: m in s.mutexes && w in s.mutexes[m].waiters ==> w in s.threads
  {
    forall m, w | m in s.mutexes && w in s.mutexes[m].waiters ensures w in s.threads {
      assert MutexLinked(s, m);
    }
  }

  ghost predicate WellFormed(s: System) {
    Linked(s) && QueuesOk(s) && forall m, w :: m in s.mutexes && w in s.mutexes[m].waiters ==> w in s.threads
  }

  /** The queue t waits in after the change. */
  lemma RequeuedQueue(s: System, t: ThreadId, p: nat)
    requires WellFormed(s) && t in s.threads && s.threads[t].pending.Some?
    ensures var m := s.threads[t].pending.value;
            var s' := Requeued(s, t, p);
            && m in s.mutexes && s.threads[t].suspended
            && QueueOk(s', m)
            && NoDuplicates(s'.mutexes[m].waiters)
            && forall w :: w in s.mutexes[m].waiters <==> w in s'.mutexes[m].waiters
  {
    assert ThreadLinked(s, t);
    var m := s.threads[t].pending.value;
    assert MutexLinked(s, m) && QueueOk(s, m);
    var threads := s.threads[t := s.threads[t].(current := p)];
    var rest := Remove(s.mutexes[m].waiters, t);
    RemoveSorted(s.threads, s.mutexes[m].waiters, t);
    RemoveDistinct(s.mutexes[m].waiters, t);
    SameCurrentsSorted(s.threads, threads, rest);
    QueuedSorted(threads, rest, t);
  }

  lemma RequeuedShape(s: System, t: ThreadId, p: nat)
    requires WellFormed(s) && t in s.threads
    ensures SameShape(s, Requeued(s, t, p))
  {
    assert ThreadLinked(s, t);
    if s.threads[t].pending.Some? {
      RequeuedQueue(s, t, p);
    }
  }

  lemma SameShapeLinked(s: System, s': System)
    requires Linked(s) && SameShape(s, s')
    requires forall m :: m in s'.mutexes ==> NoDuplicates(s'.mutexes[m].waiters)
    ensures Linked(s')
  {
    forall m | m in s'.mutexes ensures MutexLinked(s', m) {
      assert MutexLinked(s, m);
      assert s'.mutexes[m].waiters != [] ==> s'.mutexes[m].waiters[0] in s.mutexes[m].waiters;
    }
    forall t | t in s'.threads ensures ThreadLinked(s', t) {
      assert ThreadLinked(s, t);
    }
  }

  lemma RequeuedWellFormed(s: System, t: ThreadId, p: nat)
    requires WellFormed(s) && t in s.threads
    ensures WellFormed(Requeued(s, t, p))
  {
    var s' := Requeued(s, t, p);
    RequeuedShape(s, t, p);
    assert ThreadLinked(s, t);
    if s.threads[t].pending.Some? {
      RequeuedQueue(s, t, p);
    }
    forall m | m in s'.mutexes ensures NoDuplicates(s'.mutexes[m].waiters) {
      assert MutexLinked(s, m);
    }
    SameShapeLinked(s, s');
    forall m | m in s'.mutexes ensures QueueOk(s', m) {
      assert MutexLinked(s, m) && QueueOk(s, m);
      if s.threads[t].pending != Some(m) {
        assert t !in s.mutexes[m].waiters;
        SameCurrentsSorted(s.threads, s'.threads, s.mutexes[m].waiters);
      }
    }
    WaitersExist(s');
  }

  /** Highest looks at the taken mutexes' priorities only. */
  lemma SameHighest(mutexes: map<MutexId, Mutex>, mutexes': map<MutexId, Mutex>, init: nat, taken: seq<MutexId>)
    requires forall m :: m in taken ==> m in mutexes && m in mutexes' && mutexes'[m].priority == mutexes[m].priority
    ensures Highest(mutexes', init, taken) == Highest(mutexes, init, taken)
  {
  }

  /** Re-queueing t leaves every priority equation true except, possibly, that of the owner t waits for. */
  lemma RequeuedCurrents(s: System, t: ThreadId, p: nat)
    requires WellFormed(s) && t in s.threads && CurrentsOkExcept(s, Some(t))
    requires ThreadLinked(s, t) && p == Highest(s.mutexes, s.threads[t].init, s.threads[t].taken)
    ensures CurrentsOkExcept(Requeued(s, t, p), Next(s, t))
  {
    var s' := Requeued(s, t, p);
    forall x | x in s'.threads && Next(s, t) != Some(x) ensures CurrentOk(s', x) {
      assert ThreadLinked(s, x);
      assert x != t ==> CurrentOk(s, x);
      SameHighest(s.mutexes, s'.mutexes, s.threads[x].init, s.threads[x].taken);
    }
  }

  /**
   * How the owner's priority moves: a raise to p can only raise it to p, a drop from c can only drop one that was at
   * c.
   */
  lemma RequeuedOwner(s: System, t: ThreadId, p: nat, x: ThreadId)
    requires WellFormed(s) && t in s.threads && CurrentsOkExcept(s, Some(t)) && Next(s, t) == Some(x)
    ensures x in s.threads && x != t && ThreadLinked(Requeued(s, t, p), x)
    ensures var s' := Requeued(s, t, p);
            var c := s.threads[x].current;
            var q := Highest(s'.mutexes, s.threads[x].init, s.threads[x].taken);
            && (p <= s.threads[t].current ==> q == c || (q < c && q == p))
            && (p >= s.threads[t].current ==> q == c || (q > c && c == s.threads[t].current))
  {
    assert ThreadLinked(s, t);
    var m := s.threads[t].pending.value;
    assert MutexLinked(s, m);
    assert QueueOk(s, m);
    assert CurrentOk(s, x);
    var s' := Requeued(s, t, p);
    RequeuedWellFormed(s, t, p);
    assert ThreadLinked(s', x);
    RequeuedHead(s, t, p);
    var q := Highest(s'.mutexes, s.threads[x].init, s.threads[x].taken);
    assert m in s.threads[x].taken;
  }

  /** How the cached priority of the mutex moves. */
  lemma RequeuedHead(s: System, t: ThreadId, p: nat)
    requires WellFormed(s) && t in s.threads && s.threads[t].pending.Some?
    ensures var m := s.threads[t].pending.value;
            var s' := Requeued(s, t, p);
            && m in s.mutexes
            && (p <= s.threads[t].current ==>
                  var h := s'.mutexes[m].priority; h == p || (h == s.mutexes[m].priority && h <= p))
            && (p <= s.threads[t].current ==> s'.mutexes[m].priority <= s.mutexes[m].priority)
            && (p >= s.threads[t].current ==>
                  var h := s'.mutexes[m].priority;
                  h == s.mutexes[m].priority
                  || (h > s.mutexes[m].priority && s.mutexes[m].priority == s.threads[t].current))
  {
    assert ThreadLinked(s, t);
    var m := s.threads[t].pending.value;
    assert MutexLinked(s, m);
    assert QueueOk(s, m);
    RequeuedQueue(s, t, p);
    var s' := Requeued(s, t, p);
    var old_ := s.mutexes[m].waiters;
    var new_ := s'.mutexes[m].waiters;
    assert t in new_;
    HeadIsLeast(s.threads, old_, t);
    HeadIsLeast(s'.threads, new_, t);
    assert old_[0] in old_ && old_[0] in new_ && new_[0] in new_ && new_[0] in old_;
    HeadIsLeast(s.threads, old_, new_[0]);
    HeadIsLeast(s'.threads, new_, old_[0]);
  }

  lemma HeadIsLeast(threads: map<ThreadId, Thread>, waiters: seq<ThreadId>, w: ThreadId)
    requires (forall v :: v in waiters ==> v in threads) && Sorted(threads, waiters) && w in waiters
    ensures HeadPriority(threads, waiters) <= threads[w].current
  {
    var i :| 0 <= i < |waiters| && waiters[i] == w;
    assert i > 0 ==> threads[waiters[0]].current <= threads[waiters[i]].current;
  }

  // ---------------------------------------------------------------- termination of a boost

  /** The threads a change of one thread from c to p can still reach. */
  function Reachable(threads: map<ThreadId, Thread>, c: nat, p: nat): set<ThreadId> {
    if p < c then set x | x in threads && p < threads[x].current
    else set x | x in threads && threads[x].current == c
  }

  function Fuel(threads: map<ThreadId, Thread>, c: nat, p: nat): nat {
    |Reachable(threads, c, p)|
  }

  lemma SubsetSmaller<T>(a: set<T>, b: set<T>, x: T)
    requires a <= b && x in b && x !in a
    ensures |a| < |b|
  {
    var rest := b - {x};
    assert a <= rest && |b| == |rest| + 1;
    SubsetAtMost(a, rest);
  }

  lemma {:induction false} SubsetAtMost<T>(a: set<T>, b: set<T>)
    requires a <= b
    ensures |a| <= |b|
  {
    if x :| x in a {
      SubsetAtMost(a - {x}, b - {x});
    }
  }

  /** Each step up the chain uses up one thread: this is why a boost ends even when the waits form a cycle. */
  lemma BoostProgress(s: System, t: ThreadId, p: nat, x: ThreadId)
    requires WellFormed(s) && t in s.threads && CurrentsOkExcept(s, Some(t)) && Next(s, t) == Some(x)
    requires p != s.threads[t].current
    ensures var s' := Requeued(s, t, p);
            && x in s.threads && ThreadLinked(s', x)
            && var q := Highest(s'.mutexes, s.threads[x].init, s.threads[x].taken);
            (q != s.threads[x].current ==>
               Fuel(s'.threads, s.threads[x].current, q) < Fuel(s.threads, s.threads[t].current, p))
  {
    RequeuedOwner(s, t, p, x);
    var s' := Requeued(s, t, p);
    var c := s.threads[x].current;
    var q := Highest(s'.mutexes, s.threads[x].init, s.threads[x].taken);
    if q != c {
      SubsetSmaller(Reachable(s'.threads, c, q), Reachable(s.threads, s.threads[t].current, p), t);
    }
  }

  // ---------------------------------------------------------------- taking

  /** A free mutex goes to t. */
  function Grabbed(s: System, t: ThreadId, m: MutexId): System
    requires t in s.threads && m in s.mutexes
  {
    System(s.threads[t := s.threads[t].(taken := [m] + s.threads[t].taken)],
           s.mutexes[m := Mutex(Some(t), 1, NO_WAITER, s.mutexes[m].waiters)])
  }

  lemma GrabbedGood(s: System, t: ThreadId, m: MutexId)
    requires Good(s) && t in s.threads && m in s.mutexes
    requires s.mutexes[m].owner.None? && s.threads[t].pending.None?
    ensures Good(Grabbed(s, t, m))
  {
    GrabbedPrioritized(s, t, m);
    var s' := Grabbed(s, t, m);
    forall x | x in s'.threads ensures Supported(s', x, s'.threads[x].current) {
      assert Supported(s, x, s.threads[x].current);
      var u: ThreadId, k: nat :| Lends(s, u, x, k, s.threads[x].current);
      GrabbedBlocks(s, t, m, u, x, k);
      assert Lends(s', u, x, k, s.threads[x].current);
    }
  }

  lemma GrabbedPrioritized(s: System, t: ThreadId, m: MutexId)
    requires Prioritized(s) && t in s.threads && m in s.mutexes
    requires s.mutexes[m].owner.None? && s.threads[t].pending.None?
    ensures Prioritized(Grabbed(s, t, m))
  {
    var s' := Grabbed(s, t, m);
    assert MutexLinked(s, m) && QueueOk(s, m);
    forall n | n in s'.mutexes ensures MutexLinked(s', n) {
      assert MutexLinked(s, n);
    }
    forall n | n in s'.mutexes ensures QueueOk(s', n) {
      assert QueueOk(s, n);
    }
    forall x | x in s'.threads ensures ThreadLinked(s', x) && CurrentOk(s', x) {
      assert ThreadLinked(s, x) && CurrentOk(s, x);
      GrabbedThread(s, t, m, x);
    }
  }

  lemma GrabbedThread(s: System, t: ThreadId, m: MutexId, x: ThreadId)
    requires t in s.threads && m in s.mutexes && s.mutexes[m].owner.None? && s.mutexes[m].priority == NO_WAITER
    requires x in s.threads && ThreadLinked(s, x) && CurrentOk(s, x)
    ensures ThreadLinked(Grabbed(s, t, m), x) && CurrentOk(Grabbed(s, t, m), x)
  {
    hide Highest;
    var s' := Grabbed(s, t, m);
    SameHighest(s.mutexes, s'.mutexes, s.threads[x].init, s.threads[x].taken);
    if x == t {
      HighestPrepend(s'.mutexes, s.threads[x].init, m, s.threads[x].taken);
    }
  }

  lemma HighestPrepend(mutexes: map<MutexId, Mutex>, init: nat, m: MutexId, taken: seq<MutexId>)
    requires m in mutexes && init <= mutexes[m].priority && forall n :: n in taken ==> n in mutexes
    ensures Highest(mutexes, init, [m] + taken) == Highest(mutexes, init, taken)
  {
    var all := [m] + taken;
    assert forall n :: n in all <==> n == m || n in taken;
    var h := Highest(mutexes, init, all);
  }

  lemma {:induction false} GrabbedBlocks(s: System, t: ThreadId, m: MutexId, u: ThreadId, x: ThreadId, k: nat)
    requires Linked(s) && t in s.threads && m in s.mutexes && s.mutexes[m].owner.None? && BlockedOn(s, u, x, k)
    ensures BlockedOn(Grabbed(s, t, m), u, x, k)
    decreases k
  {
    if k > 0 {
      assert ThreadLinked(s, u);
      assert MutexLinked(s, m);
      GrabbedBlocks(s, t, m, Next(s, u).value, x, k - 1);
    }
  }

  /** t is suspended and queued on the owned mutex m; the cached priority of m follows. */
  function Enqueued(s: System, t: ThreadId, m: MutexId): System
    requires t in s.threads && m in s.mutexes
    requires forall w :: w in s.mutexes[m].waiters ==> w in s.threads
  {
    var threads := s.threads[t := s.threads[t].(suspended := true, pending := Some(m))];
    var waiters := Queued(s.threads, s.mutexes[m].waiters, t);
    System(threads, s.mutexes[m := s.mutexes[m].(waiters := waiters, priority := HeadPriority(threads, waiters))])
  }

  lemma EnqueuedWellFormed(s: System, t: ThreadId, m: MutexId)
    requires Prioritized(s) && WellFormed(s) && t in s.threads && m in s.mutexes
    requires s.threads[t].pending.None? && s.mutexes[m].owner.Some? && s.mutexes[m].owner != Some(t)
    ensures WellFormed(Enqueued(s, t, m))
  {
    var s' := Enqueued(s, t, m);
    forall n | n in s'.mutexes ensures MutexLinked(s', n) && QueueOk(s', n) {
      assert MutexLinked(s, n) && QueueOk(s, n);
      EnqueuedMutex(s, t, m, n);
    }
    forall x | x in s'.threads ensures ThreadLinked(s', x) {
      assert ThreadLinked(s, x);
      QueuedMembers(s.threads, s.mutexes[m].waiters, t);
    }
    WaitersExist(s');
  }

  lemma EnqueuedMutex(s: System, t: ThreadId, m: MutexId, n: MutexId)
    requires t in s.threads && m in s.mutexes && n in s.mutexes && MutexLinked(s, n) && QueueOk(s, n)
    requires s.threads[t].pending.None? && s.mutexes[m].owner.Some? && s.mutexes[m].owner != Some(t)
    requires forall w :: w in s.mutexes[m].waiters ==> w in s.threads
    ensures MutexLinked(Enqueued(s, t, m), n) && QueueOk(Enqueued(s, t, m), n)
  {
    var s' := Enqueued(s, t, m);
    if n == m {
      QueuedSorted(s.threads, s.mutexes[m].waiters, t);
      SameCurrentsSorted(s.threads, s'.threads, s'.mutexes[m].waiters);
    } else {
      SameCurrentsSorted(s.threads, s'.threads, s.mutexes[n].waiters);
    }
  }

  /** A new waiter more urgent than the old ones becomes the head; otherwise the head stays. */
  lemma EnqueuedHead(s: System, t: ThreadId, m: MutexId)
    requires Prioritized(s) && WellFormed(s) && t in s.threads && m in s.mutexes && ThreadLinked(s, t)
    requires CurrentOk(s, t)
    ensures var p := s.threads[t].current;
            Enqueued(s, t, m).mutexes[m].priority == if p < s.mutexes[m].priority then p else s.mutexes[m].priority
  {
    assert QueueOk(s, m);
    var waiters := s.mutexes[m].waiters;
    var i := Slot(s.threads, waiters, s.threads[t].current);
    if i > 0 {
      assert s.threads[waiters[0]].current <= s.threads[t].current;
    }
  }

  lemma EnqueuedReady(s: System, t: ThreadId, m: MutexId)
    requires Prioritized(s) && WellFormed(s) && t in s.threads && m in s.mutexes
    ensures forall w :: w in s.mutexes[m].waiters ==> w in s.threads
    ensures var p := s.threads[t].current;
            Enqueued(s, t, m).mutexes[m].priority == if p < s.mutexes[m].priority then p else s.mutexes[m].priority
  {
    assert ThreadLinked(s, t) && CurrentOk(s, t);
    EnqueuedHead(s, t, m);
  }

  /** One taken mutex becomes more urgent, to p at least. */
  lemma HighestLowered(mutexes: map<MutexId, Mutex>, mutexes': map<MutexId, Mutex>, init: nat, taken: seq<MutexId>,
                       m: MutexId, p: nat)
    requires m in taken && forall n :: n in taken ==> n in mutexes && n in mutexes'
    requires forall n :: n in taken && n != m ==> mutexes'[n] == mutexes[n]
    requires mutexes'[m].priority == if p < mutexes[m].priority then p else mutexes[m].priority
    ensures var h := Highest(mutexes, init, taken);
            && Highest(mutexes', init, taken) == (if p < h then p else h)
            && (p >= mutexes[m].priority ==> p >= h)
  {
    var h, h' := Highest(mutexes, init, taken), Highest(mutexes', init, taken);
    assert mutexes'[m].priority >= h';
    if h != init {
      var n :| n in taken && mutexes[n].priority == h;
      assert mutexes'[n].priority >= h';
    }
    if h' != init {
      var n :| n in taken && mutexes'[n].priority == h';
      assert mutexes[n].priority >= h;
    }
  }

  /** Only the owner's equation can be off, and then by exactly the new waiter's priority. */
  lemma EnqueuedCurrents(s: System, t: ThreadId, m: MutexId)
    requires Prioritized(s) && WellFormed(s) && t in s.threads && m in s.mutexes
    requires s.threads[t].pending.None? && s.mutexes[m].owner.Some? && s.mutexes[m].owner != Some(t)
    ensures var s' := Enqueued(s, t, m);
            var o := s.mutexes[m].owner.value;
            var p := s.threads[t].current;
            && o in s.threads && ThreadLinked(s', o)
            && CurrentsOkExcept(s', Some(o))
            && (Highest(s'.mutexes, s.threads[o].init, s.threads[o].taken)
                == if p < s.threads[o].current then p else s.threads[o].current)
            && (p >= s.mutexes[m].priority ==> p >= s.threads[o].current)
  {
    var s' := Enqueued(s, t, m);
    EnqueuedWellFormed(s, t, m);
    assert MutexLinked(s, m);
    var o := s.mutexes[m].owner.value;
    assert ThreadLinked(s', o) && CurrentOk(s, o) && ThreadLinked(s, t) && CurrentOk(s, t);
    EnqueuedHead(s, t, m);
    EnqueuedOthers(s, t, m, o);
    HighestLowered(s.mutexes, s'.mutexes, s.threads[o].init, s.threads[o].taken, m, s.threads[t].current);
  }

  lemma EnqueuedOthers(s: System, t: ThreadId, m: MutexId, o: ThreadId)
    requires Prioritized(s) && WellFormed(s) && t in s.threads && m in s.mutexes
    requires s.mutexes[m].owner == Some(o) && o in s.threads
    ensures CurrentsOkExcept(Enqueued(s, t, m), Some(o))
  {
    var s' := Enqueued(s, t, m);
    forall x | x in s'.threads && x != o ensures CurrentOk(s', x) {
      assert ThreadLinked(s, x) && CurrentOk(s, x);
      SameHighest(s.mutexes, s'.mutexes, s.threads[x].init, s.threads[x].taken);
    }
  }

  lemma {:induction false} EnqueuedBlocks(s: System, t: ThreadId, m: MutexId, u: ThreadId, x: ThreadId, k: nat)
    requires WellFormed(s) && t in s.threads && m in s.mutexes && s.threads[t].pending.None? && BlockedOn(s, u, x, k)
    ensures BlockedOn(Enqueued(s, t, m), u, x, k)
    decreases k
  {
    if k > 0 {
      EnqueuedBlocks(s, t, m, Next(s, u).value, x, k - 1);
    }
  }

  /** What a raise that starts at o may change: priorities up the chain of owners, each to exactly p. */
  ghost predicate RaisedTo(s: System, s': System, o: ThreadId, p: nat) {
    && SameShape(s, s')
    && forall x :: x in s.threads && s'.threads[x].current != s.threads[x].current
         ==> s'.threads[x].current == p && exists k: nat :: BlockedOn(s, o, x, k)
  }

  lemma {:induction false} BlockedOnJoin(s: System, u: ThreadId, v: ThreadId, x: ThreadId, j: nat, k: nat)
    requires BlockedOn(s, u, v, j) && BlockedOn(s, v, x, k)
    ensures BlockedOn(s, u, x, j + k)
    decreases j
  {
    if j > 0 {
      BlockedOnJoin(s, Next(s, u).value, v, x, j - 1, k);
    }
  }

  /** A thread that is alone in having a wrong equation, and a too urgent priority, is on no cycle of waits. */
  lemma LoweredOffCycle(s: System, t: ThreadId, p: nat)
    requires WellFormed(s) && t in s.threads && CurrentsOkExcept(s, Some(t)) && ThreadLinked(s, t)
    requires p == Highest(s.mutexes, s.threads[t].init, s.threads[t].taken) && p > s.threads[t].current
    ensures !OnCycle(s, t)
  {
    if OnCycle(s, t) {
      var k: nat :| k > 0 && BlockedOn(s, t, t, k);
      LentAlong(s, t, p, t, k);
    }
  }

  /** What the taken mutexes of t lend it is at least as urgent as any thread blocked on it. */
  lemma {:induction false} LentAlong(s: System, t: ThreadId, p: nat, v: ThreadId, k: nat)
    requires WellFormed(s) && t in s.threads && CurrentsOkExcept(s, Some(t)) && ThreadLinked(s, t)
    requires p == Highest(s.mutexes, s.threads[t].init, s.threads[t].taken)
    requires v in s.threads && k > 0 && BlockedOn(s, v, t, k)
    ensures p <= s.threads[v].current
    decreases k
  {
    assert ThreadLinked(s, v);
    var m := s.threads[v].pending.value;
    assert MutexLinked(s, m) && QueueOk(s, m);
    HeadIsLeast(s.threads, s.mutexes[m].waiters, v);
    var w := Next(s, v).value;
    if w != t {
      assert CurrentOk(s, w);
      LentAlong(s, t, p, w, k - 1);
    }
  }

  /**
   * What a drop that starts at o may change: priorities up the chain of owners become less urgent, but none on a
   * cycle of waits.
   */
  ghost predicate Lowered(s: System, s': System, o: ThreadId) {
    && SameShape(s, s')
    && (forall x :: x in s.threads ==> s.threads[x].current <= s'.threads[x].current)
    && (forall x :: x in s.threads && s'.threads[x].current != s.threads[x].current
          ==> !OnCycle(s, x) && exists k: nat :: BlockedOn(s, o, x, k))
  }

  /** Only t moved. */
  lemma LoweredHere(s: System, s': System, t: ThreadId, p: nat)
    requires WellFormed(s) && t in s.threads && s' == Requeued(s, t, p)
    requires s.threads[t].current <= p && !OnCycle(s, t)
    ensures Lowered(s, s', t)
  {
    RequeuedShape(s, t, p);
    assert BlockedOn(s, t, t, 0);
  }

  lemma SameShapeTrans(s: System, s': System, s'': System)
    requires SameShape(s, s') && SameShape(s', s'')
    ensures SameShape(s, s'') && s'.threads.Keys == s.threads.Keys && s''.threads.Keys == s.threads.Keys
  {
  }

  /** Only t and threads up the chain from its owner moved. */
  lemma LoweredOnward(s: System, s': System, s'': System, t: ThreadId, o: ThreadId, p: nat)
    requires WellFormed(s) && t in s.threads && s' == Requeued(s, t, p) && Next(s, t) == Some(o)
    requires s.threads[t].current <= p && !OnCycle(s, t) && Lowered(s', s'', o)
    ensures Lowered(s, s'', t)
  {
    RequeuedShape(s, t, p);
    SameShapeTrans(s, s', s'');
    hide OnCycle, BlockedOn, Requeued, SameShape, WellFormed;
    forall x | x in s.threads && s''.threads[x].current != s.threads[x].current
      ensures !OnCycle(s, x) && exists k: nat :: BlockedOn(s, t, x, k)
    {
      if s''.threads[x].current != s'.threads[x].current {
        ChainOnward(s, s', t, o, x);
      } else {
        OnlyMoved(s, t, p, x);
      }
    }
    forall x | x in s.threads ensures s.threads[x].current <= s''.threads[x].current {
      OnlyMoved(s, t, p, x);
    }
  }

  lemma OnlyMoved(s: System, t: ThreadId, p: nat, x: ThreadId)
    requires WellFormed(s) && t in s.threads && x in s.threads
    ensures var s' := Requeued(s, t, p);
            && x in s'.threads
            && (s'.threads[x].current != s.threads[x].current ==> x == t && BlockedOn(s, t, x, 0))
            && s'.threads[x].current == if x == t then p else s.threads[x].current
  {
  }

  lemma ChainOnward(s: System, s': System, t: ThreadId, o: ThreadId, x: ThreadId)
    requires SameShape(s, s') && Next(s, t) == Some(o)
    requires !OnCycle(s', x) && exists k: nat :: BlockedOn(s', o, x, k)
    ensures !OnCycle(s, x) && exists k: nat :: BlockedOn(s, t, x, k)
  {
    LinkOnward(s, s', t, o, x);
    if OnCycle(s, x) {
      SameShapeCycle(s, s', x);
    }
  }

  lemma SameShapeCycle(s: System, s': System, x: ThreadId)
    requires SameShape(s, s') && OnCycle(s, x)
    ensures OnCycle(s', x)
  {
    var k: nat :| k > 0 && BlockedOn(s, x, x, k);
    SameShapeBlocks(s, s', x, x, k);
  }

  /** What _thread_update_priority may change when it gives t priority p. */
  ghost predicate Propagated(s: System, s': System, t: ThreadId, p: nat)
    requires t in s.threads
  {
    && SameShape(s, s')
    && (p < s.threads[t].current ==> RaisedTo(s, s', t, p))
    && (p > s.threads[t].current ==> Lowered(s, s', t))
  }

  /** The state in which a call of _thread_update_priority may start: only t's equation is wrong, and p is right. */
  ghost predicate MayUpdate(s: System, t: ThreadId, p: nat) {
    && WellFormed(s) && t in s.threads && CurrentsOkExcept(s, Some(t)) && ThreadLinked(s, t)
    && (forall m :: m in s.threads[t].taken ==> m in s.mutexes)
    && p == Highest(s.mutexes, s.threads[t].init, s.threads[t].taken) && p != s.threads[t].current
  }

  /** What the recursive call, if there is one, can rely on once t has been re-queued. */
  lemma UpdateStep(s: System, t: ThreadId, p: nat)
    requires MayUpdate(s, t, p) && s.threads[t].pending.Some?
    ensures var m := s.threads[t].pending.value;
            && s.threads[t].suspended && m in s.mutexes && s.mutexes[m].owner.Some? && p <= s.threads[t].init
            && (forall w :: w in s.mutexes[m].waiters ==> w in s.threads)
            && (forall n, w :: n in s.mutexes && w in s.mutexes[n].waiters ==> w in s.threads)
            && var s', o := Requeued(s, t, p), s.mutexes[m].owner.value;
            && o in s'.threads && o != t && (forall n :: n in s'.threads[o].taken ==> n in s'.mutexes)
            && var q := Highest(s'.mutexes, s'.threads[o].init, s'.threads[o].taken);
            && Next(s, t) == Some(o)
            && (q == s'.threads[o].current ==> Prioritized(s') && WellFormed(s') && Propagated(s, s', t, p))
            && (q != s'.threads[o].current ==>
                  && MayUpdate(s', o, q)
                  && Fuel(s'.threads, s'.threads[o].current, q) < Fuel(s.threads, s.threads[t].current, p))
  {
    var m := s.threads[t].pending.value;
    assert MutexLinked(s, m);
    var s', o := Requeued(s, t, p), s.mutexes[m].owner.value;
    RequeuedShape(s, t, p);
    RequeuedWellFormed(s, t, p);
    RequeuedCurrents(s, t, p);
    RequeuedOwner(s, t, p, o);
    BoostProgress(s, t, p, o);
    var q := Highest(s'.mutexes, s'.threads[o].init, s'.threads[o].taken);
    if q == s'.threads[o].current {
      assert CurrentOk(s', o);
      PropagatedHere(s, t, p);
    }
  }

  /** The same for a thread that waits for nothing: the change ends there. */
  lemma UpdateLast(s: System, t: ThreadId, p: nat)
    requires MayUpdate(s, t, p) && s.threads[t].pending.None?
    ensures var s' := System(s.threads[t := s.threads[t].(current := p)], s.mutexes);
            Prioritized(s') && WellFormed(s') && Propagated(s, s', t, p) && p <= s.threads[t].init
  {
    RequeuedWellFormed(s, t, p);
    RequeuedCurrents(s, t, p);
    PropagatedHere(s, t, p);
  }

  lemma PropagatedHere(s: System, t: ThreadId, p: nat)
    requires MayUpdate(s, t, p)
    ensures Propagated(s, Requeued(s, t, p), t, p)
  {
    RaisedHere(s, Requeued(s, t, p), t, p);
    if p > s.threads[t].current {
      LoweredOffCycle(s, t, p);
      LoweredHere(s, Requeued(s, t, p), t, p);
    }
  }

  lemma PropagatedOnward(s: System, s': System, s'': System, t: ThreadId, o: ThreadId, p: nat, q: nat)
    requires MayUpdate(s, t, p) && s' == Requeued(s, t, p) && Next(s, t) == Some(o)
    requires MayUpdate(s', o, q) && Propagated(s', s'', o, q)
    ensures Propagated(s, s'', t, p)
  {
    RequeuedShape(s, t, p);
    RequeuedOwner(s, t, p, o);
    if p < s.threads[t].current {
      RaisedOnward(s, s', s'', t, o, p);
    } else {
      LoweredOffCycle(s, t, p);
      LoweredOnward(s, s', s'', t, o, p);
    }
  }

  /** After queueing t and raising its owner chain, every priority is still lent by a blocked thread. */
  lemma EnqueuedSupported(s: System, t: ThreadId, m: MutexId, o: ThreadId, s': System)
    requires AllSupported(s) && WellFormed(s) && t in s.threads && m in s.mutexes && s.threads[t].pending.None?
    requires s.mutexes[m].owner == Some(o) && o in s.threads
    requires RaisedTo(Enqueued(s, t, m), s', o, s.threads[t].current)
    ensures AllSupported(s')
  {
    var q := Enqueued(s, t, m);
    forall x | x in s'.threads ensures Supported(s', x, s'.threads[x].current) {
      if s'.threads[x].current == q.threads[x].current {
        KeepsSupport(s, t, m, x, s');
      } else {
        var k: nat :| BlockedOn(q, o, x, k);
        BorrowsSupport(s, t, m, o, x, k, s');
      }
    }
  }

  lemma KeepsSupport(s: System, t: ThreadId, m: MutexId, x: ThreadId, s': System)
    requires WellFormed(s) && t in s.threads && m in s.mutexes && s.threads[t].pending.None? && x in s.threads
    requires SameShape(Enqueued(s, t, m), s') && Supported(s, x, s.threads[x].current)
    ensures Supported(s', x, s.threads[x].current)
  {
    var u: ThreadId, k: nat :| Lends(s, u, x, k, s.threads[x].current);
    EnqueuedBlocks(s, t, m, u, x, k);
    SameShapeBlocks(Enqueued(s, t, m), s', u, x, k);
    assert Lends(s', u, x, k, s.threads[x].current);
  }

  lemma BorrowsSupport(s: System, t: ThreadId, m: MutexId, o: ThreadId, x: ThreadId, k: nat, s': System)
    requires WellFormed(s) && t in s.threads && m in s.mutexes && s.threads[t].pending.None?
    requires s.mutexes[m].owner == Some(o) && Supported(s, t, s.threads[t].current)
    requires SameShape(Enqueued(s, t, m), s') && BlockedOn(Enqueued(s, t, m), o, x, k)
    ensures Supported(s', x, s.threads[t].current)
  {
    EnqueuedNext(s, t, m);
    hide Enqueued, SameShape, WellFormed, BlockedOn;
    var q := Enqueued(s, t, m);
    var u: ThreadId, j: nat :| Lends(s, u, t, j, s.threads[t].current);
    EnqueuedBlocks(s, t, m, u, t, j);
    BlockedOnAppend(q, u, t, o, j);
    BlockedOnJoin(q, u, o, x, j + 1, k);
    SameShapeBlocks(q, s', u, x, j + 1 + k);
    SameInit(s, t, m, s', u);
    assert Lends(s', u, x, j + 1 + k, s.threads[t].current);
  }

  lemma EnqueuedNext(s: System, t: ThreadId, m: MutexId)
    requires t in s.threads && m in s.mutexes && forall w :: w in s.mutexes[m].waiters ==> w in s.threads
    ensures Next(Enqueued(s, t, m), t) == s.mutexes[m].owner
  {
  }

  lemma SameInit(s: System, t: ThreadId, m: MutexId, s': System, u: ThreadId)
    requires t in s.threads && m in s.mutexes && u in s.threads && forall w :: w in s.mutexes[m].waiters ==>
               w in s.threads
    requires SameShape(Enqueued(s, t, m), s')
    ensures u in s'.threads && s'.threads[u].init == s.threads[u].init
  {
  }

  /** Only t moved, and to p. */
  lemma RaisedHere(s: System, s': System, t: ThreadId, p: nat)
    requires WellFormed(s) && t in s.threads && s' == Requeued(s, t, p)
    ensures RaisedTo(s, s', t, p)
  {
    RequeuedShape(s, t, p);
    assert BlockedOn(s, t, t, 0);
  }

  /** Only t and the threads up the chain from its owner moved, all to p. */
  lemma RaisedOnward(s: System, s': System, s'': System, t: ThreadId, o: ThreadId, p: nat)
    requires WellFormed(s) && t in s.threads && s' == Requeued(s, t, p) && Next(s, t) == Some(o)
    requires RaisedTo(s', s'', o, p)
    ensures RaisedTo(s, s'', t, p)
  {
    RequeuedShape(s, t, p);
    SameShapeTrans(s, s', s'');
    hide BlockedOn, Requeued, SameShape, WellFormed;
    forall x | x in s.threads && s''.threads[x].current != s.threads[x].current
      ensures s''.threads[x].current == p && exists k: nat :: BlockedOn(s, t, x, k)
    {
      if s''.threads[x].current != s'.threads[x].current {
        LinkOnward(s, s', t, o, x);
      } else {
        OnlyMoved(s, t, p, x);
      }
    }
  }

  lemma LinkOnward(s: System, s': System, t: ThreadId, o: ThreadId, x: ThreadId)
    requires SameShape(s, s') && Next(s, t) == Some(o) && exists k: nat :: BlockedOn(s', o, x, k)
    ensures exists k: nat :: BlockedOn(s, t, x, k)
  {
    var k: nat :| BlockedOn(s', o, x, k);
    SameShapeBlocks(s, s', o, x, k);
    assert BlockedOn(s, t, x, k + 1);
  }

  lemma RecursiveTakeGood(s: System, t: ThreadId, m: MutexId)
    requires Good(s) && m in s.mutexes && s.mutexes[m].owner == Some(t) && s.mutexes[m].hold < HOLD_MAX
    ensures Good(System(s.threads, s.mutexes[m := s.mutexes[m].(hold := s.mutexes[m].hold + 1)]))
  {
    HoldChangeGood(s, m, s.mutexes[m].hold + 1);
  }

  lemma RecursiveReleaseGood(s: System, t: ThreadId, m: MutexId)
    requires Good(s) && m in s.mutexes && s.mutexes[m].owner == Some(t) && s.mutexes[m].hold > 1
    ensures Good(System(s.threads, s.mutexes[m := s.mutexes[m].(hold := s.mutexes[m].hold - 1)]))
  {
    assert MutexLinked(s, m);
    HoldChangeGood(s, m, s.mutexes[m].hold - 1);
  }

  lemma HoldChangeGood(s: System, m: MutexId, hold: nat)
    requires Good(s) && m in s.mutexes && s.mutexes[m].owner.Some? && 1 <= hold <= HOLD_MAX
    ensures Good(System(s.threads, s.mutexes[m := s.mutexes[m].(hold := hold)]))
  {
    var s' := System(s.threads, s.mutexes[m := s.mutexes[m].(hold := hold)]);
    HoldChangePrioritized(s, m, hold);
    forall x | x in s'.threads ensures Supported(s', x, s'.threads[x].current) {
      HoldChangeSupports(s, s', x, s.threads[x].current);
    }
  }

  lemma HoldChangePrioritized(s: System, m: MutexId, hold: nat)
    requires Prioritized(s) && m in s.mutexes && s.mutexes[m].owner.Some? && 1 <= hold <= HOLD_MAX
    ensures Prioritized(System(s.threads, s.mutexes[m := s.mutexes[m].(hold := hold)]))
  {
    var s' := System(s.threads, s.mutexes[m := s.mutexes[m].(hold := hold)]);
    forall n | n in s'.mutexes ensures MutexLinked(s', n) {
      assert MutexLinked(s, n);
    }
    forall n | n in s'.mutexes ensures QueueOk(s', n) {
      assert QueueOk(s, n);
    }
    forall x | x in s'.threads ensures ThreadLinked(s', x) {
      assert ThreadLinked(s, x);
    }
    forall x | x in s'.threads ensures CurrentOk(s', x) {
      assert CurrentOk(s, x);
      SameHighest(s.mutexes, s'.mutexes, s.threads[x].init, s.threads[x].taken);
    }
  }

  lemma HoldChangeSupports(s: System, s': System, x: ThreadId, p: nat)
    requires s'.threads == s.threads && SameOwners(s.mutexes, s'.mutexes) && Supported(s, x, p)
    ensures Supported(s', x, p)
  {
    var u: ThreadId, k: nat :| Lends(s, u, x, k, p);
    SameOwnersBlocks(s, s', u, x, k);
    assert Lends(s', u, x, k, p);
  }

  ghost predicate SameOwners(mutexes: map<MutexId, Mutex>, mutexes': map<MutexId, Mutex>) {
    mutexes'.Keys == mutexes.Keys && forall m :: m in mutexes ==> mutexes'[m].owner == mutexes[m].owner
  }

  lemma {:induction false} SameOwnersBlocks(s: System, s': System, u: ThreadId, x: ThreadId, k: nat)
    requires s'.threads == s.threads && SameOwners(s.mutexes, s'.mutexes) && BlockedOn(s, u, x, k)
    ensures BlockedOn(s', u, x, k)
    decreases k
  {
    if k > 0 {
      SameOwnersBlocks(s, s', Next(s, u).value, x, k - 1);
    }
  }

  // ---------------------------------------------------------------- releasing

  /** A mutex that has just been given up goes to its first waiter, at the priority of the next one. */
  function HandedOver(s: System, m: MutexId): System
    requires m in s.mutexes && forall w :: w in s.mutexes[m].waiters ==> w in s.threads
  {
    var x := s.mutexes[m];
    if x.waiters == [] then
      System(s.threads, s.mutexes[m := Mutex(None, 0, NO_WAITER, [])])
    else
      var w := x.waiters[0];
      var rest := x.waiters[1..];
      var next := s.threads[w].(suspended := false, pending := None, taken := [m] + s.threads[w].taken);
      System(s.threads[w := next], s.mutexes[m := Mutex(Some(w), 1, HeadPriority(s.threads, rest), rest)])
  }

  /** t gives up m for good: its own priority is recomputed without m, and the first waiter becomes the owner. */
  function Released(s: System, t: ThreadId, m: MutexId): System
    requires WellFormed(s) && t in s.threads && m in s.mutexes && ThreadLinked(s, t)
  {
    var rest := Remove(s.threads[t].taken, m);
    var threads := s.threads[t := s.threads[t].(taken := rest, current := Highest(s.mutexes, s.threads[t].init, rest))];
    HandedOver(System(threads, s.mutexes), m)
  }

  ghost predicate MayRelease(s: System, t: ThreadId, m: MutexId) {
    && Prioritized(s) && WellFormed(s) && t in s.threads && m in s.mutexes && ThreadLinked(s, t)
    && s.threads[t].pending.None? && s.mutexes[m].owner == Some(t)
  }

  /** Whoever waits for m is suspended. */
  lemma WaitersSuspended(s: System, t: ThreadId, m: MutexId)
    requires MayRelease(s, t, m)
    ensures forall w :: w in s.mutexes[m].waiters ==> w in s.threads && w != t && s.threads[w].suspended
  {
    assert MutexLinked(s, m);
    forall w | w in s.mutexes[m].waiters ensures s.threads[w].suspended {
      assert ThreadLinked(s, w);
    }
  }

  /** The hold count left behind does not matter to the hand-over. */
  lemma ReleasedIsHandedOver(s: System, t: ThreadId, m: MutexId, threads: map<ThreadId, Thread>)
    requires MayRelease(s, t, m)
    requires var rest := Remove(s.threads[t].taken, m);
             && (forall n :: n in rest ==> n in s.mutexes)
             && threads == s.threads[t := s.threads[t].(taken := rest,
                                                        current := Highest(s.mutexes, s.threads[t].init, rest))]
    ensures forall w :: w in s.mutexes[m].waiters ==> w in threads
    ensures HandedOver(System(threads, s.mutexes[m := s.mutexes[m].(hold := 0)]), m) == Released(s, t, m)
  {
    HoldIgnored(System(threads, s.mutexes), m, 0);
  }

  lemma HoldIgnored(s: System, m: MutexId, hold: nat)
    requires m in s.mutexes && forall w :: w in s.mutexes[m].waiters ==> w in s.threads
    ensures HandedOver(System(s.threads, s.mutexes[m := s.mutexes[m].(hold := hold)]), m) == HandedOver(s, m)
  {
  }

  lemma ReleasedLinked(s: System, t: ThreadId, m: MutexId)
    requires MayRelease(s, t, m)
    ensures Linked(Released(s, t, m))
  {
    var s' := Released(s, t, m);
    assert MutexLinked(s, m);
    RemoveDistinct(s.threads[t].taken, m);
    forall n | n in s'.mutexes ensures MutexLinked(s', n) {
      assert MutexLinked(s, n);
      ReleasedMutexLinked(s, t, m, n);
    }
    forall x | x in s'.threads ensures ThreadLinked(s', x) {
      assert ThreadLinked(s, x);
      ReleasedThreadLinked(s, t, m, x);
    }
  }

  lemma ReleasedMutexLinked(s: System, t: ThreadId, m: MutexId, n: MutexId)
    requires MayRelease(s, t, m) && n in s.mutexes && MutexLinked(s, n) && MutexLinked(s, m)
    ensures MutexLinked(Released(s, t, m), n)
  {
    if s.mutexes[m].waiters != [] {
      assert s.mutexes[m].waiters[0] in s.mutexes[m].waiters;
      assert forall w :: w in s.mutexes[m].waiters[1..] ==> w in s.mutexes[m].waiters && w != s.mutexes[m].waiters[0];
    }
  }

  lemma ReleasedThreadLinked(s: System, t: ThreadId, m: MutexId, x: ThreadId)
    requires MayRelease(s, t, m) && x in s.threads && ThreadLinked(s, x) && MutexLinked(s, m)
    requires NoDuplicates(Remove(s.threads[t].taken, m))
    ensures ThreadLinked(Released(s, t, m), x)
  {
    var s' := Released(s, t, m);
    var waiters := s.mutexes[m].waiters;
    if waiters != [] {
      var w := waiters[0];
      assert w in waiters && ThreadLinked(s, w);
      assert forall y :: y in waiters ==> y == w || y in waiters[1..];
      assert m !in s.threads[w].taken;
    }
  }

  lemma ReleasedQueues(s: System, t: ThreadId, m: MutexId)
    requires MayRelease(s, t, m)
    ensures QueuesOk(Released(s, t, m))
  {
    var s' := Released(s, t, m);
    assert MutexLinked(s, m) && QueueOk(s, m);
    forall n | n in s'.mutexes ensures QueueOk(s', n) {
      assert MutexLinked(s, n) && QueueOk(s, n);
      if n == m {
        if s.mutexes[m].waiters != [] {
          SameCurrentsSorted(s.threads, s'.threads, s.mutexes[m].waiters[1..]);
        }
      } else {
        SameCurrentsSorted(s.threads, s'.threads, s.mutexes[n].waiters);
      }
    }
  }

  lemma ReleasedCurrents(s: System, t: ThreadId, m: MutexId)
    requires MayRelease(s, t, m)
    ensures CurrentsOkExcept(Released(s, t, m), None)
  {
    var s' := Released(s, t, m);
    assert MutexLinked(s, m) && QueueOk(s, m);
    ReleasedLinked(s, t, m);
    hide Linked, QueuesOk, Released;
    forall x | x in s'.threads ensures CurrentOk(s', x) {
      assert ThreadLinked(s', x);
      ReleasedCurrent(s, t, m, x);
    }
  }

  lemma ReleasedCurrent(s: System, t: ThreadId, m: MutexId, x: ThreadId)
    requires MayRelease(s, t, m) && MutexLinked(s, m) && QueueOk(s, m) && x in Released(s, t, m).threads
    requires ThreadLinked(Released(s, t, m), x)
    ensures CurrentOk(Released(s, t, m), x)
  {
    hide Highest;
    var s' := Released(s, t, m);
    assert ThreadLinked(s, x) && CurrentOk(s, x);
    hide Linked, QueuesOk, CurrentsOkExcept;
    if s.mutexes[m].waiters != [] && x == s.mutexes[m].waiters[0] {
      NewOwnerKeepsPriority(s, m, s'.mutexes, x);
    } else {
      SameHighest(s.mutexes, s'.mutexes, s.threads[x].init, s'.threads[x].taken);
    }
  }

  /** The first waiter becomes the owner without a change of priority: the waiters left behind are no more urgent. */
  lemma NewOwnerKeepsPriority(s: System, m: MutexId, mutexes': map<MutexId, Mutex>, w: ThreadId)
    requires m in s.mutexes && QueueOk(s, m) && s.mutexes[m].waiters != [] && w == s.mutexes[m].waiters[0]
    requires CurrentOk(s, w) && ThreadLinked(s, w) && m !in s.threads[w].taken
    requires m in mutexes' && mutexes'[m].priority == HeadPriority(s.threads, s.mutexes[m].waiters[1..])
    requires forall n :: n in s.mutexes && n != m ==> n in mutexes' && mutexes'[n].priority == s.mutexes[n].priority
    ensures Highest(mutexes', s.threads[w].init, [m] + s.threads[w].taken) == s.threads[w].current
  {
    hide Highest;
    var x := s.threads[w];
    var r := Highest(mutexes', x.init, [m] + x.taken);
    assert m in [m] + x.taken;
    assert x.current <= mutexes'[m].priority;
    assert forall n :: n in x.taken ==> n in [m] + x.taken;
  }

  /** A path of waits that does not end at the releasing thread survives the release. */
  lemma {:induction false} ReleasedBlocks(s: System, t: ThreadId, m: MutexId, u: ThreadId, x: ThreadId, k: nat)
    requires MayRelease(s, t, m) && x != t && BlockedOn(s, u, x, k)
    ensures BlockedOn(Released(s, t, m), u, x, k)
    decreases k
  {
    if k > 0 {
      assert MutexLinked(s, m);
      var v := Next(s, u).value;
      if v != t {
        assert ThreadLinked(s, u);
        assert s.threads[u].pending != Some(m);
        assert s.mutexes[m].waiters != [] ==> s.mutexes[m].waiters[0] in s.mutexes[m].waiters;
        assert u != t;
        assert Next(Released(s, t, m), u) == Some(v);
        ReleasedBlocks(s, t, m, v, x, k - 1);
      }
    }
  }

  lemma ReleasedSupported(s: System, t: ThreadId, m: MutexId)
    requires MayRelease(s, t, m) && Good(s)
    ensures AllSupported(Released(s, t, m))
  {
    var s' := Released(s, t, m);
    forall x | x in s'.threads ensures Supported(s', x, s'.threads[x].current) {
      if x == t {
        ReleaserSupported(s, t, m);
      } else {
        assert Supported(s, x, s.threads[x].current);
        var u: ThreadId, k: nat :| Lends(s, u, x, k, s.threads[x].current);
        ReleasedBlocks(s, t, m, u, x, k);
        assert Lends(s', u, x, k, s.threads[x].current);
      }
    }
  }

  lemma ReleasedGood(s: System, t: ThreadId, m: MutexId)
    requires MayRelease(s, t, m) && Good(s)
    ensures Good(Released(s, t, m))
  {
    ReleasedLinked(s, t, m);
    ReleasedQueues(s, t, m);
    ReleasedCurrents(s, t, m);
    ReleasedSupported(s, t, m);
  }

  lemma ReleaserSupported(s: System, t: ThreadId, m: MutexId)
    requires MayRelease(s, t, m) && Good(s)
    ensures var s' := Released(s, t, m); t in s'.threads && Supported(s', t, s'.threads[t].current)
  {
    var s' := Released(s, t, m);
    assert MutexLinked(s, m);
    assert s.mutexes[m].waiters != [] ==> s.mutexes[m].waiters[0] in s.mutexes[m].waiters;
    var rest := Remove(s.threads[t].taken, m);
    var p := Highest(s.mutexes, s.threads[t].init, rest);
    if p == s.threads[t].init {
      assert Lends(s', t, t, 0, p);
    } else {
      var n :| n in rest && s.mutexes[n].priority == p;
      HeadLends(s, t, m, n);
    }
  }

  /** The head of another queue behind t still lends t its priority after m is given up. */
  lemma HeadLends(s: System, t: ThreadId, m: MutexId, n: MutexId)
    requires MayRelease(s, t, m) && AllSupported(s) && n in s.threads[t].taken && n != m && n in s.mutexes
    requires s.mutexes[n].priority < NO_WAITER
    ensures Supported(Released(s, t, m), t, s.mutexes[n].priority)
  {
    assert QueueOk(s, n);
    assert MutexLinked(s, n);
    var h := s.mutexes[n].waiters[0];
    assert h in s.mutexes[n].waiters;
    assert Supported(s, h, s.threads[h].current);
    var u: ThreadId, k: nat :| Lends(s, u, h, k, s.threads[h].current);
    LendsThrough(s, t, m, n, h, u, k);
  }

  lemma LendsThrough(s: System, t: ThreadId, m: MutexId, n: MutexId, h: ThreadId, u: ThreadId, k: nat)
    requires MayRelease(s, t, m) && n in s.mutexes && n != m && h in s.threads && h != t
    requires s.mutexes[n].owner == Some(t) && s.threads[h].pending == Some(n)
    requires Lends(s, u, h, k, s.threads[h].current)
    ensures Supported(Released(s, t, m), t, s.threads[h].current)
  {
    var s' := Released(s, t, m);
    ReleasedBlocks(s, t, m, u, h, k);
    ReleasedWaits(s, t, m, n, h);
    BlockedOnAppend(s', u, h, t, k);
    assert Lends(s', u, t, k + 1, s.threads[h].current);
  }

  lemma ReleasedWaits(s: System, t: ThreadId, m: MutexId, n: MutexId, h: ThreadId)
    requires MayRelease(s, t, m) && n in s.mutexes && n != m && h in s.threads
    requires s.mutexes[n].owner == Some(t) && s.threads[h].pending == Some(n)
    ensures Next(Released(s, t, m), h) == Some(t)
  {
    assert MutexLinked(s, m);
    assert s.mutexes[m].waiters != [] ==> s.mutexes[m].waiters[0] in s.mutexes[m].waiters;
  }

  /** The test that lets release skip the recomputation is exact. */
  lemma ReleaserPriority(s: System, t: ThreadId, m: MutexId)
    requires MayRelease(s, t, m) && s.threads[t].current != s.mutexes[m].priority
    ensures Highest(s.mutexes, s.threads[t].init, Remove(s.threads[t].taken, m)) == s.threads[t].current
  {
    assert CurrentOk(s, t) && MutexLinked(s, m);
  }
}
