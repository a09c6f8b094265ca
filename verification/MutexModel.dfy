/**
 * Threads, mutexes and the priority-inheritance invariants of ipc.c, on values.
 * The kernel operations that change this state are in MutexKernel.dfy.
 */
module MutexModel {
  import opened Lists

  type ThreadId = nat
  type MutexId = nat

  /** Cached priority of a mutex nobody waits for. A smaller number is a higher priority. */
  const NO_WAITER: nat := 0xFF

  /** RT_MUTEX_HOLD_MAX */
  const HOLD_MAX: nat := 0xFF

  datatype Thread = Thread(
    init: nat,                    // init_priority
    current: nat,                 // current_priority
    suspended: bool,              // stat is RT_THREAD_SUSPEND
    pending: Option<MutexId>,     // pending_object
    taken: seq<MutexId>)          // taken_object_list

  datatype Mutex = Mutex(
    owner: Option<ThreadId>,
    hold: nat,
    priority: nat,                // cached priority of the first waiter
    waiters: seq<ThreadId>)       // suspend_thread list

  datatype System = System(threads: map<ThreadId, Thread>, mutexes: map<MutexId, Mutex>)

  // ---------------------------------------------------------------- links

  ghost predicate MutexLinked(s: System, m: MutexId)
    requires m in s.mutexes
  {
    var x := s.mutexes[m];
    && (x.owner.None? ==> x.hold == 0 && x.waiters == [])
    && (x.owner.Some? ==>
          && 1 <= x.hold <= HOLD_MAX
          && x.owner.value in s.threads
          && m in s.threads[x.owner.value].taken
          && x.owner.value !in x.waiters)
    && NoDuplicates(x.waiters)
    && (forall w :: w in x.waiters ==> w in s.threads && s.threads[w].pending == Some(m))
  }

  ghost predicate ThreadLinked(s: System, t: ThreadId)
    requires t in s.threads
  {
    var x := s.threads[t];
    && x.init <= NO_WAITER
    && (x.pending.Some? ==> x.suspended && x.pending.value in s.mutexes && t in s.mutexes[x.pending.value].waiters)
    && NoDuplicates(x.taken)
    && (forall m :: m in x.taken ==> m in s.mutexes && s.mutexes[m].owner == Some(t))
  }

  /** Owners and taken lists agree; pending objects and wait lists agree. */
  ghost predicate Linked(s: System) {
    && (forall m {:trigger MutexLinked(s, m)} :: m in s.mutexes ==> MutexLinked(s, m))
    && (forall t {:trigger ThreadLinked(s, t)} :: t in s.threads ==> ThreadLinked(s, t))
  }

  // ---------------------------------------------------------------- priorities

  /** The minimum of init and the cached priorities of the taken mutexes. */
  function Highest(mutexes: map<MutexId, Mutex>, init: nat, taken: seq<MutexId>): (r: nat)
    requires forall m :: m in taken ==> m in mutexes
    ensures r <= init
    ensures forall m :: m in taken ==> r <= mutexes[m].priority
    ensures r == init || exists m :: m in taken && mutexes[m].priority == r
  {
    if taken == [] then init
    else
      var last := |taken| - 1;
      var rest := Highest(mutexes, init, taken[..last]);
      if mutexes[taken[last]].priority < rest then mutexes[taken[last]].priority else rest
  }

  function HeadPriority(threads: map<ThreadId, Thread>, waiters: seq<ThreadId>): nat
    requires forall w :: w in waiters ==> w in threads
  {
    if waiters == [] then NO_WAITER else threads[waiters[0]].current
  }

  ghost predicate Sorted(threads: map<ThreadId, Thread>, waiters: seq<ThreadId>)
    requires forall w :: w in waiters ==> w in threads
  {
    forall i, j :: 0 <= i < j < |waiters| ==> threads[waiters[i]].current <= threads[waiters[j]].current
  }

  /** A wait list is sorted by current priority and its cached priority is that of its head. */
  ghost predicate QueueOk(s: System, m: MutexId)
    requires m in s.mutexes
  {
    && (forall w :: w in s.mutexes[m].waiters ==> w in s.threads)
    && Sorted(s.threads, s.mutexes[m].waiters)
    && s.mutexes[m].priority == HeadPriority(s.threads, s.mutexes[m].waiters)
  }

  ghost predicate QueuesOk(s: System) {
    forall m {:trigger QueueOk(s, m)} :: m in s.mutexes ==> QueueOk(s, m)
  }

  /** A thread runs at the minimum of its own priority and those of the mutexes it holds. */
  ghost predicate CurrentOk(s: System, t: ThreadId)
    requires t in s.threads
  {
    var x := s.threads[t];
    && (forall m :: m in x.taken ==> m in s.mutexes)
    && x.current == Highest(s.mutexes, x.init, x.taken)
  }

  ghost predicate CurrentsOkExcept(s: System, t: Option<ThreadId>) {
    forall x {:trigger CurrentOk(s, x)} :: x in s.threads && t != Some(x) ==> CurrentOk(s, x)
  }

  ghost predicate Prioritized(s: System) {
    Linked(s) && QueuesOk(s) && CurrentsOkExcept(s, None)
  }

  // ---------------------------------------------------------------- the wait graph

  /** The owner of the mutex that t waits for. */
  function Next(s: System, t: ThreadId): Option<ThreadId> {
    if t in s.threads && s.threads[t].pending.Some? && s.threads[t].pending.value in s.mutexes
    then s.mutexes[s.threads[t].pending.value].owner
    else None
  }

  /** t is reached from u by following k waits-for-the-owner edges. */
  ghost predicate BlockedOn(s: System, u: ThreadId, t: ThreadId, k: nat)
    decreases k
  {
    if k == 0 then u == t
    else Next(s, u).Some? && BlockedOn(s, Next(s, u).value, t, k - 1)
  }

  /** u waits, through one or more owners, for x. */
  ghost predicate WaitsFor(s: System, u: ThreadId, x: ThreadId) {
    exists k: nat :: k > 0 && BlockedOn(s, u, x, k)
  }

  /** x is deadlocked: it waits for itself. */
  ghost predicate OnCycle(s: System, x: ThreadId) {
    WaitsFor(s, x, x)
  }

  ghost predicate Lends(s: System, u: ThreadId, t: ThreadId, k: nat, p: nat) {
    u in s.threads && BlockedOn(s, u, t, k) && s.threads[u].init == p
  }

  /** Some thread transitively blocked on t (or t itself) really has priority p. */
  ghost predicate Supported(s: System, t: ThreadId, p: nat) {
    exists u: ThreadId, k: nat :: Lends(s, u, t, k, p)
  }

  ghost predicate AllSupported(s: System) {
    forall t {:trigger Supported(s, t, s.threads[t].current)} :: t in s.threads ==>
      Supported(s, t, s.threads[t].current)
  }

  /** What every sequence of takes and releases keeps. */
  ghost predicate Good(s: System) {
    Prioritized(s) && AllSupported(s)
  }

  /** p is the minimum initial priority over t and all threads transitively blocked on it. */
  ghost predicate IsInheritedPriority(s: System, t: ThreadId, p: nat) {
    && Supported(s, t, p)
    && forall u: ThreadId, k: nat :: u in s.threads && BlockedOn(s, u, t, k) ==> p <= s.threads[u].init
  }

  /** Same threads, owners, holds, taken lists and sets of waiters; priorities and queue order may differ. */
  ghost predicate SameShape(s: System, s': System) {
    && s.threads.Keys == s'.threads.Keys
    && s.mutexes.Keys == s'.mutexes.Keys
    && (forall t :: t in s.threads ==> s'.threads[t] == s.threads[t].(current := s'.threads[t].current))
    && (forall m :: m in s.mutexes ==>
          && s'.mutexes[m].owner == s.mutexes[m].owner
          && s'.mutexes[m].hold == s.mutexes[m].hold
          && forall w :: w in s.mutexes[m].waiters <==> w in s'.mutexes[m].waiters)
  }

  lemma {:induction false} SameShapeBlocks(s: System, s': System, u: ThreadId, t: ThreadId, k: nat)
    requires SameShape(s, s')
    ensures BlockedOn(s, u, t, k) <==> BlockedOn(s', u, t, k)
    decreases k
  {
    assert Next(s, u) == Next(s', u);
    if k > 0 && Next(s, u).Some? {
      SameShapeBlocks(s, s', Next(s, u).value, t, k - 1);
    }
  }

  lemma {:induction false} BlockedOnAppend(s: System, u: ThreadId, v: ThreadId, t: ThreadId, k: nat)
    requires BlockedOn(s, u, v, k) && Next(s, v) == Some(t)
    ensures BlockedOn(s, u, t, k + 1)
    decreases k
  {
    if k > 0 {
      BlockedOnAppend(s, Next(s, u).value, v, t, k - 1);
    } else {
      assert BlockedOn(s, t, t, 0);
    }
  }

  lemma OwnerAtMostWaiter(s: System, u: ThreadId)
    requires Prioritized(s) && Next(s, u).Some?
    ensures Next(s, u).value in s.threads
    ensures s.threads[Next(s, u).value].current <= s.threads[u].current
  {
    assert ThreadLinked(s, u);
    var m := s.threads[u].pending.value;
    assert MutexLinked(s, m);
    assert QueueOk(s, m);
    assert CurrentOk(s, Next(s, u).value);
    var waiters := s.mutexes[m].waiters;
    var i :| 0 <= i < |waiters| && waiters[i] == u;
    assert i > 0 ==> s.threads[waiters[0]].current <= s.threads[waiters[i]].current;
  }

  /** No thread runs below a thread that is blocked on it. */
  lemma {:induction false} CurrentAtMostBlocked(s: System, u: ThreadId, t: ThreadId, k: nat)
    requires Prioritized(s) && u in s.threads && t in s.threads && BlockedOn(s, u, t, k)
    ensures s.threads[t].current <= s.threads[u].current
    decreases k
  {
    if k > 0 {
      OwnerAtMostWaiter(s, u);
      CurrentAtMostBlocked(s, Next(s, u).value, t, k - 1);
    }
  }

  /** The law of priority inheritance: exactly the highest priority among the threads blocked, cycle or not. */
  lemma InheritedPriorityExact(s: System, t: ThreadId)
    requires Good(s) && t in s.threads
    ensures IsInheritedPriority(s, t, s.threads[t].current)
  {
    forall u: ThreadId, k: nat | u in s.threads && BlockedOn(s, u, t, k)
      ensures s.threads[t].current <= s.threads[u].init
    {
      CurrentAtMostBlocked(s, u, t, k);
      assert CurrentOk(s, u);
    }
  }

  /** The inherited priority is a function of the wait graph and the initial priorities alone. */
  lemma InheritedPriorityUnique(s: System, t: ThreadId, p: nat, q: nat)
    requires IsInheritedPriority(s, t, p) && IsInheritedPriority(s, t, q)
    ensures p == q
  {
    var u: ThreadId, k: nat :| Lends(s, u, t, k, p);
    var v: ThreadId, j: nat :| Lends(s, v, t, j, q);
    assert q <= s.threads[u].init && p <= s.threads[v].init;
  }

  // ---------------------------------------------------------------- acyclic waits

  /** A ranking that strictly grows along every wait edge: it exists exactly when the waits form no cycle. */
  ghost predicate Ranks(s: System, rank: map<ThreadId, nat>) {
    && rank.Keys == s.threads.Keys
    && forall t :: t in s.threads && Next(s, t).Some? && Next(s, t).value in s.threads
         ==> rank[t] < rank[Next(s, t).value]
  }

  ghost predicate Acyclic(s: System) {
    exists rank: map<ThreadId, nat> :: Ranks(s, rank)
  }

  lemma {:induction false} AcyclicSupported(s: System, rank: map<ThreadId, nat>, t: ThreadId)
    requires Prioritized(s) && Ranks(s, rank) && t in s.threads
    ensures Supported(s, t, s.threads[t].current)
    decreases rank[t]
  {
    var x := s.threads[t];
    assert CurrentOk(s, t) && ThreadLinked(s, t);
    if x.current == x.init {
      assert Lends(s, t, t, 0, x.current);
    } else {
      var m :| m in x.taken && s.mutexes[m].priority == x.current;
      assert QueueOk(s, m) && MutexLinked(s, m);
      var h := s.mutexes[m].waiters[0];
      assert h in s.mutexes[m].waiters && Next(s, h) == Some(t);
      AcyclicSupported(s, rank, h);
      var u: ThreadId, k: nat :| Lends(s, u, h, k, x.current);
      BlockedOnAppend(s, u, h, t, k);
      assert Lends(s, u, t, k + 1, x.current);
    }
  }

  /** Without a cycle of waits the local equations alone force every inherited priority to be exact. */
  lemma AcyclicIsGood(s: System)
    requires Prioritized(s) && Acyclic(s)
    ensures Good(s)
  {
    var rank: map<ThreadId, nat> :| Ranks(s, rank);
    forall t | t in s.threads ensures Supported(s, t, s.threads[t].current) {
      AcyclicSupported(s, rank, t);
    }
  }
}
