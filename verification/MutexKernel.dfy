/**
 * Mutex take, release and drop from ipc.c, updating the threads, mutexes and ready queue of one uniprocessor kernel in
 * place.
 */
module MutexKernel {
  import opened Lists
  import opened MutexModel
  import opened MutexSteps
  import opened MutexDrop
  import opened MutexReady
  import opened MutexOutcome
  import FirstBit
  import ReadyQueue
  import Waiting

  /** What the running thread may do. */
  datatype Act = TakeIt(mutex: MutexId, timeout: int) | ReleaseIt(mutex: MutexId) | YieldIt

  /** What the running thread t did, and which thread has the processor then; ready is what the scheduler knew. */
  ghost predicate ActStep(s: System, ready: ReadyQueue.Threads, t: ThreadId, act: Act, r: Reply, s': System,
                          next: ThreadId)
    requires t in ready
  {
    match act
    case TakeIt(m, timeout) => CallStep(s, Take(t, m, timeout), r, s') && (r != Took(Suspended) ==> next == t)
    case ReleaseIt(m) =>
      && CallStep(s, Release(t, m), r, s')
      && (m !in s.mutexes || s.mutexes[m].owner != Some(t) || s.mutexes[m].hold != 1 ==> next == t)
    case YieldIt =>
      && r == NotMade && s' == s
      && (next == t <==> ReadyQueue.NoReady(ready) || ReadyQueue.AllBelow(ready, t))
  }

  /** Act i leads from one state to the next. */
  ghost predicate StepAt(states: seq<System>, readies: seq<ReadyQueue.Threads>, runners: seq<ThreadId>, acts: seq<Act>,
                         replies: seq<Reply>, i: nat)
    requires i < |acts| && i < |replies| && i + 1 < |states| && i < |readies| && i + 1 < |runners|
  {
    runners[i] in readies[i]
    && ActStep(states[i], readies[i], runners[i], acts[i], replies[i], states[i + 1], runners[i + 1])
  }

  /** Each of the first n acts leads from one state to the next. */
  ghost predicate Logged(states: seq<System>, readies: seq<ReadyQueue.Threads>, runners: seq<ThreadId>, acts: seq<Act>,
                         replies: seq<Reply>, n: nat)
  {
    && |states| == |readies| == |runners| == n + 1 && |replies| == n <= |acts|
    && forall i: nat {:trigger StepAt(states, readies, runners, acts, replies, i)} :: i < n ==>
         StepAt(states, readies, runners, acts, replies, i)
  }

  lemma LogNext(states: seq<System>, readies: seq<ReadyQueue.Threads>, runners: seq<ThreadId>, acts: seq<Act>,
                replies: seq<Reply>, n: nat, s: System, ready: ReadyQueue.Threads, next: ThreadId, r: Reply)
    requires Logged(states, readies, runners, acts, replies, n) && n < |acts| && runners[n] in readies[n]
    requires ActStep(states[n], readies[n], runners[n], acts[n], r, s, next)
    ensures Logged(states + [s], readies + [ready], runners + [next], acts, replies + [r], n + 1)
  {
    hide ActStep;
    forall i: nat | i < n + 1
      ensures StepAt(states + [s], readies + [ready], runners + [next], acts, replies + [r], i)
    {
      assert i < n ==> StepAt(states, readies, runners, acts, replies, i);
    }
  }

  class Kernel {
    var threads: map<ThreadId, Thread>
    var mutexes: map<MutexId, Mutex>
    const ready: ReadyQueue.Scheduler

    /** The ready queue is in order and knows the threads at their current priorities. */
    ghost predicate InStep()
      reads this`threads, ready, ready.lists, ready.table
    {
      ready.Valid() && Matches(threads, ready.threads, ready.wide)
    }

    ghost function Sys(): System
      reads this
    {
      System(threads, mutexes)
    }

    /** Threads that have been started are at their initial priority, and every mutex starts free. */
    constructor (ready: ReadyQueue.Scheduler, names: set<MutexId>)
      requires ready.Valid()
      requires forall t {:trigger ready.threads[t]} :: t in ready.threads ==>
                 !ready.threads[t].stat.Init? && !ready.threads[t].stat.Suspended?
                 && (ready.wide || FirstBit.Below32(ready.threads[t].priority))
      ensures Good(Sys()) && InStep() && this.ready == ready
      ensures threads.Keys == ready.threads.Keys && mutexes.Keys == names
      ensures forall t :: t in threads ==>
                threads[t] == Thread(FirstBit.Ix(ready.threads[t].priority), FirstBit.Ix(ready.threads[t].priority),
                                     false, None, [])
    {
      this.ready := ready;
      threads := map t | t in ready.threads ::
        Thread(FirstBit.Ix(ready.threads[t].priority), FirstBit.Ix(ready.threads[t].priority), false, None, []);
      mutexes := map m | m in names :: Mutex(None, 0, NO_WAITER, []);
      new;
      assert forall t :: t in threads ==> Lends(Sys(), t, t, 0, threads[t].current);
    }

    /** rt_thread_control with RT_THREAD_CTRL_CHANGE_PRIORITY */
    method SetPriority(t: ThreadId, p: nat)
      requires InStep() && t in threads && p <= threads[t].init
      modifies this`threads, ready`group, ready`threads, ready.lists, ready.table
      ensures InStep() && threads == old(threads)[t := old(threads[t]).(current := p)]
    {
      assert t in ready.threads && SameThread(threads[t], ready.threads[t], ready.wide);
      if p < 32 {
        FirstBit.SmallByte(FirstBit.AsByte(p));
      }
      ghost var rs := ready.threads;
      ready.ChangePriority(t, FirstBit.AsByte(p));
      ChangeMatches(threads, rs, ready.wide, t, threads[t].(current := p), ready.threads[t]);
      threads := threads[t := threads[t].(current := p)];
    }

    /**
     * _ipc_list_suspend with RT_IPC_FLAG_PRIO: the queue of m is searched for t's place. Suspending a thread that is
     * suspended already, as the boost does, changes nothing.
     */
    method ListSuspend(m: MutexId, t: ThreadId)
      requires InStep() && m in mutexes && t in threads && forall w :: w in mutexes[m].waiters ==> w in threads
      modifies this, ready`group, ready`threads, ready.lists, ready.table
      ensures InStep() && threads == old(threads)[t := old(threads[t]).(suspended := true)]
      ensures mutexes == old(mutexes)[m := old(mutexes[m]).(waiters := Queued(old(threads), old(mutexes[m].waiters),
                                                                              t))]
    {
      hide InStep, Slot;
      SuspendThread(t);
      var waiters := mutexes[m].waiters;
      var n := Waiting.Place(true, Currents(threads), waiters, t);
      PlaceIsSlot(threads, waiters, t, n);
      SameSlot(old(threads), threads, waiters, threads[t].current);
      mutexes := mutexes[m := mutexes[m].(waiters := waiters[..n] + [t] + waiters[n..])];
    }

    /** rt_thread_suspend */
    method SuspendThread(t: ThreadId)
      requires InStep() && t in threads
      modifies this`threads, ready`group, ready`threads, ready.lists, ready.table
      ensures InStep() && threads == old(threads)[t := old(threads[t]).(suspended := true)]
    {
      assert t in ready.threads && SameThread(threads[t], ready.threads[t], ready.wide);
      ghost var rs := ready.threads;
      var ok := ready.Suspend(t);
      ChangeMatches(threads, rs, ready.wide, t, threads[t].(suspended := true), ready.threads[t]);
      assert rs[t := ready.threads[t]] == ready.threads;
      threads := threads[t := threads[t].(suspended := true)];
    }

    /** rt_thread_resume, together with the hand-over of m to a thread that waited for it */
    method ResumeOwner(t: ThreadId, m: MutexId)
      requires InStep() && t in threads && threads[t].suspended
      modifies this`threads, ready`group, ready`threads, ready.lists, ready.table
      ensures InStep()
      ensures threads == old(threads)[t := old(threads[t]).(taken := [m] + old(threads[t]).taken, pending := None,
                                                            suspended := false)]
    {
      assert t in ready.threads && SameThread(threads[t], ready.threads[t], ready.wide);
      ghost var rs := ready.threads;
      var x := threads[t].(taken := [m] + threads[t].taken, pending := None, suspended := false);
      var ok := ready.Resume(t);
      ChangeMatches(threads, rs, ready.wide, t, x, ready.threads[t]);
      threads := threads[t := x];
    }

    /** _mutex_update_priority */
    method MutexUpdatePriority(m: MutexId)
      requires m in mutexes && forall w :: w in mutexes[m].waiters ==> w in threads
      modifies this`mutexes
      ensures mutexes == old(mutexes)[m := old(mutexes[m]).(priority := HeadPriority(threads, old(mutexes[m].waiters)))]
    {
      if mutexes[m].waiters != [] {
        mutexes := mutexes[m := mutexes[m].(priority := threads[mutexes[m].waiters[0]].current)];
      } else {
        mutexes := mutexes[m := mutexes[m].(priority := NO_WAITER)];
      }
    }

    /** _thread_get_mutex_priority */
    method GetMutexPriority(t: ThreadId) returns (priority: nat)
      requires t in threads && forall m :: m in threads[t].taken ==> m in mutexes
      ensures priority == Highest(mutexes, threads[t].init, threads[t].taken)
    {
      priority := threads[t].init;
      var taken := threads[t].taken;
      for i := 0 to |taken|
        invariant priority == Highest(mutexes, threads[t].init, taken[..i])
      {
        assert taken[..i + 1][..i] == taken[..i];
        if priority > mutexes[taken[i]].priority {
          priority := mutexes[taken[i]].priority;
        }
      }
      assert taken[..|taken|] == taken;
    }

    /**
     * _thread_update_priority: t gets priority p and the change travels along the owners it waits for.
     * Every equation holds afterwards; a raise changes priorities up that chain only, and only to p; a drop makes
     * priorities up that chain less urgent, but none on a cycle of waits.
     */
    method UpdatePriority(t: ThreadId, p: nat)
      requires InStep() && t in threads && MayUpdate(Sys(), t, p)
      modifies this, ready`group, ready`threads, ready.lists, ready.table
      ensures InStep() && WellFormed(Sys()) && Prioritized(Sys()) && t in old(threads)
      ensures Propagated(old(Sys()), Sys(), t, p)
      decreases Fuel(threads, threads[t].current, p)
    {
      hide MayUpdate, WellFormed, Prioritized, Propagated, Fuel, Highest, Requeued, InStep;
      ghost var s := Sys();
      if threads[t].pending.Some? {
        UpdateStep(s, t, p);
      } else {
        UpdateLast(s, t, p);
      }
      if threads[t].suspended && threads[t].pending.Some? {
        var m := threads[t].pending.value;
        Requeue(t, m, p);
        ghost var s' := Sys();
        var owner := mutexes[m].owner.value;
        var q := GetMutexPriority(owner);
        if q != threads[owner].current {
          UpdatePriority(owner, q);
          PropagatedOnward(s, s', Sys(), t, owner, p, q);
        }
      } else {
        SetPriority(t, p);
      }
    }

    /** The new priority of t, which waits for m, and its new place in the queue of m. */
    method Requeue(t: ThreadId, m: MutexId, p: nat)
      requires InStep() && t in threads && threads[t].suspended && threads[t].pending == Some(m) && m in mutexes
      requires p <= threads[t].init && forall n, w :: n in mutexes && w in mutexes[n].waiters ==> w in threads
      modifies this, ready`group, ready`threads, ready.lists, ready.table
      ensures InStep() && Sys() == Requeued(old(Sys()), t, p) && m in mutexes
      ensures mutexes[m].owner == old(mutexes[m].owner)
    {
      hide Queued, Slot, Remove, InStep;
      SetPriority(t, p);
      mutexes := mutexes[m := mutexes[m].(waiters := Remove(mutexes[m].waiters, t))];
      QueuedMembers(threads, mutexes[m].waiters, t);
      ListSuspend(m, t);
      MutexUpdatePriority(m);
    }

    /** rt_mutex_take by the running thread t, up to its going to sleep; timeout 0 never waits. */
    method TakeMutex(t: ThreadId, m: MutexId, timeout: int) returns (r: TakeResult)
      requires InStep() && Good(Sys()) && t in threads && m in mutexes
      requires !threads[t].suspended
      modifies this, ready`group, ready`threads, ready.lists, ready.table
      ensures InStep() && Good(Sys())
      ensures r != Suspended ==> ready.threads == old(ready.threads)
      ensures TakeOutcome(old(Sys()), t, m, timeout, r, Sys())
      ensures r == Suspended ==>
                && WellFormed(old(Sys())) && old(mutexes[m].owner).Some?
                && RaisedTo(Enqueued(old(Sys()), t, m), Sys(), old(mutexes[m].owner).value, old(threads[t].current))
    {
      hide InStep, Good, TakeOutcome, Blocked, RaisedTo, WellFormed;
      ghost var s := Sys();
      if mutexes[m].owner.None? {
        FreeTaken(s, t, m, timeout);
      } else {
        OwnedTaken(s, t, m, timeout);
      }
      if mutexes[m].owner == Some(t) {
        if mutexes[m].hold < HOLD_MAX {
          mutexes := mutexes[m := mutexes[m].(hold := mutexes[m].hold + 1)];
          r := Taken;
        } else {
          r := HoldOverflow;
        }
      } else if mutexes[m].owner.None? {
        mutexes := mutexes[m := Mutex(Some(t), 1, NO_WAITER, mutexes[m].waiters)];
        SetTaken(t, [m] + threads[t].taken);
        r := Taken;
      } else if timeout == 0 {
        r := TimedOut;
      } else {
        TakeWait(t, m);
        EnqueuedIsBlocked(s, t, m, Sys());
        r := Suspended;
      }
    }

    method SetPending(t: ThreadId, pending: Option<MutexId>)
      requires InStep() && t in threads
      modifies this`threads
      ensures InStep() && threads == old(threads)[t := old(threads[t]).(pending := pending)]
    {
      threads := threads[t := threads[t].(pending := pending)];
    }

    /** The caller joins the queue of m; the result says whether it lowered the cached priority of m. */
    method JoinQueue(t: ThreadId, m: MutexId) returns (lowered: bool)
      requires InStep() && Prioritized(Sys()) && WellFormed(Sys()) && t in threads && m in mutexes
      requires threads[t].pending.None?
      modifies this, ready`group, ready`threads, ready.lists, ready.table
      ensures InStep() && Sys() == Enqueued(old(Sys()), t, m)
      ensures lowered <==> old(threads[t].current < mutexes[m].priority)
      ensures lowered ==> mutexes[m].priority == old(threads[t].current)
    {
      hide Prioritized, WellFormed, Queued, InStep, Slot;
      EnqueuedReady(Sys(), t, m);
      var priority := threads[t].current;
      ListSuspend(m, t);
      SetPending(t, Some(m));
      lowered := priority < mutexes[m].priority;
      if lowered {
        mutexes := mutexes[m := mutexes[m].(priority := priority)];
      }
    }

    /** The branch of rt_mutex_take that queues the caller and lends its priority to the owner. */
    method TakeWait(t: ThreadId, m: MutexId)
      requires InStep() && Good(Sys()) && WellFormed(Sys()) && t in threads && m in mutexes && threads[t].pending.None?
      requires mutexes[m].owner.Some? && mutexes[m].owner != Some(t)
      modifies this, ready`group, ready`threads, ready.lists, ready.table
      ensures InStep() && Good(Sys())
      ensures RaisedTo(Enqueued(old(Sys()), t, m), Sys(), old(mutexes[m].owner).value, old(threads[t].current))
    {
      ghost var s := Sys();
      EnqueuedCurrents(s, t, m);
      EnqueuedWellFormed(s, t, m);
      var priority := threads[t].current;
      var owner := mutexes[m].owner.value;
      var lowered := JoinQueue(t, m);
      if lowered && mutexes[m].priority < threads[owner].current {
        UpdatePriority(owner, priority);
      } else {
        assert CurrentOk(Sys(), owner);
      }
      EnqueuedSupported(s, t, m, owner, Sys());
    }

    /**
     * rt_mutex_release by the running thread t. The first result says whether t was the owner, the second whether the
     * scheduler is to decide.
     */
    method ReleaseMutex(t: ThreadId, m: MutexId) returns (ok: bool, needSchedule: bool)
      requires InStep() && Good(Sys()) && t in threads && m in mutexes && !threads[t].suspended
      modifies this, ready`group, ready`threads, ready.lists, ready.table
      ensures InStep() && Good(Sys())
      ensures !needSchedule ==> ready.threads == old(ready.threads)
      ensures ReleaseOutcome(old(Sys()), t, m, ok, Sys())
      ensures needSchedule ==> ok && old(mutexes[m].hold) == 1
    {
      ghost var s := Sys();
      WaitersExist(s);
      assert ThreadLinked(s, t) && MutexLinked(s, m);
      if mutexes[m].owner != Some(t) {
        return false, false;
      }
      ok, needSchedule := true, false;
      mutexes := mutexes[m := mutexes[m].(hold := mutexes[m].hold - 1)];
      if mutexes[m].hold == 0 {
        needSchedule := GiveUp(s, t, m);
        ReleasedGood(s, t, m);
        ReleasedIsGivenUp(s, t, m);
      } else {
        RecursiveReleaseGood(s, t, m);
      }
    }

    /** The part of rt_mutex_release that runs once the hold count has reached zero. */
    method GiveUp(ghost s: System, t: ThreadId, m: MutexId) returns (needSchedule: bool)
      requires InStep() && MayRelease(s, t, m)
      requires threads == s.threads && mutexes == s.mutexes[m := s.mutexes[m].(hold := 0)]
      modifies this, ready`group, ready`threads, ready.lists, ready.table
      ensures InStep() && Sys() == Released(s, t, m)
      ensures !needSchedule ==> ready.threads == old(ready.threads)
    {
      WaitersSuspended(s, t, m);
      hide InStep, MayRelease, Released, HandedOver;
      var changed := LeaveTaken(s, t, m);
      ReleasedIsHandedOver(s, t, m, threads);
      var woken := HandOver(m);
      needSchedule := changed || woken;
    }

    /** m leaves t's taken list and t falls back to the priority its other mutexes lend it. */
    method LeaveTaken(ghost s: System, t: ThreadId, m: MutexId) returns (changed: bool)
      requires InStep() && MayRelease(s, t, m)
      requires threads == s.threads && mutexes == s.mutexes[m := s.mutexes[m].(hold := 0)]
      modifies this`threads, ready`group, ready`threads, ready.lists, ready.table
      ensures InStep() && (!changed ==> ready.threads == old(ready.threads))
      ensures var rest := Remove(s.threads[t].taken, m);
              && (forall n :: n in rest ==> n in s.mutexes)
              && threads == s.threads[t := s.threads[t].(taken := rest,
                                                         current := Highest(s.mutexes, s.threads[t].init, rest))]
    {
      hide WellFormed, QueuesOk, CurrentsOkExcept, MutexLinked, Linked, Highest, InStep;
      SetTaken(t, Remove(threads[t].taken, m));
      SameHighest(s.mutexes, mutexes, threads[t].init, threads[t].taken);
      changed := threads[t].current == mutexes[m].priority;
      if changed {
        var priority := GetMutexPriority(t);
        SetPriority(t, priority);
      } else {
        ReleaserPriority(s, t, m);
      }
    }

    method SetTaken(t: ThreadId, taken: seq<MutexId>)
      requires InStep() && t in threads
      modifies this`threads
      ensures InStep() && threads == old(threads)[t := old(threads[t]).(taken := taken)]
    {
      threads := threads[t := threads[t].(taken := taken)];
    }

    /** The first waiter, if any, becomes the owner. */
    method HandOver(m: MutexId) returns (woken: bool)
      requires InStep() && m in mutexes && forall w :: w in mutexes[m].waiters ==> w in threads && threads[w].suspended
      requires mutexes[m].hold == 0
      modifies this, ready`group, ready`threads, ready.lists, ready.table
      ensures InStep() && Sys() == HandedOver(old(Sys()), m)
      ensures !woken ==> ready.threads == old(ready.threads)
    {
      hide InStep;
      woken := mutexes[m].waiters != [];
      if woken {
        var next := mutexes[m].waiters[0];
        mutexes := mutexes[m := mutexes[m].(waiters := mutexes[m].waiters[1..], owner := Some(next), hold := 1)];
        ResumeOwner(next, m);
        MutexUpdatePriority(m);
      } else {
        mutexes := mutexes[m := mutexes[m].(owner := None, priority := NO_WAITER)];
      }
    }

    /**
     * Deleting a thread that waits for a mutex and holds none: rt_mutex_drop_thread, then the thread is gone.
     * pending_object is cleared first; nothing in between reads it, since no chain of owners passes through t. The
     * inherited priorities are exact afterwards if and only if every deadlocked thread that t was blocked on is lent
     * its priority by another thread as well.
     */
    method DropThread(t: ThreadId)
      requires InStep() && Prioritized(Sys()) && t in threads && threads[t].pending.Some? && threads[t].taken == []
      modifies this, ready`group, ready`threads, ready.lists, ready.table
      ensures InStep() && Prioritized(Sys())
      ensures WellFormed(old(Sys())) && ThreadLinked(old(Sys()), t) && DropOutcome(old(Sys()), t, Sys())
      ensures old(Good(Sys())) ==> (Good(Sys()) <==> old(CyclesStillLent(Sys(), t)))
      ensures old(Acyclic(Sys())) ==> Good(Sys())
    {
      hide Prioritized, WellFormed, CurrentsOkExcept, MayUpdate, Propagated, ThreadLinked, Lowered, Highest;
      hide Acyclic, InStep;
      hide Dropped, DropOutcome, Good, CyclesStillLent;
      ghost var s := Sys();
      DropFacts(s, t);
      DropReady(s, t);
      var m := threads[t].pending.value;
      var owner := mutexes[m].owner.value;
      var needUpdate := threads[owner].current == threads[t].current;
      LeaveQueue(t, m);
      if needUpdate {
        var priority := GetMutexPriority(owner);
        if priority != threads[owner].current {
          UpdatePriority(owner, priority);
        }
      }
      DropDone(s, t, Sys());
      StillThere(s, t, Sys());
      Forget(t);
    }

    /** t is taken off the queue of m, whose cached priority follows. */
    method LeaveQueue(t: ThreadId, m: MutexId)
      requires InStep() && WellFormed(Sys()) && t in threads && ThreadLinked(Sys(), t) && threads[t].pending == Some(m)
      modifies this`threads, this`mutexes
      ensures InStep() && Sys() == Dropped(old(Sys()), t)
    {
      hide InStep, Linked, QueuesOk;
      mutexes := mutexes[m := mutexes[m].(waiters := Remove(mutexes[m].waiters, t))];
      SetPending(t, None);
      MutexUpdatePriority(m);
    }

    /** The thread is gone; the ready queue keeps it as one that never runs again. */
    method Forget(t: ThreadId)
      requires InStep() && t in threads && threads[t].suspended
      modifies this`threads
      ensures InStep() && threads == old(threads) - {t}
    {
      threads := threads - {t};
    }

    // -------------------------------------------------------------- the scheduler's decision

    /** No ready thread has a strictly higher inherited priority than the running one. */
    ghost predicate NoneAhead()
      reads this, ready
    {
      forall x, p: nat, q: nat {:trigger IsInheritedPriority(Sys(), ready.current, p),
                                IsInheritedPriority(Sys(), x, q)} ::
        x in threads && x in ready.threads && ready.threads[x].stat.Ready?
        && IsInheritedPriority(Sys(), ready.current, p) && IsInheritedPriority(Sys(), x, q)
        ==> p <= q
    }

    /** The running thread is one of those the mutexes know, and has the processor because no other should. */
    ghost predicate Running()
      reads this, ready, ready.lists, ready.table
    {
      && InStep() && Good(Sys()) && ready.lockNest == 0
      && (ready.threads[ready.current].stat.Running? ==>
            ReadyQueue.NoneOutranks(ready.threads, ready.threads[ready.current].priority))
    }

    /** At exact inherited priorities the scheduler's choice is the right one. */
    lemma RunningIsHighest()
      requires Running() && ready.threads[ready.current].stat.Running?
      ensures NoneAhead()
    {
      var r := ready.current;
      InheritedPriorityExact(Sys(), r);
      forall x, p: nat, q: nat | x in threads && x in ready.threads && ready.threads[x].stat.Ready?
        && IsInheritedPriority(Sys(), r, p) && IsInheritedPriority(Sys(), x, q) ensures p <= q
      {
        InheritedPriorityExact(Sys(), x);
        InheritedPriorityUnique(Sys(), r, p, threads[r].current);
        InheritedPriorityUnique(Sys(), x, q, threads[x].current);
        assert SameThread(threads[r], ready.threads[r], ready.wide) && SameThread(threads[x], ready.threads[x],
                          ready.wide);
      }
    }

    /** rt_schedule after a mutex operation */
    method Reschedule()
      requires InStep() && Good(Sys()) && ready.lockNest == 0
      modifies ready, ready.lists, ready.table
      ensures Running()
    {
      ghost var rs, from, ls := ready.threads, ready.current, ready.lists[..];
      ready.Schedule();
      if !ReadyQueue.NoReady(rs) {
        SwitchMatches(threads, rs, ready.threads, ready.wide, from, ready.current, ls, ready.lists[..]);
      }
    }

    /** What the running thread does, and the scheduler's decision where the kernel asks for it. */
    method Perform(act: Act) returns (reply: Reply)
      requires Running() && ready.threads[ready.current].stat.Running?
      modifies this, ready, ready.lists, ready.table
      ensures Running() && old(ready.current) in old(ready.threads)
      ensures ActStep(old(Sys()), old(ready.threads), old(ready.current), act, reply, Sys(), ready.current)
    {
      hide TakeOutcome, ReleaseOutcome, RaisedTo, Good, WellFormed;
      reply := NotMade;
      var t := ready.current;
      assert t in threads && SameThread(threads[t], ready.threads[t], ready.wide);
      match act
      case TakeIt(m, timeout) =>
        if m in mutexes {
          var r := TakeMutex(t, m, timeout);
          reply := Took(r);
          if r == Suspended {
            Reschedule();
          }
        }
      case ReleaseIt(m) =>
        if m in mutexes {
          var ok, needSchedule := ReleaseMutex(t, m);
          reply := GaveBack(ok);
          if needSchedule {
            Reschedule();
          }
        }
      case YieldIt =>
        YieldProcessor();
    }

    /** rt_thread_yield */
    method YieldProcessor()
      requires Running() && ready.threads[ready.current].stat.Running?
      modifies ready, ready.lists, ready.table
      ensures Running()
      ensures old(ready.current) in old(ready.threads)
      ensures ready.current == old(ready.current) <==>
                ReadyQueue.NoReady(old(ready.threads)) || ReadyQueue.AllBelow(old(ready.threads), old(ready.current))
    {
      hide Matches, ReadyQueue.Switched, ReadyQueue.NoReady, ReadyQueue.AllBelow, Good;
      ghost var rs, from, ls := ready.threads, ready.current, ready.lists[..];
      ready.Yield();
      YieldMatches(threads, rs, ready.threads, ready.wide, from, ready.current, ls, ready.lists[..]);
    }

    /**
     * Any acts of whichever thread is running, until none is. In the end priorities are inherited exactly, bitmaps and
     * lists of the ready queue agree, and no ready thread has a higher inherited priority than the running one. The
     * log says what each act did and which thread had the processor.
     */
    method RunScheduled(acts: seq<Act>)
      returns (done: nat, ghost states: seq<System>, ghost readies: seq<ReadyQueue.Threads>,
               ghost runners: seq<ThreadId>, replies: seq<Reply>)
      requires Running()
      modifies this, ready, ready.lists, ready.table
      ensures Running() && done <= |acts|
      ensures Logged(states, readies, runners, acts, replies, done)
      ensures states[0] == old(Sys()) && states[done] == Sys()
      ensures readies[0] == old(ready.threads) && readies[done] == ready.threads
      ensures runners[0] == old(ready.current) && runners[done] == ready.current
      ensures done < |acts| ==> !ready.threads[ready.current].stat.Running?
      ensures ready.threads[ready.current].stat.Running? ==> NoneAhead()
    {
      hide ActStep;
      done, states, readies, runners, replies := 0, [Sys()], [ready.threads], [ready.current], [];
      while done < |acts| && ready.threads[ready.current].stat == ReadyQueue.Running
        invariant Running() && done <= |acts|
        invariant Logged(states, readies, runners, acts, replies, done)
        invariant states[0] == old(Sys()) && states[done] == Sys()
        invariant readies[0] == old(ready.threads) && readies[done] == ready.threads
        invariant runners[0] == old(ready.current) && runners[done] == ready.current
      {
        var reply := Perform(acts[done]);
        LogNext(states, readies, runners, acts, replies, done, Sys(), ready.threads, ready.current, reply);
        states, readies := states + [Sys()], readies + [ready.threads];
        runners, replies := runners + [ready.current], replies + [reply];
        done := done + 1;
      }
      if ready.threads[ready.current].stat.Running? {
        RunningIsHighest();
      }
    }

    /** One call. */
    method Make(call: Call) returns (reply: Reply)
      requires InStep() && Good(Sys())
      modifies this, ready`group, ready`threads, ready.lists, ready.table
      ensures InStep() && Good(Sys()) && CallStep(old(Sys()), call, reply, Sys())
    {
      reply := NotMade;
      if call.thread in threads && call.mutex in mutexes && !threads[call.thread].suspended {
        match call
        case Take(t, m, timeout) =>
          var r := TakeMutex(t, m, timeout);
          reply := Took(r);
        case Release(t, m) =>
          var ok, needSchedule := ReleaseMutex(t, m);
          reply := GaveBack(ok);
      }
    }

    /** Any calls by any threads in any order, each doing what it should; a suspended thread makes none. */
    method Run(calls: seq<Call>) returns (ghost states: seq<System>, replies: seq<Reply>)
      requires InStep() && Good(Sys())
      modifies this, ready`group, ready`threads, ready.lists, ready.table
      ensures InStep() && Good(Sys())
      ensures IsRun(states, calls, replies) && states[0] == old(Sys()) && states[|calls|] == Sys()
      ensures forall t :: t in threads ==> IsInheritedPriority(Sys(), t, threads[t].current)
    {
      hide CallStep, Good;
      states, replies := [Sys()], [];
      for i := 0 to |calls|
        invariant InStep() && Good(Sys())
        invariant IsRun(states, calls[..i], replies) && states[0] == old(Sys()) && states[i] == Sys()
      {
        var reply := Make(calls[i]);
        states, replies := states + [Sys()], replies + [reply];
      }
      assert calls[..|calls|] == calls;
      forall t | t in threads ensures IsInheritedPriority(Sys(), t, threads[t].current) {
        InheritedPriorityExact(Sys(), t);
      }
    }
  }
}
