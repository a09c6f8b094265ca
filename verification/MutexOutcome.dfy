/** What a call of rt_mutex_take or rt_mutex_release leaves, field by field, and what runs of such calls add up to. */
module MutexOutcome {
  import opened Lists
  import opened MutexModel
  import opened MutexSteps

  datatype TakeResult = Taken | HoldOverflow | TimedOut | Suspended

  datatype Call = Take(thread: ThreadId, mutex: MutexId, timeout: int) | Release(thread: ThreadId, mutex: MutexId)

  /** How a call ended; a thread that is unknown or suspended makes none. */
  datatype Reply = Took(r: TakeResult) | GaveBack(ok: bool) | NotMade

  // ---------------------------------------------------------------- one call

  /** t has gone to sleep on m: owners and hold counts stay, and whoever became more urgent now has t's priority. */
  ghost predicate Blocked(s: System, t: ThreadId, m: MutexId, s': System)
    requires t in s.threads && m in s.mutexes
  {
    && s'.threads.Keys == s.threads.Keys && s'.mutexes.Keys == s.mutexes.Keys
    && s'.threads[t] == s.threads[t].(suspended := true, pending := Some(m))
    && (forall x :: x in s.threads && x != t ==>
          && s'.threads[x] == s.threads[x].(current := s'.threads[x].current)
          && (s'.threads[x].current == s.threads[x].current || s'.threads[x].current == s.threads[t].current))
    && (forall n :: n in s.mutexes ==>
          s'.mutexes[n].owner == s.mutexes[n].owner && s'.mutexes[n].hold == s.mutexes[n].hold)
    && (forall n, w :: n in s.mutexes ==>
          (w in s'.mutexes[n].waiters <==> w in s.mutexes[n].waiters || (n == m && w == t)))
  }

  /** rt_mutex_take by t, up to its going to sleep. */
  ghost predicate TakeOutcome(s: System, t: ThreadId, m: MutexId, timeout: int, r: TakeResult, s': System)
    requires t in s.threads && m in s.mutexes
  {
    var x, y := s.mutexes[m], s.threads[t];
    if x.owner.None? then
      && r == Taken && s'.threads == s.threads[t := y.(taken := [m] + y.taken)]
      && s'.mutexes == s.mutexes[m := Mutex(Some(t), 1, 0xFF, [])]
    else if x.owner == Some(t) then
      if x.hold < 255 then
        r == Taken && s'.threads == s.threads && s'.mutexes == s.mutexes[m := x.(hold := x.hold + 1)]
      else r == HoldOverflow && s' == s
    else if timeout == 0 then r == TimedOut && s' == s
    else r == Suspended && Blocked(s, t, m, s')
  }

  /** t has given m up for good: the first waiter, if there is one, holds it once. */
  ghost predicate GivenUp(s: System, t: ThreadId, m: MutexId, s': System)
    requires t in s.threads && m in s.mutexes
  {
    var x, y := s.mutexes[m], s.threads[t];
    && t in s'.threads && s'.threads[t] == y.(taken := Remove(y.taken, m), current := s'.threads[t].current)
    && if x.waiters == [] then
         && s'.threads == s.threads[t := s'.threads[t]]
         && s'.mutexes == s.mutexes[m := Mutex(None, 0, 0xFF, [])]
       else
         var w := x.waiters[0];
         && w in s.threads && w != t
         && s'.threads == s.threads[t := s'.threads[t]]
                                   [w := s.threads[w].(suspended := false, pending := None,
                                                       taken := [m] + s.threads[w].taken)]
         && (|x.waiters| > 1 ==> x.waiters[1] in s.threads)
         && s'.mutexes == s.mutexes[m := Mutex(Some(w), 1,
                                               if |x.waiters| == 1 then 0xFF else s.threads[x.waiters[1]].current,
                                               x.waiters[1..])]
  }

  /** rt_mutex_release by t */
  ghost predicate ReleaseOutcome(s: System, t: ThreadId, m: MutexId, ok: bool, s': System)
    requires t in s.threads && m in s.mutexes
  {
    var x := s.mutexes[m];
    if x.owner != Some(t) then !ok && s' == s
    else if x.hold > 1 then
      ok && s'.threads == s.threads && s'.mutexes == s.mutexes[m := x.(hold := x.hold - 1)]
    else ok && GivenUp(s, t, m, s')
  }

  lemma FreeTaken(s: System, t: ThreadId, m: MutexId, timeout: int)
    requires Good(s) && t in s.threads && m in s.mutexes && !s.threads[t].suspended && s.mutexes[m].owner.None?
    ensures Good(Grabbed(s, t, m)) && TakeOutcome(s, t, m, timeout, Taken, Grabbed(s, t, m))
  {
    assert ThreadLinked(s, t) && MutexLinked(s, m);
    GrabbedGood(s, t, m);
  }

  /** What a take that finds an owner can rely on, up to its going to sleep. */
  lemma OwnedTaken(s: System, t: ThreadId, m: MutexId, timeout: int)
    requires Good(s) && t in s.threads && m in s.mutexes && !s.threads[t].suspended && s.mutexes[m].owner.Some?
    ensures WellFormed(s) && s.threads[t].pending.None? && forall w :: w in s.mutexes[m].waiters ==> w in s.threads
    ensures var x := s.mutexes[m];
            if x.owner == Some(t) && x.hold < HOLD_MAX then
              var s' := System(s.threads, s.mutexes[m := x.(hold := x.hold + 1)]);
              Good(s') && TakeOutcome(s, t, m, timeout, Taken, s')
            else if x.owner == Some(t) then TakeOutcome(s, t, m, timeout, HoldOverflow, s)
            else timeout == 0 ==> TakeOutcome(s, t, m, timeout, TimedOut, s)
    ensures forall s' :: s.mutexes[m].owner != Some(t) && timeout != 0 && Blocked(s, t, m, s') ==>
              TakeOutcome(s, t, m, timeout, Suspended, s')
  {
    WaitersExist(s);
    assert ThreadLinked(s, t);
    if s.mutexes[m].owner == Some(t) && s.mutexes[m].hold < HOLD_MAX {
      RecursiveTakeGood(s, t, m);
    }
    hide Good;
  }

  lemma EnqueuedIsBlocked(s: System, t: ThreadId, m: MutexId, s': System)
    requires Good(s) && WellFormed(s) && t in s.threads && m in s.mutexes && s.mutexes[m].owner.Some?
    requires forall w :: w in s.mutexes[m].waiters ==> w in s.threads
    requires RaisedTo(Enqueued(s, t, m), s', s.mutexes[m].owner.value, s.threads[t].current)
    ensures Blocked(s, t, m, s')
  {
    QueuedMembers(s.threads, s.mutexes[m].waiters, t);
    hide Good, WellFormed, Queued, BlockedOn;
  }

  lemma ReleasedIsGivenUp(s: System, t: ThreadId, m: MutexId)
    requires MayRelease(s, t, m)
    ensures GivenUp(s, t, m, Released(s, t, m))
  {
    WaitersSuspended(s, t, m);
    hide Prioritized, WellFormed, Highest;
    var waiters := s.mutexes[m].waiters;
    assert waiters != [] ==> waiters[0] in waiters;
    assert |waiters| > 1 ==> waiters[1] in waiters && waiters[1..][0] == waiters[1];
  }

  // ---------------------------------------------------------------- runs of calls

  ghost predicate CallStep(s: System, c: Call, r: Reply, s': System) {
    if c.thread !in s.threads || c.mutex !in s.mutexes || s.threads[c.thread].suspended then r == NotMade && s' == s
    else match c
         case Take(t, m, timeout) => r.Took? && TakeOutcome(s, t, m, timeout, r.r, s')
         case Release(t, m) => r.GaveBack? && ReleaseOutcome(s, t, m, r.ok, s')
  }

  /** Each call with its reply leads from one state to the next. */
  ghost predicate IsRun(states: seq<System>, calls: seq<Call>, replies: seq<Reply>) {
    && |states| == |calls| + 1 && |replies| == |calls|
    && (forall i {:trigger states[i]} :: 0 <= i < |states| ==> Good(states[i]))
    && (forall i {:trigger calls[i]} :: 0 <= i < |calls| ==> CallStep(states[i], calls[i], replies[i], states[i + 1]))
  }

  /** How often t holds m. */
  function Holds(s: System, t: ThreadId, m: MutexId): nat {
    if m in s.mutexes && s.mutexes[m].owner == Some(t) then s.mutexes[m].hold else 0
  }

  /** What a call adds to that: a take that succeeds or a hand-over one more, a release that succeeds one less. */
  function Change(s: System, c: Call, r: Reply, t: ThreadId, m: MutexId): int {
    if c.mutex != m then 0
    else if r == Took(Taken) && c.thread == t then 1
    else if r == GaveBack(true) && c.thread == t then -1
    else if r == GaveBack(true) && m in s.mutexes && s.mutexes[m].hold == 1 && s.mutexes[m].waiters != []
            && s.mutexes[m].waiters[0] == t then 1
    else 0
  }

  function Changes(states: seq<System>, calls: seq<Call>, replies: seq<Reply>, t: ThreadId, m: MutexId): int
    requires |states| > |calls| && |replies| == |calls|
  {
    if calls == [] then 0
    else
      var n := |calls| - 1;
      Changes(states[..n + 1], calls[..n], replies[..n], t, m) + Change(states[n], calls[n], replies[n], t, m)
  }

  /** Over any run, what t holds of m is what it held before, with every take, hand-over and release counted. */
  lemma {:induction false} HoldsAddUp(states: seq<System>, calls: seq<Call>, replies: seq<Reply>, t: ThreadId,
                                      m: MutexId)
    requires IsRun(states, calls, replies)
    ensures Holds(states[|calls|], t, m) == Holds(states[0], t, m) + Changes(states, calls, replies, t, m)
    decreases |calls|
  {
    if calls != [] {
      var n := |calls| - 1;
      assert forall i {:trigger states[..n + 1][i]} :: 0 <= i < n + 1 ==> states[..n + 1][i] == states[i];
      hide CallStep, Good;
      HoldsAddUp(states[..n + 1], calls[..n], replies[..n], t, m);
      HoldsStep(states[n], calls[n], replies[n], states[n + 1], t, m);
    }
  }

  lemma HoldsStep(s: System, c: Call, r: Reply, s': System, t: ThreadId, m: MutexId)
    requires Good(s) && CallStep(s, c, r, s')
    ensures Holds(s', t, m) == Holds(s, t, m) + Change(s, c, r, t, m)
  {
    if c.mutex in s.mutexes {
      assert MutexLinked(s, c.mutex);
    }
    hide Good;
  }

  /** After n takes of a free mutex by t it takes n releases, and not fewer, until it is free; then all is as before. */
  lemma TakesNeedReleases(states: seq<System>, calls: seq<Call>, replies: seq<Reply>, t: ThreadId, m: MutexId, n: nat)
    requires IsRun(states, calls, replies) && |calls| == 2 * n && 0 < n <= 255
    requires t in states[0].threads && !states[0].threads[t].suspended
    requires m in states[0].mutexes && states[0].mutexes[m].owner.None?
    requires forall i {:trigger calls[i]} :: 0 <= i < n ==>
               calls[i].Take? && calls[i].thread == t && calls[i].mutex == m
    requires forall i {:trigger calls[i]} :: n <= i < 2 * n ==> calls[i] == Release(t, m)
    ensures forall k {:trigger states[k]} :: 0 < k < 2 * n ==>
              m in states[k].mutexes && states[k].mutexes[m].owner == Some(t)
              && states[k].mutexes[m].hold == if k <= n then k else 2 * n - k
    ensures states[2 * n] == states[0]
  {
    hide Good;
    TakenOften(states, calls, replies, t, m, n, n);
    forall k {:trigger states[k]} | 0 < k < 2 * n
      ensures TakenTimes(states[0], states[k], t, m, if k <= n then k else 2 * n - k)
    {
      if k <= n {
        TakenOften(states, calls, replies, t, m, n, k);
      } else {
        GivenBackOften(states, calls, replies, t, m, n, k - n);
      }
    }
    GivenBackOften(states, calls, replies, t, m, n, n - 1);
    assert calls[2 * n - 1] == Release(t, m);
    LastRelease(states[0], states[2 * n - 1], states[2 * n], t, m, replies[2 * n - 1]);
  }

  /** The state after k takes. */
  ghost predicate TakenTimes(s0: System, s: System, t: ThreadId, m: MutexId, k: nat)
    requires t in s0.threads && m in s0.mutexes
  {
    && s.threads == s0.threads[t := s0.threads[t].(taken := [m] + s0.threads[t].taken)]
    && s.mutexes == s0.mutexes[m := Mutex(Some(t), k, 0xFF, [])]
  }

  lemma {:induction false} TakenOften(states: seq<System>, calls: seq<Call>, replies: seq<Reply>, t: ThreadId,
                                      m: MutexId, n: nat, k: nat)
    requires IsRun(states, calls, replies) && |calls| == 2 * n && 0 < k <= n <= 255
    requires t in states[0].threads && !states[0].threads[t].suspended
    requires m in states[0].mutexes && states[0].mutexes[m].owner.None?
    requires forall i {:trigger calls[i]} :: 0 <= i < n ==>
               calls[i].Take? && calls[i].thread == t && calls[i].mutex == m
    ensures TakenTimes(states[0], states[k], t, m, k)
    decreases k
  {
    hide Good;
    var c := calls[k - 1];
    assert CallStep(states[k - 1], c, replies[k - 1], states[k]);
    if k > 1 {
      TakenOften(states, calls, replies, t, m, n, k - 1);
    }
  }

  lemma {:induction false} GivenBackOften(states: seq<System>, calls: seq<Call>, replies: seq<Reply>, t: ThreadId,
                                          m: MutexId, n: nat, k: nat)
    requires IsRun(states, calls, replies) && |calls| == 2 * n && k < n <= 255
    requires t in states[0].threads && !states[0].threads[t].suspended && m in states[0].mutexes
    requires TakenTimes(states[0], states[n], t, m, n)
    requires forall i {:trigger calls[i]} :: n <= i < 2 * n ==> calls[i] == Release(t, m)
    ensures TakenTimes(states[0], states[n + k], t, m, n - k)
    decreases k
  {
    hide Good;
    if k > 0 {
      GivenBackOften(states, calls, replies, t, m, n, k - 1);
      var c := calls[n + k - 1];
      assert c == Release(t, m);
      assert CallStep(states[n + k - 1], c, replies[n + k - 1], states[n + k]);
    }
  }

  /** With the last release everything is as before the first take: priorities follow from the invariant. */
  lemma LastRelease(s0: System, s: System, s': System, t: ThreadId, m: MutexId, r: Reply)
    requires Good(s0) && Good(s') && t in s0.threads && m in s0.mutexes && s0.mutexes[m].owner.None?
    requires !s0.threads[t].suspended
    requires TakenTimes(s0, s, t, m, 1) && CallStep(s, Release(t, m), r, s')
    ensures s' == s0
  {
    assert MutexLinked(s0, m) && QueueOk(s0, m) && ThreadLinked(s0, t) && CurrentOk(s0, t) && CurrentOk(s', t);
    var taken := s0.threads[t].taken;
    FreeIsClean(s0, t, m);
    assert ([m] + taken)[1..] == taken && Remove([m] + taken, m) == taken;
    hide *;
    LastStep(s0, s, s', t, m, r);
    SamePriority(s0, s', t);
    assert s'.threads[t] == s0.threads[t];
    assert s'.threads == s0.threads;
  }

  lemma LastStep(s0: System, s: System, s': System, t: ThreadId, m: MutexId, r: Reply)
    requires t in s0.threads && m in s0.mutexes && s0.mutexes[m] == Mutex(None, 0, 0xFF, [])
    requires !s0.threads[t].suspended && Remove([m] + s0.threads[t].taken, m) == s0.threads[t].taken
    requires TakenTimes(s0, s, t, m, 1) && CallStep(s, Release(t, m), r, s')
    ensures s'.mutexes == s0.mutexes && t in s'.threads
    ensures s'.threads == s0.threads[t := s0.threads[t].(current := s'.threads[t].current)]
  {
    hide Remove;
  }

  lemma SamePriority(s: System, s': System, t: ThreadId)
    requires t in s.threads && t in s'.threads && CurrentOk(s, t) && CurrentOk(s', t) && s'.mutexes == s.mutexes
    requires s'.threads[t].taken == s.threads[t].taken && s'.threads[t].init == s.threads[t].init
    ensures s'.threads[t].current == s.threads[t].current
  {
    hide Highest;
  }

  lemma FreeIsClean(s: System, t: ThreadId, m: MutexId)
    requires m in s.mutexes && t in s.threads && MutexLinked(s, m) && QueueOk(s, m) && ThreadLinked(s, t)
    ensures s.mutexes[m].owner.None? ==> s.mutexes[m] == Mutex(None, 0, 0xFF, []) && m !in s.threads[t].taken
  {
  }
}
