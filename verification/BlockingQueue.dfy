/**
 * The message queue of ipc.c with threads that wait: the regions of MessageQueue together with the two wait lists.
 * A thread that has reserved or unlinked a node is in the middle of its call; nodes in its hands are neither room
 * for a sender nor a message for a receiver.
 */
module BlockingQueue {
  import opened Lists
  import opened Waiting
  import opened WaitLists
  import opened MessageQueue
  import opened QueueSteps

  datatype Start = Started | TooLong | NoRoom | NoMessage | FellAsleep

  class Blocking {
    const mq: Queue
    const waits: Sleepers

    /** The nodes are in order, neither side oversleeps, and whoever works on a node is awake. */
    ghost predicate Valid()
      reads this, waits, mq, mq.next, mq.body
    {
      && mq.Valid()
      && waits.Rested(|mq.freeList|, |mq.queue|)
      && forall t {:trigger mq.tasks[t]} :: t in mq.tasks && t in waits.ph ==> waits.ph[t].Idle?
    }

    /** rt_mq_init */
    constructor (msgSize: nat, maxMsgs: nat, byPriority: bool, priorities: map<Tid, nat>)
      requires maxMsgs <= ENTRY_MAX
      ensures Valid() && mq.messages == [] && mq.tasks == map[]
      ensures fresh(mq) && fresh(waits) && fresh(mq.next) && fresh(mq.body)
    {
      mq := new Queue(msgSize, maxMsgs);
      waits := new Sleepers(byPriority, priorities);
    }

    /** The first locked region of rt_mq_send_wait, from its start or after a wakeup. */
    method SendRegion(t: Tid, buffer: Bytes, mayWait: bool) returns (r: Start)
      requires Valid() && t !in mq.tasks && t in waits.ph
      requires waits.ph[t].Idle? || (IsDue(waits.ph[t], SEND) && |buffer| <= mq.msgSize)
      modifies waits, mq, mq.next, mq.body
      ensures Valid() && waits.receivers == old(waits.receivers)
      ensures mq.messages == old(mq.messages) && mq.events == old(mq.events) && mq.held == old(mq.held)
      ensures r == if |buffer| > mq.msgSize then TooLong
                   else if old(mq.freeList) != [] then Started
                   else if mayWait then FellAsleep else NoRoom
      ensures r.Started? ==> && mq.tasks == old(mq.tasks)[t := Filling(old(mq.freeList)[0], false, buffer)]
                             && mq.freeList == old(mq.freeList)[1..]
      ensures !r.Started? ==> mq.tasks == old(mq.tasks) && mq.freeList == old(mq.freeList)
      ensures mq.queue == old(mq.queue)
      ensures r.FellAsleep? ==> waits.ph == old(waits.ph)[t := Asleep(SEND, 0)]
                                && Joins(waits.byPriority, waits.priorities, old(waits.senders), waits.senders, t)
      ensures !r.FellAsleep? ==> waits.ph == old(waits.ph)[t := Idle] && waits.senders == old(waits.senders)
    {
      hide Inv, InQueue, Due, Queue.Valid;
      ghost var room := |mq.freeList|;
      var begun := mq.SendBegin(t, buffer, false);
      match begun {
        case Full =>
          if mayWait {
            waits.SenderSleeps(t, 0, |mq.queue|);
            return FellAsleep;
          }
          waits.Done(t);
          return NoRoom;
        case Ok =>
          waits.Done(t);
          return Started;
        case _ =>
          return TooLong;
      }
    }

    /** The first locked region of rt_mq_urgent, which never waits. */
    method UrgentRegion(t: Tid, buffer: Bytes) returns (r: Start)
      requires Valid() && t !in mq.tasks && (t in waits.ph ==> waits.ph[t].Idle?)
      modifies mq, mq.next, mq.body
      ensures Valid() && mq.messages == old(mq.messages) && mq.events == old(mq.events) && mq.held == old(mq.held)
      ensures r == if |buffer| > mq.msgSize then TooLong else if old(mq.freeList) != [] then Started else NoRoom
      ensures mq.tasks == if r.Started? then old(mq.tasks)[t := Filling(old(mq.freeList)[0], true, buffer)]
                          else old(mq.tasks)
      ensures mq.queue == old(mq.queue)
      ensures mq.freeList == if r.Started? then old(mq.freeList)[1..] else old(mq.freeList)
    {
      hide Inv, InQueue, Due, Queue.Valid;
      var begun := mq.SendBegin(t, buffer, true);
      r := match begun case Ok => Started case Full => NoRoom case _ => TooLong;
    }

    /** The copy of a send, made with interrupts on. */
    method SendCopy(t: Tid)
      requires Valid() && t in mq.tasks && mq.tasks[t].Filling?
      modifies mq, mq.next, mq.body
      ensures Valid() && mq.messages == old(mq.messages) && mq.events == old(mq.events) && mq.held == old(mq.held)
      ensures mq.queue == old(mq.queue) && mq.freeList == old(mq.freeList)
      ensures mq.tasks == old(mq.tasks)[t := Filled(old(mq.tasks[t]).node, old(mq.tasks[t]).urgent,
                                                    old(mq.tasks[t]).buffer)]
    {
      hide Inv, InQueue, Due, Queue.Valid;
      mq.SendCopy(t);
    }

    /** The second locked region of a send: the message is linked and the first sleeping receiver resumed. */
    method LinkRegion(t: Tid)
      requires Valid() && t in mq.tasks && mq.tasks[t].Filled?
      modifies waits, mq, mq.next, mq.body
      ensures Valid() && mq.tasks == old(mq.tasks) - {t} && waits.senders == old(waits.senders)
      ensures mq.held == old(mq.held) && mq.freeList == old(mq.freeList)
      ensures var m, urgent, n := old(mq.tasks[t]).buffer, old(mq.tasks[t]).urgent, old(mq.tasks[t]).node;
              && mq.queue == (if urgent then [n] + old(mq.queue) else old(mq.queue) + [n])
              && mq.messages == (if urgent then [m] + old(mq.messages) else old(mq.messages) + [m])
              && mq.events == old(mq.events) + [Linked(m, urgent)]
      ensures WokeFirst(old(waits.ph), waits.ph, RECV, old(waits.receivers), waits.receivers)
    {
      hide Inv, InQueue, Due, Queue.Valid;
      var ok;
      if mq.tasks[t].urgent {
        ok := mq.UrgentLink(t);
      } else {
        ok := mq.SendLink(t);
      }
      WokenIdle(waits.ph, RECV, waits.receivers);
      waits.WakeReceiver(|mq.freeList|, |mq.queue|);
    }

    /** The first locked region of rt_mq_recv, from its start or after a wakeup. */
    method RecvRegion(t: Tid, size: nat, mayWait: bool) returns (r: Start)
      requires Valid() && t !in mq.tasks && t in waits.ph && (waits.ph[t].Idle? || IsDue(waits.ph[t], RECV))
      modifies waits, mq, mq.next, mq.body
      ensures Valid() && waits.senders == old(waits.senders) && mq.freeList == old(mq.freeList)
      ensures |old(mq.queue)| == |old(mq.messages)| && (!r.Started? ==> mq.queue == old(mq.queue))
      ensures r == if old(mq.messages) != [] then Started else if mayWait then FellAsleep else NoMessage
      ensures r.Started? ==> |old(mq.queue)| > 0 && mq.tasks == old(mq.tasks)[t := Draining(old(mq.queue)[0], size)]
                             && mq.queue == old(mq.queue)[1..] && mq.messages == old(mq.messages)[1..]
                             && mq.held == old(mq.held)[t := old(mq.messages)[0]]
                             && mq.events == old(mq.events) + [Unlinked(old(mq.messages)[0])]
      ensures !r.Started? ==> mq.messages == old(mq.messages) && mq.tasks == old(mq.tasks)
                              && mq.events == old(mq.events) && mq.held == old(mq.held)
      ensures r.FellAsleep? ==> waits.ph == old(waits.ph)[t := Asleep(RECV, 0)]
                                && Joins(waits.byPriority, waits.priorities, old(waits.receivers), waits.receivers, t)
      ensures !r.FellAsleep? ==> waits.ph == old(waits.ph)[t := Idle] && waits.receivers == old(waits.receivers)
    {
      hide Inv, InQueue, Due, Queue.Valid;
      AsManyMessages();
      var begun := mq.RecvBegin(t, size);
      if begun == Ok {
        waits.Done(t);
        return Started;
      }
      if mayWait {
        waits.ReceiverSleeps(t, |mq.freeList|);
        return FellAsleep;
      }
      waits.Done(t);
      r := NoMessage;
    }

    /** The copy of a receive, made with interrupts on. */
    method RecvCopy(t: Tid) returns (buffer: Bytes)
      requires Valid() && t in mq.tasks && mq.tasks[t].Draining?
      modifies mq
      ensures Valid() && mq.messages == old(mq.messages) && mq.events == old(mq.events) && mq.held == old(mq.held)
      ensures mq.queue == old(mq.queue) && mq.freeList == old(mq.freeList)
      ensures mq.tasks == old(mq.tasks)[t := Drained(old(mq.tasks[t]).node, old(mq.tasks[t]).size)]
      ensures t in mq.held && Delivers(buffer, old(mq.tasks[t]).size, mq.msgSize, mq.held[t])
    {
      hide Inv, InQueue, Due, Queue.Valid;
      buffer := mq.RecvCopy(t);
    }

    /** The last locked region of rt_mq_recv: the node is given back and the first sleeping sender resumed. */
    method FreeRegion(t: Tid)
      requires Valid() && t in mq.tasks && mq.tasks[t].Drained?
      modifies waits, mq, mq.next, mq.body
      ensures Valid() && mq.tasks == old(mq.tasks) - {t} && waits.receivers == old(waits.receivers)
      ensures mq.messages == old(mq.messages) && mq.events == old(mq.events) && mq.held == old(mq.held)
      ensures mq.queue == old(mq.queue) && mq.freeList == [old(mq.tasks[t]).node] + old(mq.freeList)
      ensures WokeFirst(old(waits.ph), waits.ph, SEND, old(waits.senders), waits.senders)
    {
      hide Inv, InQueue, Due, Queue.Valid;
      mq.RecvEnd(t);
      WokenIdle(waits.ph, SEND, waits.senders);
      waits.WakeSender(|mq.freeList|, |mq.queue|);
    }

    /** A thread resumed with an error leaves its call. */
    method Fail(t: Tid)
      requires Valid() && t in waits.ph && waits.ph[t].Woken? && !waits.ph[t].ok
      modifies waits
      ensures Valid() && waits.ph == old(waits.ph)[t := Idle]
      ensures waits.senders == old(waits.senders) && waits.receivers == old(waits.receivers)
    {
      hide Inv, InQueue, Due, Queue.Valid;
      waits.Done(t);
    }

    /** _thread_timeout of a sleeping thread: it gets neither a node nor a message. */
    method Timeout(t: Tid)
      requires Valid() && t in waits.ph && waits.ph[t].Asleep?
      modifies waits
      ensures Valid() && waits.ph == old(waits.ph)[t := Woken(old(waits.ph)[t].queue, old(waits.ph)[t].mail, false)]
      ensures waits.senders == Remove(old(waits.senders), t) && waits.receivers == Remove(old(waits.receivers), t)
    {
      hide Inv, InQueue, Due, Queue.Valid;
      waits.Expire(t, |mq.freeList|, |mq.queue|);
    }

    /** rt_mq_control with RT_IPC_CMD_RESET */
    method Reset()
      requires Valid()
      modifies waits, mq, mq.next, mq.body
      ensures Valid() && mq.messages == [] && mq.events == old(mq.events) + [Cleared]
      ensures mq.tasks == old(mq.tasks) && mq.held == old(mq.held)
      ensures mq.queue == [] && |mq.freeList| == |old(mq.freeList)| + |old(mq.queue)|
      ensures waits.senders == waits.receivers == [] && waits.ph.Keys == old(waits.ph).Keys
      ensures forall t {:trigger waits.ph[t]} :: t in old(waits.ph) ==>
                var x := old(waits.ph)[t]; waits.ph[t] == if x.Asleep? then Woken(x.queue, x.mail, false) else x
    {
      hide Inv, InQueue, Due, Queue.Valid, AllWoken;
      mq.Reset();
      waits.ResumeAll(|mq.freeList|, |mq.queue|);
    }

    ghost function Look(): View
      reads waits, mq
    {
      View(mq.msgSize, mq.tasks, mq.freeList, mq.queue, mq.messages, mq.held, mq.events, waits.ph, waits.senders,
           waits.receivers)
    }

    /** One step, which does nothing if its thread is not at the point for it. */
    method Take(s: Step) returns (out: Option<Bytes>)
      requires Valid()
      modifies waits, mq, mq.next, mq.body
      ensures Valid() && Did(old(Look()), s, Look(), out, waits.byPriority, waits.priorities)
    {
      hide Inv, InQueue, Due, Queue.Valid, WokeFirst, Joins, Delivers;
      var started;
      out := None;
      match s {
        case Send(t, buffer, mayWait) =>
          if t !in mq.tasks && t in waits.ph
          && (waits.ph[t].Idle? || (waits.ph[t] == Woken(SEND, waits.ph[t].mail, true) && |buffer| <= mq.msgSize)) {
            started := SendRegion(t, buffer, mayWait);
          }
        case Urgent(t, buffer) =>
          if t !in mq.tasks && (t in waits.ph ==> waits.ph[t].Idle?) {
            started := UrgentRegion(t, buffer);
          }
        case CopyIn(t) =>
          if t in mq.tasks && mq.tasks[t].Filling? {
            SendCopy(t);
          }
        case Link(t) =>
          if t in mq.tasks && mq.tasks[t].Filled? {
            LinkRegion(t);
          }
        case Recv(t, size, mayWait) =>
          if t !in mq.tasks && t in waits.ph
          && (waits.ph[t].Idle? || waits.ph[t] == Woken(RECV, waits.ph[t].mail, true)) {
            started := RecvRegion(t, size, mayWait);
          }
        case CopyOut(t) =>
          if t in mq.tasks && mq.tasks[t].Draining? {
            var buffer := RecvCopy(t);
            out := Some(buffer);
          }
        case GiveBack(t) =>
          if t in mq.tasks && mq.tasks[t].Drained? {
            FreeRegion(t);
          }
        case Leave(t) =>
          if t in waits.ph && waits.ph[t].Woken? && !waits.ph[t].ok {
            Fail(t);
          }
        case Expire(t) =>
          if t in waits.ph && waits.ph[t].Asleep? {
            Timeout(t);
          }
        case Clear =>
          Reset();
      }
    }

    /**
     * Any steps of any threads in any order, each doing what it should: between resets nothing is lost, doubled or,
     * without urgent messages, overtaken.
     */
    method Run(steps: seq<Step>) returns (ghost views: seq<View>, outs: seq<Option<Bytes>>)
      requires Valid()
      modifies waits, mq, mq.next, mq.body
      ensures Valid() && IsRun(views, steps, outs, waits.byPriority, waits.priorities)
      ensures views[0] == old(Look()) && views[|steps|] == Look()
      ensures mq.events == old(mq.events) + Log(views, steps)
      ensures (forall e :: e in mq.events ==> !e.Cleared?) ==>
                multiset(LinkedMessages(mq.events)) == multiset(UnlinkedMessages(mq.events)) + multiset(mq.messages)
      ensures (forall e :: e in mq.events ==> !e.Cleared? && (e.Linked? ==> !e.urgent)) ==>
                LinkedMessages(mq.events) == UnlinkedMessages(mq.events) + mq.messages
    {
      hide Inv, InQueue, Due, Queue.Valid, Replay, LinkedMessages, UnlinkedMessages, Did;
      views, outs := [Look()], [];
      for i := 0 to |steps|
        invariant Valid() && IsRun(views, steps[..i], outs, waits.byPriority, waits.priorities)
        invariant views[0] == old(Look()) && views[i] == Look()
      {
        var out := Take(steps[i]);
        views, outs := views + [Look()], outs + [out];
      }
      assert steps[..|steps|] == steps;
      LogIs(views, steps, outs, waits.byPriority, waits.priorities);
      Replayed();
      if forall e :: e in mq.events ==> !e.Cleared? {
        ExactlyOnce(mq.events);
      }
      if forall e :: e in mq.events ==> !e.Cleared? && (e.Linked? ==> !e.urgent) {
        FirstInFirstOut(mq.events);
      }
    }

    lemma Replayed()
      requires mq.Valid()
      ensures Replay(mq.events) == Option.Some(mq.messages)
    {
    }

    /**
     * When every thread resumed to try again has run, senders sleep only while all nodes are queued or in other
     * threads' hands, and receivers only while the queue is empty.
     */
    lemma RestsOnlyWithoutWork()
      requires Valid() && waits.NobodyDue()
      ensures waits.senders != [] ==> |mq.messages| + |mq.tasks| == mq.maxMsgs
      ensures waits.receivers != [] ==> mq.messages == []
    {
      waits.RestsOnlyWithoutWork(|mq.freeList|, |mq.queue|);
    }

    lemma AsManyMessages()
      requires mq.Valid()
      ensures |mq.messages| == |mq.queue|
    {
    }
  }

  /** The sleeper that is resumed first is not idle. */
  lemma WokenIdle(ph: Phases, queue: nat, list: seq<Tid>)
    requires InQueue(ph, queue, list)
    ensures list != [] ==> list[0] in ph && ph[list[0]].Asleep?
  {
    assert list != [] ==> list[0] in list;
  }
}
