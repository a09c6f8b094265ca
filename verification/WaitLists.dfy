/**
 * The two wait lists of a mailbox or a message queue, parent.suspend_thread and suspend_sender_thread, and where
 * each thread is in a call that may wait.
 */
module WaitLists {
  import opened Lists
  import opened Waiting

  const RECV: nat := 0
  const SEND: nat := 1

  /** The first sleeper of a list, if there is one, was resumed to try again. */
  ghost predicate WokeFirst(ph: Phases, ph': Phases, queue: nat, list: seq<Tid>, list': seq<Tid>) {
    if list == [] then ph' == ph && list' == []
    else list[0] in ph && !ph[list[0]].Idle? && list' == Remove(list, list[0])
         && ph' == ph[list[0] := Woken(queue, ph[list[0]].mail, true)]
  }

  class Sleepers {
    const byPriority: bool               // RT_IPC_FLAG_PRIO
    const priorities: map<Tid, nat>
    var receivers: seq<Tid>
    var senders: seq<Tid>
    var ph: Phases

    ghost predicate Valid()
      reads this
    {
      && ph.Keys == priorities.Keys
      && InQueue(ph, RECV, receivers) && InQueue(ph, SEND, senders)
      && forall t {:trigger ph[t]} :: t in ph && !ph[t].Idle? ==> ph[t].queue == RECV || ph[t].queue == SEND
    }

    /** Neither side oversleeps, with room for so many sends and so many messages ready. */
    ghost predicate Rested(room: int, ready: int)
      reads this
    {
      Valid() && NoneLost(ph, SEND, senders, room) && NoneLost(ph, RECV, receivers, ready)
    }

    constructor (byPriority: bool, priorities: map<Tid, nat>)
      ensures Valid() && receivers == senders == [] && this.byPriority == byPriority && this.priorities == priorities
      ensures ph == map t | t in priorities :: Idle
    {
      this.byPriority, this.priorities := byPriority, priorities;
      receivers, senders := [], [];
      ph := map t | t in priorities :: Idle;
    }

    /** Thread t is done with waiting. */
    method Done(t: Tid)
      requires Valid() && t in ph && !ph[t].Asleep?
      modifies this`ph
      ensures Valid() && ph == old(ph)[t := Idle]
      ensures forall q: nat :: |Due(ph, q)| == |Due(old(ph), q)| - if IsDue(old(ph)[t], q) then 1 else 0
    {
      Untouched(ph, t, Idle, SEND, senders);
      Untouched(ph, t, Idle, RECV, receivers);
      forall q: nat ensures |Due(ph[t := Idle], q)| == |Due(ph, q)| - if IsDue(ph[t], q) then 1 else 0 {
        DueStep(ph, t, Idle, q);
      }
      ph := ph[t := Idle];
    }

    /** A sender finds no room and goes to sleep. */
    method SenderSleeps(t: Tid, mail: int, ghost ready: int)
      requires Rested(0, ready) && t in ph && !ph[t].Asleep? && !IsDue(ph[t], RECV)
      modifies this`ph, this`senders
      ensures Rested(0, ready) && ph == old(ph)[t := Asleep(SEND, mail)]
      ensures Joins(byPriority, priorities, old(senders), senders, t)
    {
      var i := Place(byPriority, priorities, senders, t);
      FallAsleep(ph, t, SEND, mail, senders, i);
      Untouched(ph, t, Asleep(SEND, mail), RECV, receivers);
      DueStep(ph, t, Asleep(SEND, mail), RECV);
      hide InQueue, Due;
      ph := ph[t := Asleep(SEND, mail)];
      senders := senders[..i] + [t] + senders[i..];
    }

    /** A receiver finds nothing and goes to sleep. */
    method ReceiverSleeps(t: Tid, ghost room: int)
      requires Rested(room, 0) && t in ph && !ph[t].Asleep? && !IsDue(ph[t], SEND)
      modifies this`ph, this`receivers
      ensures Rested(room, 0) && ph == old(ph)[t := Asleep(RECV, 0)]
      ensures Joins(byPriority, priorities, old(receivers), receivers, t)
    {
      var i := Place(byPriority, priorities, receivers, t);
      FallAsleep(ph, t, RECV, 0, receivers, i);
      Untouched(ph, t, Asleep(RECV, 0), SEND, senders);
      DueStep(ph, t, Asleep(RECV, 0), SEND);
      hide InQueue, Due;
      ph := ph[t := Asleep(RECV, 0)];
      receivers := receivers[..i] + [t] + receivers[i..];
    }

    /** _ipc_list_resume on the senders after room was made for one more. */
    method WakeSender(ghost room: int, ghost ready: int)
      requires Rested(room - 1, ready)
      modifies this`ph, this`senders
      ensures Rested(room, ready) && WokeFirst(old(ph), ph, SEND, old(senders), senders)
    {
      if senders != [] {
        var t := senders[0];
        assert t in senders;
        var x := Woken(SEND, ph[t].mail, true);
        WakeUp(ph, t, x, senders);
        Untouched(ph, t, x, RECV, receivers);
        DueStep(ph, t, x, RECV);
        DueStep(ph, t, x, SEND);
        ph := ph[t := x];
        senders := Remove(senders, t);
      }
    }

    /** _ipc_list_resume on the receivers after one more message was added. */
    method WakeReceiver(ghost room: int, ghost ready: int)
      requires Rested(room, ready - 1)
      modifies this`ph, this`receivers
      ensures Rested(room, ready) && WokeFirst(old(ph), ph, RECV, old(receivers), receivers)
    {
      if receivers != [] {
        var t := receivers[0];
        assert t in receivers;
        var x := Woken(RECV, ph[t].mail, true);
        WakeUp(ph, t, x, receivers);
        Untouched(ph, t, x, SEND, senders);
        DueStep(ph, t, x, RECV);
        DueStep(ph, t, x, SEND);
        ph := ph[t := x];
        receivers := Remove(receivers, t);
      }
    }

    /** _thread_timeout of a sleeping thread: it leaves its list with an error. */
    method Expire(t: Tid, ghost room: int, ghost ready: int)
      requires Rested(room, ready) && t in ph && ph[t].Asleep?
      modifies this
      ensures Rested(room, ready) && ph == old(ph)[t := Woken(old(ph)[t].queue, old(ph)[t].mail, false)]
      ensures senders == Remove(old(senders), t) && receivers == Remove(old(receivers), t)
    {
      var x := Woken(ph[t].queue, ph[t].mail, false);
      DueStep(ph, t, x, SEND);
      DueStep(ph, t, x, RECV);
      WakeUp(ph, t, x, if ph[t].queue == SEND then senders else receivers);
      Untouched(ph, t, x, RECV + SEND - ph[t].queue, if ph[t].queue == SEND then receivers else senders);
      ph := ph[t := x];
      senders, receivers := Remove(senders, t), Remove(receivers, t);
    }

    /** _ipc_list_resume_all on both lists */
    method ResumeAll(ghost room: int, ghost ready: int)
      requires Valid()
      modifies this
      ensures Rested(room, ready) && senders == receivers == [] && ph.Keys == old(ph).Keys
      ensures forall t {:trigger ph[t]} :: t in old(ph) ==>
                var x := old(ph)[t]; ph[t] == if x.Asleep? then Woken(x.queue, x.mail, false) else x
    {
      AllWokenQueues(ph, RECV, SEND, senders);
      AllWokenQueues(AllWoken(ph, RECV), SEND, RECV, []);
      ph := AllWoken(AllWoken(ph, RECV), SEND);
      receivers, senders := [], [];
    }

    /** Every thread resumed to try again has run. */
    ghost predicate NobodyDue()
      reads this
    {
      forall t :: t in ph ==> !IsDue(ph[t], SEND) && !IsDue(ph[t], RECV)
    }

    /** When every thread resumed to try again has run, a sleeper means that there is nothing for it. */
    lemma RestsOnlyWithoutWork(room: int, ready: int)
      requires Rested(room, ready) && NobodyDue()
      ensures senders != [] ==> room <= 0
      ensures receivers != [] ==> ready <= 0
    {
      if senders != [] {
        NothingLeft(ph, SEND, senders, room);
      }
      if receivers != [] {
        NothingLeft(ph, RECV, receivers, ready);
      }
    }
  }
}
