/** The mailbox of ipc.c: a ring of mails, sleeping senders and sleeping receivers, one step per locked region. */
module Mailbox {
  import opened Lists
  import opened Waiting
  import opened WaitLists

  const ENTRY_MAX := 65535

  datatype SendOutcome = Sent | Full | Sleeps
  datatype RecvOutcome = Got(value: int) | Empty | Waits

  function Wrap(x: nat, n: nat): nat {
    if x >= n then x - n else x
  }

  /** The mails in the ring, oldest first. */
  function Mails(pool: seq<int>, out: nat, entry: nat): (r: seq<int>)
    requires entry <= |pool| && (entry > 0 ==> out < |pool|)
    ensures |r| == entry
  {
    seq(entry, k requires 0 <= k < entry => pool[Wrap(out + k, |pool|)])
  }

  lemma PutAtEnd(pool: seq<int>, out: nat, entry: nat, v: int)
    requires entry < |pool| && out < |pool|
    ensures Wrap(out + entry, |pool|) < |pool|
    ensures Mails(pool[Wrap(out + entry, |pool|) := v], out, entry + 1) == Mails(pool, out, entry) + [v]
  {
    var r := Mails(pool[Wrap(out + entry, |pool|) := v], out, entry + 1);
    forall k | 0 <= k < entry ensures r[k] == Mails(pool, out, entry)[k] {
      assert Wrap(out + k, |pool|) != Wrap(out + entry, |pool|);
    }
  }

  lemma PutAtFront(pool: seq<int>, out: nat, entry: nat, v: int)
    requires entry < |pool| && out < |pool|
    ensures var back := if out > 0 then out - 1 else |pool| - 1;
            Mails(pool[back := v], back, entry + 1) == [v] + Mails(pool, out, entry)
  {
    var back := if out > 0 then out - 1 else |pool| - 1;
    var r := Mails(pool[back := v], back, entry + 1);
    forall k | 0 <= k < entry + 1 ensures r[k] == ([v] + Mails(pool, out, entry))[k] {
      if k > 0 {
        assert Wrap(back + k, |pool|) == Wrap(out + (k - 1), |pool|) && Wrap(out + (k - 1), |pool|) != back;
        assert Mails(pool, out, entry)[k - 1] == pool[Wrap(out + (k - 1), |pool|)];
      } else {
        assert r[0] == pool[back := v][Wrap(back + 0, |pool|)];
      }
    }
  }

  lemma TakeFront(pool: seq<int>, out: nat, entry: nat)
    requires 0 < entry <= |pool| && out < |pool|
    ensures Mails(pool, out, entry) == [pool[out]] + Mails(pool, Wrap(out + 1, |pool|), entry - 1)
  {
    var r := Mails(pool, Wrap(out + 1, |pool|), entry - 1);
    forall k | 0 <= k < entry ensures Mails(pool, out, entry)[k] == ([pool[out]] + r)[k] {
      if k > 0 {
        assert Wrap(Wrap(out + 1, |pool|) + (k - 1), |pool|) == Wrap(out + k, |pool|);
        assert r[k - 1] == pool[Wrap(Wrap(out + 1, |pool|) + (k - 1), |pool|)];
      } else {
        assert Mails(pool, out, entry)[0] == pool[Wrap(out + 0, |pool|)];
      }
    }
  }

  class Box {
    const pool: array<int>               // msg_pool, of size mails
    const waits: Sleepers                // parent.suspend_thread and suspend_sender_thread
    var entry: nat
    var inOffset: nat
    var outOffset: nat

    ghost predicate RingOk()
      reads this
    {
      && entry <= pool.Length <= ENTRY_MAX
      && (pool.Length > 0 ==> outOffset < pool.Length && inOffset == Wrap(outOffset + entry, pool.Length))
    }

    ghost function Contents(): seq<int>
      requires RingOk()
      reads this, pool
    {
      Mails(pool[..], outOffset, entry)
    }

    /** The ring is in order, and neither side oversleeps. */
    ghost predicate Valid()
      reads this, waits
    {
      RingOk() && waits.Rested(pool.Length - entry, entry)
    }

    /** rt_mb_init */
    constructor (size: nat, byPriority: bool, priorities: map<Tid, nat>)
      requires size <= ENTRY_MAX
      ensures Valid() && Contents() == [] && pool.Length == size && fresh(pool) && fresh(waits)
      ensures waits.byPriority == byPriority && waits.priorities == priorities
    {
      pool := new int[size];
      waits := new Sleepers(byPriority, priorities);
      entry, inOffset, outOffset := 0, 0, 0;
    }

    /** A mail goes to the end of the ring; the overflow test of the entry counter never fires. */
    method PutMail(value: int)
      requires RingOk() && entry < pool.Length
      modifies this, pool
      ensures RingOk() && entry == old(entry) + 1 && Contents() == old(Contents()) + [value]
    {
      PutAtEnd(pool[..], outOffset, entry, value);
      ghost var was := pool[..];
      pool[inOffset] := value;
      assert pool[..] == was[inOffset := value];
      inOffset := inOffset + 1;
      if inOffset >= pool.Length {
        inOffset := 0;
      }
      assert entry < ENTRY_MAX;
      entry := entry + 1;
    }

    /** The locked region of rt_mb_send_wait, from its start or after a wakeup. */
    method SendRegion(t: Tid, value: int, mayWait: bool) returns (r: SendOutcome)
      requires Valid() && t in waits.ph
      requires (waits.ph[t].Idle? || (IsDue(waits.ph[t], SEND) && waits.ph[t].mail == value))
      modifies this, waits, pool
      ensures Valid()
      ensures old(entry) == pool.Length ==> r == (if mayWait then Sleeps else Full) && Contents() == old(Contents())
      ensures old(entry) < pool.Length ==> r == Sent && Contents() == old(Contents()) + [value]
      ensures r.Full? ==>
                && waits.ph == old(waits.ph)[t := Idle] && waits.senders == old(waits.senders)
                && waits.receivers == old(waits.receivers)
      ensures r.Sleeps? ==>
                waits.ph == old(waits.ph)[t := Asleep(SEND, value)] && waits.receivers == old(waits.receivers)
                            && Joins(waits.byPriority, waits.priorities, old(waits.senders), waits.senders, t)
      ensures r.Sent? ==> waits.senders == old(waits.senders)
                          && WokeFirst(old(waits.ph)[t := Idle], waits.ph, RECV, old(waits.receivers), waits.receivers)
    {
      hide Mails, InQueue, Due;
      if entry == pool.Length {
        if !mayWait {
          waits.Done(t);
          return Full;
        }
        waits.SenderSleeps(t, value, entry);
        return Sleeps;
      }
      PutMail(value);
      waits.Done(t);
      waits.WakeReceiver(pool.Length - entry, entry);
      r := Sent;
    }

    /** rt_mb_urgent: the mail goes to the front of the ring. */
    method Urgent(value: int) returns (r: SendOutcome)
      requires Valid()
      modifies this, waits, pool
      ensures Valid() && waits.senders == old(waits.senders)
      ensures old(entry) == pool.Length ==>
                r == Full && Contents() == old(Contents()) && waits.ph == old(waits.ph)
                && waits.receivers == old(waits.receivers)
      ensures old(entry) < pool.Length ==>
                && r == Sent && Contents() == [value] + old(Contents())
                && WokeFirst(old(waits.ph), waits.ph, RECV, old(waits.receivers), waits.receivers)
    {
      if entry == pool.Length {
        return Full;
      }
      PutAtFront(pool[..], outOffset, entry, value);
      ghost var was := pool[..];
      hide Mails, InQueue, Due;
      if outOffset > 0 {
        outOffset := outOffset - 1;
      } else {
        outOffset := pool.Length - 1;
      }
      pool[outOffset] := value;
      assert pool[..] == was[outOffset := value];
      entry := entry + 1;
      waits.WakeReceiver(pool.Length - entry, entry);
      r := Sent;
    }

    /** The oldest mail leaves the ring. */
    method TakeMail() returns (value: int)
      requires RingOk() && entry > 0
      modifies this
      ensures RingOk() && entry == old(entry) - 1 && [value] + Contents() == old(Contents())
    {
      TakeFront(pool[..], outOffset, entry);
      value := pool[outOffset];
      outOffset := outOffset + 1;
      if outOffset >= pool.Length {
        outOffset := 0;
      }
      if entry > 0 {
        entry := entry - 1;
      }
    }

    /** The locked region of rt_mb_recv, from its start or after a wakeup. */
    method RecvRegion(t: Tid, mayWait: bool) returns (r: RecvOutcome)
      requires Valid() && t in waits.ph && (waits.ph[t].Idle? || IsDue(waits.ph[t], RECV))
      modifies this, waits
      ensures Valid()
      ensures old(entry) == 0 ==> r == (if mayWait then Waits else Empty) && Contents() == old(Contents())
      ensures old(entry) > 0 ==> r.Got? && old(Contents()) == [r.value] + Contents()
      ensures r.Empty? ==>
                && waits.ph == old(waits.ph)[t := Idle] && waits.senders == old(waits.senders)
                && waits.receivers == old(waits.receivers)
      ensures r.Waits? ==> waits.ph == old(waits.ph)[t := Asleep(RECV, 0)] && waits.senders == old(waits.senders)
                           && Joins(waits.byPriority, waits.priorities, old(waits.receivers), waits.receivers, t)
      ensures r.Got? ==> waits.receivers == old(waits.receivers)
                         && WokeFirst(old(waits.ph)[t := Idle], waits.ph, SEND, old(waits.senders), waits.senders)
    {
      hide Mails, InQueue, Due;
      if entry == 0 {
        if !mayWait {
          waits.Done(t);
          return Empty;
        }
        waits.ReceiverSleeps(t, pool.Length);
        return Waits;
      }
      var value := TakeMail();
      waits.Done(t);
      waits.WakeSender(pool.Length - entry, entry);
      r := Got(value);
    }

    /** A thread resumed with an error leaves its call without looking at the mailbox again. */
    method Fail(t: Tid)
      requires Valid() && t in waits.ph && waits.ph[t].Woken? && !waits.ph[t].ok
      modifies waits
      ensures Valid() && waits.ph == old(waits.ph)[t := Idle]
      ensures waits.senders == old(waits.senders) && waits.receivers == old(waits.receivers)
    {
      hide Due, InQueue;
      waits.Done(t);
    }

    /** _thread_timeout of a sleeping thread: it leaves its list and takes nothing. */
    method Timeout(t: Tid)
      requires Valid() && t in waits.ph && waits.ph[t].Asleep?
      modifies waits
      ensures Valid() && waits.ph == old(waits.ph)[t := Woken(old(waits.ph)[t].queue, old(waits.ph)[t].mail, false)]
      ensures waits.senders == Remove(old(waits.senders), t) && waits.receivers == Remove(old(waits.receivers), t)
    {
      hide Due, InQueue;
      waits.Expire(t, pool.Length - entry, entry);
    }

    /** rt_mb_control with RT_IPC_CMD_RESET */
    method Reset()
      requires Valid()
      modifies this, waits
      ensures Valid() && Contents() == [] && waits.senders == waits.receivers == []
      ensures waits.ph.Keys == old(waits.ph).Keys
      ensures forall t {:trigger waits.ph[t]} :: t in old(waits.ph) ==>
                var x := old(waits.ph)[t]; waits.ph[t] == if x.Asleep? then Woken(x.queue, x.mail, false) else x
    {
      hide Due, InQueue;
      waits.ResumeAll(pool.Length, 0);
      entry, inOffset, outOffset := 0, 0, 0;
    }

    /**
     * When every thread resumed to try again has run, senders sleep only before a full box and receivers only before
     * an empty one.
     */
    lemma RestsOnlyWithoutWork()
      requires Valid() && waits.NobodyDue()
      ensures waits.senders != [] ==> entry == pool.Length
      ensures waits.receivers != [] ==> entry == 0
      ensures waits.senders != [] && waits.receivers != [] ==> pool.Length == 0
    {
      waits.RestsOnlyWithoutWork(pool.Length - entry, entry);
    }
  }
}
