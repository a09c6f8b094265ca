/** The counting semaphore of ipc.c: a release hands its unit to a sleeper, or else counts it. */
module Semaphore {
  import opened Lists
  import opened Waiting

  const SEM := 0
  const VALUE_MAX := 65535

  datatype TakeOutcome = Taken | Refused | Sleeps

  /** Units handed over to threads that have not run yet count as taken. */
  class Sem {
    const byPriority: bool
    const priorities: map<Tid, nat>
    var value: nat
    var sleepers: seq<Tid>               // parent.suspend_thread
    var ph: Phases
    ghost var initial: nat               // value at the last initialisation or reset
    ghost var taken: nat                 // successful takes since then, handed-over ones included
    ghost var released: nat              // successful releases since then

    ghost predicate Valid()
      reads this
    {
      && ph.Keys == priorities.Keys && InQueue(ph, SEM, sleepers)
      && value <= VALUE_MAX
      && (sleepers != [] ==> value == 0)
      && value + taken == initial + released
    }

    /** rt_sem_init */
    constructor (value: nat, byPriority: bool, priorities: map<Tid, nat>)
      requires value <= VALUE_MAX
      ensures Valid() && this.value == initial == value && taken == released == 0 && sleepers == []
      ensures this.byPriority == byPriority && this.priorities == priorities
    {
      this.value, this.byPriority, this.priorities := value, byPriority, priorities;
      initial, taken, released := value, 0, 0;
      sleepers := [];
      ph := map t | t in priorities :: Idle;
    }

    /** The locked region at the start of rt_sem_take by thread t. */
    method TakeRegion(t: Tid, mayWait: bool) returns (r: TakeOutcome)
      requires Valid() && t in ph && ph[t].Idle?
      modifies this
      ensures Valid() && initial == old(initial) && released == old(released)
      ensures old(value) > 0 ==> r.Taken? && value == old(value) - 1
      ensures old(value) == 0 ==> r == (if mayWait then Sleeps else Refused) && value == 0
      ensures taken == old(taken) + if r.Taken? then 1 else 0
      ensures !r.Sleeps? ==> ph == old(ph) && sleepers == old(sleepers)
      ensures r.Sleeps? ==>
                ph == old(ph)[t := Asleep(SEM, 0)] && Joins(byPriority, priorities, old(sleepers), sleepers, t)
    {
      if value > 0 {
        value := value - 1;
        taken := taken + 1;
        return Taken;
      }
      if !mayWait {
        return Refused;
      }
      var i := Place(byPriority, priorities, sleepers, t);
      FallAsleep(ph, t, SEM, 0, sleepers, i);
      ph := ph[t := Asleep(SEM, 0)];
      sleepers := sleepers[..i] + [t] + sleepers[i..];
      r := Sleeps;
    }

    /** rt_sem_release */
    method Release() returns (ok: bool)
      requires Valid()
      modifies this
      ensures Valid() && initial == old(initial)
      ensures ok <==> old(sleepers) != [] || old(value) < VALUE_MAX
      ensures released == old(released) + if ok then 1 else 0
      ensures old(sleepers) == [] ==> ph == old(ph) && sleepers == [] && taken == old(taken)
                                      && value == old(value) + if ok then 1 else 0
      ensures old(sleepers) != [] ==> var t := old(sleepers)[0];
                && t in old(ph) && old(ph)[t].Asleep? && ph == old(ph)[t := Woken(SEM, old(ph)[t].mail, true)]
                && sleepers == Remove(old(sleepers), t) && taken == old(taken) + 1 && value == 0
    {
      if sleepers != [] {
        var t := sleepers[0];
        assert t in sleepers;
        WakeUp(ph, t, Woken(SEM, ph[t].mail, true), sleepers);
        ph := ph[t := Woken(SEM, ph[t].mail, true)];
        sleepers := Remove(sleepers, t);
        taken := taken + 1;
      } else if value < VALUE_MAX {
        value := value + 1;
      } else {
        return false;
      }
      released := released + 1;
      ok := true;
    }

    /** The end of rt_sem_take after a wakeup: no locked region, the unit was handed over or the take has failed. */
    method Finish(t: Tid) returns (ok: bool)
      requires Valid() && t in ph && ph[t].Woken?
      modifies this`ph
      ensures Valid() && ph == old(ph)[t := Idle] && ok == old(ph)[t].ok
    {
      ok := ph[t].ok;
      Untouched(ph, t, Idle, SEM, sleepers);
      ph := ph[t := Idle];
    }

    /** _thread_timeout of a sleeping thread consumes nothing. */
    method Timeout(t: Tid)
      requires Valid() && t in ph && ph[t].Asleep? && ph[t].queue == SEM
      modifies this`ph, this`sleepers
      ensures Valid() && ph == old(ph)[t := Woken(SEM, old(ph)[t].mail, false)] && sleepers == Remove(old(sleepers), t)
    {
      WakeUp(ph, t, Woken(SEM, ph[t].mail, false), sleepers);
      ph := ph[t := Woken(SEM, ph[t].mail, false)];
      sleepers := Remove(sleepers, t);
    }

    /** rt_sem_control with RT_IPC_CMD_RESET: the new value is cut to 16 bits. */
    method Reset(v: nat)
      requires Valid()
      modifies this
      ensures Valid() && value == initial == v % (VALUE_MAX + 1) && taken == released == 0 && sleepers == []
      ensures ph.Keys == old(ph).Keys
      ensures forall t {:trigger ph[t]} :: t in old(ph) && old(ph)[t].Asleep? && old(ph)[t].queue == SEM ==>
                ph[t] == Woken(SEM, old(ph)[t].mail, false)
      ensures forall t {:trigger ph[t]} :: t in old(ph) && !(old(ph)[t].Asleep? && old(ph)[t].queue == SEM) ==>
                ph[t] == old(ph)[t]
    {
      ph := AllWoken(ph, SEM);
      sleepers := [];
      value := v % (VALUE_MAX + 1);
      initial, taken, released := value, 0, 0;
    }
  }
}
