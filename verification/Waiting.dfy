/**
 * Threads that sleep on a kernel object and check again when they are woken: between being resumed and running,
 * a thread is due. Every object that waits in this way must not go to rest while work is left for a sleeper.
 */
module Waiting {
  import opened Lists

  type Tid = nat

  /** Where a thread is in a call that may wait; mail is the value it wants to send. */
  datatype Phase =
    | Idle
    | Asleep(queue: nat, mail: int)
    | Woken(queue: nat, mail: int, ok: bool)

  type Phases = map<Tid, Phase>

  predicate IsDue(p: Phase, queue: nat) {
    p.Woken? && p.queue == queue && p.ok
  }

  /** The threads resumed from a queue to try again that have not run yet. */
  function Due(ph: Phases, queue: nat): set<Tid> {
    set t | t in ph && IsDue(ph[t], queue)
  }

  /** A list of sleepers holds exactly the threads asleep on it, each once. */
  ghost predicate InQueue(ph: Phases, queue: nat, list: seq<Tid>) {
    && NoDuplicates(list)
    && forall t: Tid {:trigger t in list} :: t in list <==> t in ph && ph[t].Asleep? && ph[t].queue == queue
  }

  lemma DueStep(ph: Phases, t: Tid, x: Phase, queue: nat)
    requires t in ph
    ensures |Due(ph[t := x], queue)|
            == |Due(ph, queue)| - (if IsDue(ph[t], queue) then 1 else 0) + (if IsDue(x, queue) then 1 else 0)
  {
    var before, after := Due(ph, queue), Due(ph[t := x], queue);
    assert before - {t} == after - {t};
    assert |before| == |before - {t}| + (if t in before then 1 else 0);
    assert |after| == |after - {t}| + (if t in after then 1 else 0);
  }

  /** A thread goes to sleep at position i of a list. */
  lemma FallAsleep(ph: Phases, t: Tid, queue: nat, mail: int, list: seq<Tid>, i: nat)
    requires t in ph && !ph[t].Asleep? && InQueue(ph, queue, list) && i <= |list|
    ensures InQueue(ph[t := Asleep(queue, mail)], queue, list[..i] + [t] + list[i..])
  {
    InsertKeepsDistinct(list, i, t);
  }

  /** A sleeper is taken off its list. */
  lemma WakeUp(ph: Phases, t: Tid, x: Phase, list: seq<Tid>)
    requires t in ph && ph[t].Asleep? && !x.Asleep? && InQueue(ph, ph[t].queue, list)
    ensures InQueue(ph[t := x], ph[t].queue, Remove(list, t))
  {
    RemoveDistinct(list, t);
  }

  /** A list does not change with a thread that is not and does not get on it. */
  lemma Untouched(ph: Phases, t: Tid, x: Phase, queue: nat, list: seq<Tid>)
    requires t in ph && InQueue(ph, queue, list)
    requires !(ph[t].Asleep? && ph[t].queue == queue) && !(x.Asleep? && x.queue == queue)
    ensures InQueue(ph[t := x], queue, list)
  {
  }

  /** Everybody on a list is resumed with an error. */
  function AllWoken(ph: Phases, queue: nat): Phases {
    map t | t in ph :: if ph[t].Asleep? && ph[t].queue == queue then Woken(queue, ph[t].mail, false) else ph[t]
  }

  lemma AllWokenQueues(ph: Phases, queue: nat, other: nat, list: seq<Tid>)
    requires InQueue(ph, other, list) && other != queue
    ensures InQueue(AllWoken(ph, queue), other, list)
    ensures InQueue(AllWoken(ph, queue), queue, [])
  {
  }

  /** No wakeup is lost: as long as somebody sleeps, whatever is there is spoken for by threads yet to run. */
  ghost predicate NoneLost(ph: Phases, queue: nat, list: seq<Tid>, there: int) {
    list != [] ==> there <= |Due(ph, queue)|
  }

  /** Once every due thread has run, a sleeper means that there is nothing to take. */
  lemma NothingLeft(ph: Phases, queue: nat, list: seq<Tid>, there: int)
    requires NoneLost(ph, queue, list, there) && list != []
    requires forall t :: t in ph ==> !IsDue(ph[t], queue)
    ensures there <= 0
  {
    assert Due(ph, queue) == {};
  }

  /** t stands at its place i on a list of sleepers. */
  ghost predicate IsPlace(byPriority: bool, priorities: map<Tid, nat>, list: seq<Tid>, t: Tid, i: nat) {
    && i <= |list| && t in priorities && (forall k {:trigger list[k]} :: 0 <= k < |list| ==> list[k] in priorities)
    && (!byPriority ==> i == |list|)
    && (byPriority ==> && (forall k {:trigger list[k]} :: 0 <= k < i ==> priorities[list[k]] <= priorities[t])
                       && (i < |list| ==> priorities[t] < priorities[list[i]]))
  }

  /** t joined a list of sleepers: at the end, or in priority order behind its equals. */
  ghost predicate Joins(byPriority: bool, priorities: map<Tid, nat>, list: seq<Tid>, list': seq<Tid>, t: Tid) {
    exists i {:trigger list[..i]} ::
      0 <= i <= |list| && list' == list[..i] + [t] + list[i..] && IsPlace(byPriority, priorities, list, t, i)
  }

  /** _ipc_list_suspend: the place of t on a list of sleepers. */
  method Place(byPriority: bool, priorities: map<Tid, nat>, list: seq<Tid>, t: Tid) returns (i: nat)
    requires t in priorities && forall x :: x in list ==> x in priorities
    ensures IsPlace(byPriority, priorities, list, t, i)
    // in order of arrival without priorities; else behind all that are at least as urgent, up to a less urgent one
    ensures !byPriority ==> i == |list|
    ensures byPriority ==> i <= |list| && (forall k {:trigger list[k]} :: 0 <= k < i ==>
                             list[k] in priorities && priorities[list[k]] <= priorities[t])
    ensures byPriority && i < |list| ==> list[i] in priorities && priorities[t] < priorities[list[i]]
  {
    assert forall k {:trigger list[k]} :: 0 <= k < |list| ==> list[k] in list;
    if !byPriority {
      return |list|;
    }
    i := 0;
    while i < |list| && !(priorities[t] < priorities[list[i]])
      invariant i <= |list| && forall k {:trigger list[k]} :: 0 <= k < i ==> priorities[list[k]] <= priorities[t]
    {
      i := i + 1;
    }
  }
}
