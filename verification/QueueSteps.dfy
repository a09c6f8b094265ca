/** What each step of a thread on a message queue does, and what runs of such steps deliver. */
module QueueSteps {
  import opened Lists
  import opened Waiting
  import opened WaitLists
  import opened MessageQueue

  /** One locked region, one copy or one timeout, by any thread. */
  datatype Step =
    | Send(t: Tid, buffer: Bytes, mayWait: bool)
    | Urgent(t: Tid, buffer: Bytes)
    | CopyIn(t: Tid)
    | Link(t: Tid)
    | Recv(t: Tid, size: nat, mayWait: bool)
    | CopyOut(t: Tid)
    | GiveBack(t: Tid)
    | Leave(t: Tid)
    | Expire(t: Tid)
    | Clear

  /** The queue and the threads at it: nodes by number, messages oldest first, sleepers in the order of their lists. */
  datatype View = View(
    msgSize: nat,
    tasks: map<Tid, MessageQueue.Phase>,
    free: seq<int>,
    queue: seq<int>,
    messages: seq<Bytes>,
    held: map<Tid, Bytes>,
    events: seq<Event>,
    ph: Phases,
    senders: seq<Tid>,
    receivers: seq<Tid>)

  /** What a receive delivers: as much as was asked for and a message can have, beginning with what was sent. */
  ghost predicate Delivers(out: Bytes, size: nat, msgSize: nat, sent: Bytes) {
    && |out| <= size && |out| <= msgSize && (|out| == size || |out| == msgSize)
    && forall k {:trigger out[k]} :: 0 <= k < |out| && k < |sent| ==> out[k] == sent[k]
  }

  /** Nothing but the places of sleepers may differ: t went to sleep on one of the lists. */
  ghost predicate FellAsleep(v: View, v': View, t: Tid, queue: nat, byPriority: bool, priorities: map<Tid, nat>) {
    if queue == SEND then
      && v' == v.(ph := v.ph[t := Asleep(SEND, 0)], senders := v'.senders)
      && Joins(byPriority, priorities, v.senders, v'.senders, t)
    else
      && v' == v.(ph := v.ph[t := Asleep(RECV, 0)], receivers := v'.receivers)
      && Joins(byPriority, priorities, v.receivers, v'.receivers, t)
  }

  /** May t begin or go on with a call that waits on this list? */
  predicate AtStart(v: View, t: Tid, queue: nat) {
    t !in v.tasks && t in v.ph && (v.ph[t].Idle? || (v.ph[t].Woken? && v.ph[t].queue == queue && v.ph[t].ok))
  }

  /** The message of t is linked, and the first sleeping receiver is resumed to look again. */
  ghost predicate MessageLinked(v: View, v': View, t: Tid)
    requires t in v.tasks && v.tasks[t].Filled?
  {
    var n, m, urgent := v.tasks[t].node, v.tasks[t].buffer, v.tasks[t].urgent;
    && v' == v.(tasks := v.tasks - {t}, events := v.events + [Linked(m, urgent)],
                queue := if urgent then [n] + v.queue else v.queue + [n],
                messages := if urgent then [m] + v.messages else v.messages + [m],
                ph := v'.ph, receivers := v'.receivers)
    && WokeFirst(v.ph, v'.ph, RECV, v.receivers, v'.receivers)
  }

  /** The node of t is free again, and the first sleeping sender is resumed to look again. */
  ghost predicate NodeFreed(v: View, v': View, t: Tid)
    requires t in v.tasks
  {
    && v' == v.(tasks := v.tasks - {t}, free := [v.tasks[t].node] + v.free, ph := v'.ph, senders := v'.senders)
    && WokeFirst(v.ph, v'.ph, SEND, v.senders, v'.senders)
  }

  /** The queue is empty, and every sleeper is resumed with an error. */
  ghost predicate AllCleared(v: View, v': View) {
    && v' == v.(messages := [], queue := [], free := v'.free, events := v.events + [Cleared],
                ph := v'.ph, senders := [], receivers := [])
    && |v'.free| == |v.free| + |v.queue| && v'.ph.Keys == v.ph.Keys
    && forall t {:trigger v'.ph[t]} :: t in v.ph ==>
         v'.ph[t] == if v.ph[t].Asleep? then Woken(v.ph[t].queue, v.ph[t].mail, false) else v.ph[t]
  }

  /** What a step does, and what a receive delivers; a step that is not its thread's next one does nothing. */
  ghost predicate Did(v: View, s: Step, v': View, out: Option<Bytes>, byPriority: bool, priorities: map<Tid, nat>) {
    && (!s.CopyOut? ==> out.None?)
    && match s
       case Send(t, buffer, mayWait) =>
         if !AtStart(v, t, SEND) || |buffer| > v.msgSize then v' == v
         else if v.free != [] then
           v' == v.(tasks := v.tasks[t := Filling(v.free[0], false, buffer)], free := v.free[1..],
                    ph := v.ph[t := Idle])
         else if mayWait then FellAsleep(v, v', t, SEND, byPriority, priorities)
         else v' == v.(ph := v.ph[t := Idle])
       case Urgent(t, buffer) =>
         if t in v.tasks || (t in v.ph && !v.ph[t].Idle?) || |buffer| > v.msgSize || v.free == [] then v' == v
         else v' == v.(tasks := v.tasks[t := Filling(v.free[0], true, buffer)], free := v.free[1..])
       case CopyIn(t) =>
         if t !in v.tasks || !v.tasks[t].Filling? then v' == v
         else v' == v.(tasks := v.tasks[t := Filled(v.tasks[t].node, v.tasks[t].urgent, v.tasks[t].buffer)])
       case Link(t) => if t !in v.tasks || !v.tasks[t].Filled? then v' == v else MessageLinked(v, v', t)
       case Recv(t, size, mayWait) =>
         if !AtStart(v, t, RECV) then v' == v
         else if v.messages != [] && v.queue != [] then
           v' == v.(tasks := v.tasks[t := Draining(v.queue[0], size)], queue := v.queue[1..],
                    messages := v.messages[1..], held := v.held[t := v.messages[0]],
                    events := v.events + [Unlinked(v.messages[0])], ph := v.ph[t := Idle])
         else if mayWait then FellAsleep(v, v', t, RECV, byPriority, priorities)
         else v' == v.(ph := v.ph[t := Idle])
       case CopyOut(t) =>
         if t !in v.tasks || !v.tasks[t].Draining? then v' == v && out.None?
         else
           && v' == v.(tasks := v.tasks[t := Drained(v.tasks[t].node, v.tasks[t].size)])
           && out.Some? && t in v.held && Delivers(out.value, v.tasks[t].size, v.msgSize, v.held[t])
       case GiveBack(t) => if t !in v.tasks || !v.tasks[t].Drained? then v' == v else NodeFreed(v, v', t)
       case Leave(t) =>
         if t !in v.ph || !v.ph[t].Woken? || v.ph[t].ok then v' == v else v' == v.(ph := v.ph[t := Idle])
       case Expire(t) =>
         if t !in v.ph || !v.ph[t].Asleep? then v' == v
         else v' == v.(ph := v.ph[t := Woken(v.ph[t].queue, v.ph[t].mail, false)],
                       senders := Remove(v.senders, t), receivers := Remove(v.receivers, t))
       case Clear => AllCleared(v, v')
  }

  // ---------------------------------------------------------------- runs of steps

  /** Each step leads from one view to the next. */
  ghost predicate IsRun(views: seq<View>, steps: seq<Step>, outs: seq<Option<Bytes>>, byPriority: bool,
                        priorities: map<Tid, nat>)
  {
    && |views| == |steps| + 1 && |outs| == |steps|
    && forall i {:trigger steps[i]} :: 0 <= i < |steps| ==>
         Did(views[i], steps[i], views[i + 1], outs[i], byPriority, priorities)
  }

  /** What a step adds to the log: a message when it is linked, and when a receive unlinks it. */
  function LogOf(v: View, s: Step): seq<Event> {
    match s
    case Link(t) =>
      if t in v.tasks && v.tasks[t].Filled? then [Linked(v.tasks[t].buffer, v.tasks[t].urgent)] else []
    case Recv(t, size, mayWait) =>
      if AtStart(v, t, RECV) && v.messages != [] && v.queue != [] then [Unlinked(v.messages[0])] else []
    case Clear => [Cleared]
    case _ => []
  }

  function Log(views: seq<View>, steps: seq<Step>): seq<Event>
    requires |views| > |steps|
  {
    if steps == [] then []
    else
      var n := |steps| - 1;
      Log(views[..n + 1], steps[..n]) + LogOf(views[n], steps[n])
  }

  /** The log of a run is that of exactly its links, receives and resets. */
  lemma {:induction false} LogIs(views: seq<View>, steps: seq<Step>, outs: seq<Option<Bytes>>, byPriority: bool,
                                 priorities: map<Tid, nat>)
    requires IsRun(views, steps, outs, byPriority, priorities)
    ensures views[|steps|].events == views[0].events + Log(views, steps)
    decreases |steps|
  {
    if steps != [] {
      var n := |steps| - 1;
      RunFront(views, steps, outs, byPriority, priorities);
      LogIs(views[..n + 1], steps[..n], outs[..n], byPriority, priorities);
      var s := steps[n];
      assert Did(views[n], s, views[n + 1], outs[n], byPriority, priorities);
      LogStep(views[n], s, views[n + 1], outs[n], byPriority, priorities);
    }
  }

  lemma RunFront(views: seq<View>, steps: seq<Step>, outs: seq<Option<Bytes>>, byPriority: bool,
                 priorities: map<Tid, nat>)
    requires IsRun(views, steps, outs, byPriority, priorities) && steps != []
    ensures var n := |steps| - 1; IsRun(views[..n + 1], steps[..n], outs[..n], byPriority, priorities)
  {
    hide Did;
    var n := |steps| - 1;
    forall i {:trigger steps[..n][i]} | 0 <= i < n
      ensures Did(views[..n + 1][i], steps[..n][i], views[..n + 1][i + 1], outs[..n][i], byPriority, priorities)
    {
      var s := steps[i];
      assert Did(views[i], s, views[i + 1], outs[i], byPriority, priorities);
    }
  }

  lemma LogStep(v: View, s: Step, v': View, out: Option<Bytes>, byPriority: bool, priorities: map<Tid, nat>)
    requires Did(v, s, v', out, byPriority, priorities)
    ensures v'.events == v.events + LogOf(v, s)
  {
    hide WokeFirst, Joins;
  }

  // ---------------------------------------------------------------- whole sends and receives

  predicate By(s: Step, t: Tid) {
    !s.Clear? && s.t == t
  }

  /** What t is in the middle of. */
  ghost predicate SameTask(v: View, v': View, t: Tid) {
    && v'.msgSize == v.msgSize && (t in v'.tasks <==> t in v.tasks) && (t in v.tasks ==> v'.tasks[t] == v.tasks[t])
    && (t in v'.held <==> t in v.held) && (t in v.held ==> v'.held[t] == v.held[t])
  }

  lemma OtherStep(v: View, s: Step, v': View, out: Option<Bytes>, byPriority: bool, priorities: map<Tid, nat>, t: Tid)
    requires Did(v, s, v', out, byPriority, priorities) && !By(s, t)
    ensures SameTask(v, v', t)
  {
    hide WokeFirst, Joins;
  }

  /** The steps of other threads do not matter to what t is in the middle of, resets included. */
  lemma {:induction false} OtherSteps(views: seq<View>, steps: seq<Step>, outs: seq<Option<Bytes>>, byPriority: bool,
                                      priorities: map<Tid, nat>, t: Tid, i: nat, j: nat)
    requires IsRun(views, steps, outs, byPriority, priorities) && i <= j <= |steps|
    requires forall k {:trigger steps[k]} :: i <= k < j ==> !By(steps[k], t)
    ensures SameTask(views[i], views[j], t)
    decreases j
  {
    if i < j {
      hide Did;
      OtherSteps(views, steps, outs, byPriority, priorities, t, i, j - 1);
      var s := steps[j - 1];
      assert Did(views[j - 1], s, views[j], outs[j - 1], byPriority, priorities) && !By(s, t);
      OtherStep(views[j - 1], s, views[j], outs[j - 1], byPriority, priorities, t);
    }
  }

  /** Whatever other threads do in between, a send that got a node links its own message, once it comes to that. */
  lemma SendCompletes(views: seq<View>, steps: seq<Step>, outs: seq<Option<Bytes>>, byPriority: bool,
                      priorities: map<Tid, nat>, t: Tid, buffer: Bytes, urgent: bool, i: nat, j: nat, k: nat)
    requires IsRun(views, steps, outs, byPriority, priorities) && i < j < k < |steps|
    requires steps[j] == CopyIn(t) && steps[k] == Link(t)
    requires steps[i] == Urgent(t, buffer) || (steps[i].Send? && steps[i].t == t && steps[i].buffer == buffer)
    requires urgent == steps[i].Urgent?
    requires t !in views[i].tasks && t in views[i + 1].tasks
    requires forall x {:trigger steps[x]} :: i < x < k && x != j ==> !By(steps[x], t)
    ensures views[k + 1].events == views[k].events + [Linked(buffer, urgent)]
    ensures views[k + 1].messages == if urgent then [buffer] + views[k].messages else views[k].messages + [buffer]
    ensures t !in views[k + 1].tasks
  {
    hide WokeFirst, Joins;
    var a, b, c := steps[i], steps[j], steps[k];
    assert Did(views[i], a, views[i + 1], outs[i], byPriority, priorities);
    OtherSteps(views, steps, outs, byPriority, priorities, t, i + 1, j);
    assert Did(views[j], b, views[j + 1], outs[j], byPriority, priorities);
    OtherSteps(views, steps, outs, byPriority, priorities, t, j + 1, k);
    assert Did(views[k], c, views[k + 1], outs[k], byPriority, priorities);
  }

  /** Whatever other threads do in between, a receive delivers the message it unlinked. */
  lemma ReceiveDelivers(views: seq<View>, steps: seq<Step>, outs: seq<Option<Bytes>>, byPriority: bool,
                        priorities: map<Tid, nat>, t: Tid, i: nat, j: nat)
    requires IsRun(views, steps, outs, byPriority, priorities) && i < j < |steps|
    requires steps[i].Recv? && steps[i].t == t && steps[j] == CopyOut(t)
    requires t !in views[i].tasks && t in views[i + 1].tasks
    requires forall x {:trigger steps[x]} :: i < x < j ==> !By(steps[x], t)
    ensures views[i].messages != [] && views[i + 1].events == views[i].events + [Unlinked(views[i].messages[0])]
    ensures outs[j].Some? && Delivers(outs[j].value, steps[i].size, views[i].msgSize, views[i].messages[0])
  {
    hide WokeFirst, Joins;
    var a, b := steps[i], steps[j];
    assert Did(views[i], a, views[i + 1], outs[i], byPriority, priorities);
    OtherSteps(views, steps, outs, byPriority, priorities, t, i + 1, j);
    assert Did(views[j], b, views[j + 1], outs[j], byPriority, priorities);
  }
}
