/**
 * The message queue of ipc.c, one step per region in which interrupts are off and one per copy made while
 * they are on, so that sends and receives of different threads may be caught half-way in any combination.
 */
module MessageQueue {
  import opened Lists

  type ThreadId = nat
  type Bytes = seq<bv8>

  const NULL: int := -1

  /** RT_MQ_ENTRY_MAX */
  const ENTRY_MAX: nat := 0xFFFF

  /** How far a thread has got: its local variables between two regions. */
  datatype Phase =
    | Filling(node: int, urgent: bool, buffer: Bytes)   // node taken off the free list, not yet written
    | Filled(node: int, urgent: bool, buffer: Bytes)    // message copied in, not yet linked
    | Draining(node: int, size: nat)                    // node unlinked, not yet read
    | Drained(node: int, size: nat)                     // message copied out, node not yet given back

  datatype Result = Ok | Error | Full | TimedOut

  /** What has happened to the queue, at the moments it was linked to or unlinked from. */
  datatype Event = Linked(message: Bytes, urgent: bool) | Unlinked(message: Bytes) | Cleared

  // ---------------------------------------------------------------- what the events mean

  /** A double-ended queue replaying the events; None if an unlink did not yield the message at the head. */
  function Replay(events: seq<Event>): Option<seq<Bytes>> {
    if events == [] then Some([])
    else
      var last := |events| - 1;
      match Replay(events[..last])
      case None => None
      case Some(q) =>
        match events[last]
        case Linked(m, urgent) => Some(if urgent then [m] + q else q + [m])
        case Unlinked(m) => if q != [] && q[0] == m then Some(q[1..]) else None
        case Cleared => Some([])
  }

  function LinkedMessages(events: seq<Event>): seq<Bytes> {
    if events == [] then []
    else
      var last := |events| - 1;
      LinkedMessages(events[..last]) + (if events[last].Linked? then [events[last].message] else [])
  }

  function UnlinkedMessages(events: seq<Event>): seq<Bytes> {
    if events == [] then []
    else
      var last := |events| - 1;
      UnlinkedMessages(events[..last]) + (if events[last].Unlinked? then [events[last].message] else [])
  }

  /** Ordinary messages come out in the order in which they were linked, each once, none lost. */
  lemma {:induction false} FirstInFirstOut(events: seq<Event>)
    requires Replay(events).Some?
    requires forall e :: e in events ==> !e.Cleared? && (e.Linked? ==> !e.urgent)
    ensures LinkedMessages(events) == UnlinkedMessages(events) + Replay(events).value
  {
    if events != [] {
      var last := |events| - 1;
      FirstInFirstOut(events[..last]);
    }
  }

  /** With urgent messages too, what was linked is what was unlinked plus what is still queued. */
  lemma {:induction false} ExactlyOnce(events: seq<Event>)
    requires Replay(events).Some?
    requires forall e :: e in events ==> !e.Cleared?
    ensures multiset(LinkedMessages(events)) == multiset(UnlinkedMessages(events)) + multiset(Replay(events).value)
  {
    if events != [] {
      var last := |events| - 1;
      ExactlyOnce(events[..last]);
      assert events[last] in events;
      StepBalances(Replay(events[..last]).value, events[last]);
    }
  }

  lemma StepBalances(q: seq<Bytes>, e: Event)
    ensures e.Linked? ==> multiset([e.message] + q) == multiset(q + [e.message]) == multiset(q) + multiset{e.message}
    ensures q != [] ==> multiset(q) == multiset(q[1..]) + multiset{q[0]}
  {
    if q != [] {
      assert q == [q[0]] + q[1..];
    }
  }

  // ---------------------------------------------------------------- linked nodes

  /** The nodes reached from p through next, in order, up to the null pointer. */
  ghost predicate IsList(next: seq<int>, p: int, nodes: seq<int>)
    decreases |nodes|
  {
    if nodes == [] then p == NULL
    else 0 <= p < |next| && p == nodes[0] && IsList(next, next[p], nodes[1..])
  }

  /** x is none of the nodes. */
  ghost predicate Absent(x: int, nodes: seq<int>) {
    forall i :: 0 <= i < |nodes| ==> nodes[i] != x
  }

  /** Writing the link of a node outside the list. */
  lemma {:induction false} ListFrame(next: seq<int>, x: int, v: int, p: int, nodes: seq<int>)
    requires IsList(next, p, nodes) && 0 <= x < |next| && Absent(x, nodes)
    ensures IsList(next[x := v], p, nodes)
    decreases |nodes|
  {
    if nodes != [] {
      ListFrame(next, x, v, next[p], nodes[1..]);
    }
  }

  lemma {:induction false} ListAppend(next: seq<int>, p: int, nodes: seq<int>, x: int)
    requires IsList(next, p, nodes) && NoDuplicates(nodes) && Absent(x, nodes) && 0 <= x < |next| && next[x] == NULL
    requires nodes != [] && 0 <= nodes[|nodes| - 1] < |next|
    ensures IsList(next[nodes[|nodes| - 1] := x], p, nodes + [x])
    decreases |nodes|
  {
    var last := nodes[|nodes| - 1];
    var next' := next[last := x];
    if |nodes| == 1 {
      assert nodes[1..] == [] && (nodes + [x])[1..] == [x];
      assert IsList(next', x, [x]) by {
        assert [x][1..] == [];
      }
    } else {
      ListAppend(next, next[p], nodes[1..], x);
      assert (nodes + [x])[1..] == nodes[1..] + [x];
    }
  }

  /** A node's body starts with the message. */
  predicate Holds(body: Bytes, message: Bytes) {
    |message| <= |body| && body[..|message|] == message
  }

  // ---------------------------------------------------------------- who has which node

  /** Queued nodes, free nodes and the nodes threads are working on are all different and are all there are. */
  ghost predicate NodesOk(count: nat, queue: seq<int>, free: seq<int>, tasks: map<ThreadId, Phase>) {
    && NoDuplicates(queue)
    && NoDuplicates(free)
    && (forall i :: 0 <= i < |queue| ==> 0 <= queue[i] < count)
    && (forall i :: 0 <= i < |free| ==> 0 <= free[i] < count && Absent(free[i], queue))
    && (forall t :: t in tasks ==>
          0 <= tasks[t].node < count && Absent(tasks[t].node, queue) && Absent(tasks[t].node, free))
    && (forall t, u :: t in tasks && u in tasks && t != u ==> tasks[t].node != tasks[u].node)
    && |queue| + |free| + |tasks| == count
  }

  ghost predicate LinksOk(next: seq<int>, head: int, tail: int, free: int, entry: nat, queue: seq<int>,
                          freeList: seq<int>) {
    && IsList(next, head, queue)
    && IsList(next, free, freeList)
    && tail == (if queue == [] then NULL else queue[|queue| - 1])
    && entry == |queue|
  }

  /** What a thread's node must contain at its phase. */
  ghost predicate TaskOk(next: seq<int>, body: seq<Bytes>, msgSize: nat, p: Phase, held: Option<Bytes>) {
    && 0 <= p.node < |body| == |next|
    && match p
       case Filling(n, urgent, buffer) => |buffer| <= msgSize
       case Filled(n, urgent, buffer) => Holds(body[n], buffer) && (!urgent ==> next[n] == NULL)
       case Draining(n, size) => held.Some? && Holds(body[n], held.value)
       case Drained(n, size) => true
  }

  ghost predicate TasksOk(next: seq<int>, body: seq<Bytes>, msgSize: nat, tasks: map<ThreadId, Phase>,
                          held: map<ThreadId, Bytes>) {
    forall t {:trigger tasks[t]} :: t in tasks ==>
      TaskOk(next, body, msgSize, tasks[t], if t in held then Some(held[t]) else None)
  }

  ghost predicate QueueHolds(body: seq<Bytes>, queue: seq<int>, messages: seq<Bytes>) {
    && |messages| == |queue|
    && forall i :: 0 <= i < |queue| ==> 0 <= queue[i] < |body| && Holds(body[queue[i]], messages[i])
  }

  /** A new task takes the first free node. */
  lemma ReserveNodes(count: nat, queue: seq<int>, free: seq<int>, tasks: map<ThreadId, Phase>, t: ThreadId, p: Phase)
    requires NodesOk(count, queue, free, tasks) && t !in tasks && free != [] && p.node == free[0]
    ensures NodesOk(count, queue, free[1..], tasks[t := p])
  {
    MapAdd(tasks, t, p);
  }

  lemma MapAdd(m: map<ThreadId, Phase>, t: ThreadId, p: Phase)
    requires t !in m
    ensures |m[t := p]| == |m| + 1
  {
    assert m[t := p].Keys == m.Keys + {t};
  }

  lemma MapDrop(m: map<ThreadId, Phase>, t: ThreadId)
    requires t in m
    ensures |m - {t}| == |m| - 1
  {
    assert (m - {t}).Keys == m.Keys - {t};
  }

  /** A task moves on with the same node. */
  lemma AdvanceNodes(count: nat, queue: seq<int>, free: seq<int>, tasks: map<ThreadId, Phase>, t: ThreadId, p: Phase)
    requires NodesOk(count, queue, free, tasks) && t in tasks && p.node == tasks[t].node
    ensures NodesOk(count, queue, free, tasks[t := p])
  {
    assert tasks[t := p].Keys == tasks.Keys;
  }

  lemma Prepended(n: int, nodes: seq<int>)
    ensures Absent(n, nodes) && NoDuplicates(nodes) ==> NoDuplicates([n] + nodes)
    ensures forall x: int :: Absent(x, [n] + nodes) <==> x != n && Absent(x, nodes)
    ensures forall i :: 0 <= i < |nodes| + 1 ==> ([n] + nodes)[i] == if i == 0 then n else nodes[i - 1]
  {
    forall x: int ensures Absent(x, [n] + nodes) <==> x != n && Absent(x, nodes) {
      assert ([n] + nodes)[0] == n && ([n] + nodes)[1..] == nodes;
    }
  }

  lemma Appended(n: int, nodes: seq<int>)
    ensures Absent(n, nodes) && NoDuplicates(nodes) ==> NoDuplicates(nodes + [n])
    ensures forall x: int :: Absent(x, nodes + [n]) <==> x != n && Absent(x, nodes)
    ensures forall i :: 0 <= i < |nodes| + 1 ==> (nodes + [n])[i] == if i == |nodes| then n else nodes[i]
  {
    forall x: int ensures Absent(x, nodes + [n]) <==> x != n && Absent(x, nodes) {
      assert (nodes + [n])[|nodes|] == n && (nodes + [n])[..|nodes|] == nodes;
    }
  }

  /** A finished task's node joins the queue in front. */
  lemma LinkNodesFirst(count: nat, queue: seq<int>, free: seq<int>, tasks: map<ThreadId, Phase>, t: ThreadId)
    requires NodesOk(count, queue, free, tasks) && t in tasks
    ensures NodesOk(count, [tasks[t].node] + queue, free, tasks - {t})
  {
    AbsentIsOut(tasks[t].node, free);
    hide NoDuplicates, Absent;
    MapDrop(tasks, t);
    Prepended(tasks[t].node, queue);
  }

  lemma AbsentIsOut(n: int, nodes: seq<int>)
    requires Absent(n, nodes)
    ensures forall i :: 0 <= i < |nodes| ==> nodes[i] != n
  {
  }

  /** A finished task's node joins the queue at the end. */
  lemma LinkNodesLast(count: nat, queue: seq<int>, free: seq<int>, tasks: map<ThreadId, Phase>, t: ThreadId)
    requires NodesOk(count, queue, free, tasks) && t in tasks
    ensures NodesOk(count, queue + [tasks[t].node], free, tasks - {t})
  {
    AbsentIsOut(tasks[t].node, free);
    hide NoDuplicates, Absent;
    MapDrop(tasks, t);
    Appended(tasks[t].node, queue);
  }

  /** A finished task's node goes back to the free list. */
  lemma ReturnNodes(count: nat, queue: seq<int>, free: seq<int>, tasks: map<ThreadId, Phase>, t: ThreadId)
    requires NodesOk(count, queue, free, tasks) && t in tasks
    ensures NodesOk(count, queue, [tasks[t].node] + free, tasks - {t})
  {
    hide NoDuplicates, Absent;
    MapDrop(tasks, t);
    Prepended(tasks[t].node, free);
  }

  /** A new task takes the first queued node. */
  lemma UnlinkNodes(count: nat, queue: seq<int>, free: seq<int>, tasks: map<ThreadId, Phase>, t: ThreadId, p: Phase)
    requires NodesOk(count, queue, free, tasks) && t !in tasks && queue != [] && p.node == queue[0]
    ensures NodesOk(count, queue[1..], free, tasks[t := p])
  {
    MapAdd(tasks, t, p);
  }

  /** Tasks that are left alone stay as they should be when the link of another node is written. */
  lemma TasksFrame(next: seq<int>, x: int, v: int, body: seq<Bytes>, msgSize: nat, tasks: map<ThreadId, Phase>,
                   held: map<ThreadId, Bytes>, t: ThreadId)
    requires TasksOk(next, body, msgSize, tasks, held) && 0 <= x < |next|
    requires forall u :: u in tasks && u != t ==> tasks[u].node != x
    ensures TasksOk(next[x := v], body, msgSize, tasks - {t}, held)
  {
  }

  lemma TasksApart(next: seq<int>, x: int, v: int, body: seq<Bytes>, msgSize: nat, tasks: map<ThreadId, Phase>,
                   held: map<ThreadId, Bytes>)
    requires TasksOk(next, body, msgSize, tasks, held) && 0 <= x < |next|
    requires forall u :: u in tasks ==> tasks[u].node != x
    ensures TasksOk(next[x := v], body, msgSize, tasks, held)
  {
  }

  /** The bodies after t has copied its message. */
  lemma CopyBodies(body: seq<Bytes>, n: int, buffer: Bytes, msgSize: nat, queue: seq<int>, messages: seq<Bytes>)
    requires 0 <= n < |body| && |buffer| <= msgSize && Absent(n, queue)
    requires forall i :: 0 <= i < |body| ==> |body[i]| == msgSize
    requires QueueHolds(body, queue, messages)
    ensures var body' := body[n := buffer + body[n][|buffer|..]];
            (forall i :: 0 <= i < |body'| ==> |body'[i]| == msgSize) && QueueHolds(body', queue, messages)
  {
  }

  /** The tasks after t has copied its message into its own node. */
  lemma CopyTask(next: seq<int>, v: int, body: seq<Bytes>, msgSize: nat, tasks: map<ThreadId, Phase>,
                 held: map<ThreadId, Bytes>, t: ThreadId)
    requires TasksOk(next, body, msgSize, tasks, held) && t in tasks && tasks[t].Filling?
    requires 0 <= tasks[t].node < |body| && |body[tasks[t].node]| == msgSize && (!tasks[t].urgent ==> v == NULL)
    requires forall u :: u in tasks && u != t ==> tasks[u].node != tasks[t].node
    ensures var p := tasks[t];
            var n := p.node;
            && |p.buffer| <= msgSize
            && TasksOk(next[n := v], body[n := p.buffer + body[n][|p.buffer|..]], msgSize,
                       tasks[t := Filled(n, p.urgent, p.buffer)], held)
  {
    assert TaskOk(next, body, msgSize, tasks[t], if t in held then Some(held[t]) else None);
  }

  /** The tasks after t has unlinked node n, which holds m. */
  lemma DrainTask(next: seq<int>, body: seq<Bytes>, msgSize: nat, tasks: map<ThreadId, Phase>,
                  held: map<ThreadId, Bytes>,
                  t: ThreadId, n: int, size: nat, m: Bytes)
    requires TasksOk(next, body, msgSize, tasks, held) && 0 <= n < |body| == |next| && Holds(body[n], m)
    ensures TasksOk(next, body, msgSize, tasks[t := Draining(n, size)], held[t := m])
  {
  }

  /** The queue's links after its last node has been pointed at a new one. */
  lemma LinkLast(next: seq<int>, head: int, tail: int, free: int, entry: nat, queue: seq<int>, freeList: seq<int>,
                 msg: int)
    requires LinksOk(next, head, tail, free, entry, queue, freeList)
    requires NoDuplicates(queue) && Absent(msg, queue) && Absent(msg, freeList) && 0 <= msg < |next|
    requires next[msg] == NULL
    requires queue != [] ==> 0 <= tail < |next| && Absent(tail, freeList)
    ensures LinksOk(if tail != NULL then next[tail := msg] else next,
                    if head == NULL then msg else head, msg, free, entry + 1, queue + [msg], freeList)
  {
    if queue == [] {
      assert ([msg])[1..] == [];
      assert queue + [msg] == [msg];
    } else {
      ListAppend(next, head, queue, msg);
      ListFrame(next, tail, msg, free, freeList);
    }
  }

  /** The links after a node has been put in front of the queue. */
  lemma LinkFirst(next: seq<int>, head: int, tail: int, free: int, entry: nat, queue: seq<int>, freeList: seq<int>,
                  msg: int)
    requires LinksOk(next, head, tail, free, entry, queue, freeList)
    requires Absent(msg, queue) && Absent(msg, freeList) && 0 <= msg < |next|
    requires queue != [] ==> tail != NULL
    ensures LinksOk(next[msg := head], msg, if tail == NULL then msg
                                            else tail, free, entry + 1, [msg] + queue, freeList)
  {
    ListFrame(next, msg, head, head, queue);
    ListFrame(next, msg, head, free, freeList);
    assert ([msg] + queue)[1..] == queue;
  }

  /** The links after a node has been put in front of the free list. */
  lemma LinkFree(next: seq<int>, head: int, tail: int, free: int, entry: nat, queue: seq<int>, freeList: seq<int>,
                 msg: int)
    requires LinksOk(next, head, tail, free, entry, queue, freeList)
    requires Absent(msg, queue) && Absent(msg, freeList) && 0 <= msg < |next|
    ensures LinksOk(next[msg := free], head, tail, msg, entry, queue, [msg] + freeList)
  {
    ListFrame(next, msg, free, head, queue);
    ListFrame(next, msg, free, free, freeList);
    assert ([msg] + freeList)[1..] == freeList;
  }

  /** A linked node adds its message at the same end. */
  lemma LinkHolds(body: seq<Bytes>, queue: seq<int>, messages: seq<Bytes>, n: int, m: Bytes)
    requires QueueHolds(body, queue, messages) && 0 <= n < |body| && Holds(body[n], m)
    ensures QueueHolds(body, queue + [n], messages + [m])
    ensures QueueHolds(body, [n] + queue, [m] + messages)
  {
  }

  lemma ReplayAppend(events: seq<Event>, e: Event)
    requires Replay(events).Some?
    ensures var q := Replay(events).value;
            Replay(events + [e]) ==
              match e
              case Linked(m, urgent) => Some(if urgent then [m] + q else q + [m])
              case Unlinked(m) => if q != [] && q[0] == m then Some(q[1..]) else None
              case Cleared => Some([])
  {
    assert (events + [e])[..|events|] == events;
  }

  /** Everything that holds between steps. */
  ghost predicate Inv(next: seq<int>, body: seq<Bytes>, msgSize: nat, head: int, tail: int, free: int, entry: nat,
                      tasks: map<ThreadId, Phase>, queue: seq<int>, freeList: seq<int>, messages: seq<Bytes>,
                      held: map<ThreadId, Bytes>, events: seq<Event>)
  {
    && |next| == |body| <= ENTRY_MAX
    && LinksOk(next, head, tail, free, entry, queue, freeList)
    && NodesOk(|next|, queue, freeList, tasks)
    && (forall n :: 0 <= n < |body| ==> |body[n]| == msgSize)
    && QueueHolds(body, queue, messages)
    && TasksOk(next, body, msgSize, tasks, held)
    && Replay(events) == Some(messages)
  }

  /** Every node is free. */
  lemma NewInv(next: seq<int>, body: seq<Bytes>, msgSize: nat, free: int, freeList: seq<int>)
    requires |next| == |body| == |freeList| <= ENTRY_MAX && IsList(next, free, freeList)
    requires forall i :: 0 <= i < |freeList| ==> freeList[i] == |freeList| - 1 - i
    requires forall n :: 0 <= n < |body| ==> |body[n]| == msgSize
    ensures Inv(next, body, msgSize, NULL, NULL, free, 0, map[], [], freeList, [], map[], [])
  {
  }

  /** t reserves the first free node. */
  lemma SendBeginInv(next: seq<int>, body: seq<Bytes>, msgSize: nat, head: int, tail: int, free: int, entry: nat,
                    tasks: map<ThreadId, Phase>, queue: seq<int>, freeList: seq<int>, messages: seq<Bytes>,
                    held: map<ThreadId, Bytes>, events: seq<Event>, t: ThreadId, p: Phase)
    requires Inv(next, body, msgSize, head, tail, free, entry, tasks, queue, freeList, messages, held, events)
    requires t !in tasks && p.Filling? && |p.buffer| <= msgSize && p.node == free != NULL
    ensures freeList != [] && free == freeList[0] && 0 <= free < |next|
    ensures Inv(next, body, msgSize, head, tail, next[free], entry, tasks[t := p], queue, freeList[1..], messages,
                held, events)
  {
    ReserveNodes(|next|, queue, freeList, tasks, t, p);
  }

  /** t's message is copied into its own node. */
  lemma SendCopyInv(next: seq<int>, body: seq<Bytes>, msgSize: nat, head: int, tail: int, free: int, entry: nat,
                    tasks: map<ThreadId, Phase>, queue: seq<int>, freeList: seq<int>, messages: seq<Bytes>,
                    held: map<ThreadId, Bytes>, events: seq<Event>, t: ThreadId)
    requires Inv(next, body, msgSize, head, tail, free, entry, tasks, queue, freeList, messages, held, events)
    requires t in tasks && tasks[t].Filling?
    ensures var n, p := tasks[t].node, tasks[t];
            && 0 <= n < |next| && |p.buffer| <= |body[n]|
            && Inv(if p.urgent then next else next[n := NULL], body[n := p.buffer + body[n][|p.buffer|..]], msgSize,
                   head, tail, free, entry, tasks[t := Filled(n, p.urgent, p.buffer)], queue, freeList, messages, held,
                   events)
  {
    var n, p := tasks[t].node, tasks[t];
    var v := if p.urgent then next[n] else NULL;
    AdvanceNodes(|next|, queue, freeList, tasks, t, Filled(n, p.urgent, p.buffer));
    CopyTask(next, v, body, msgSize, tasks, held, t);
    CopyBodies(body, n, p.buffer, msgSize, queue, messages);
    hide NodesOk, TasksOk, QueueHolds, Replay;
    ListFrame(next, n, v, head, queue);
    ListFrame(next, n, v, free, freeList);
  }

  /** t unlinks the first message. */
  lemma RecvBeginInv(next: seq<int>, body: seq<Bytes>, msgSize: nat, head: int, tail: int, free: int, entry: nat,
                    tasks: map<ThreadId, Phase>, queue: seq<int>, freeList: seq<int>, messages: seq<Bytes>,
                    held: map<ThreadId, Bytes>, events: seq<Event>, t: ThreadId, size: nat)
    requires Inv(next, body, msgSize, head, tail, free, entry, tasks, queue, freeList, messages, held, events)
    requires t !in tasks && entry > 0
    ensures queue != [] && messages != [] && head == queue[0] && 0 <= head < |next|
    ensures Inv(next, body, msgSize, next[head], if tail == head then NULL else tail, free, entry - 1,
                tasks[t := Draining(head, size)], queue[1..], freeList, messages[1..], held[t := messages[0]],
                events + [Unlinked(messages[0])])
  {
    UnlinkNodes(|next|, queue, freeList, tasks, t, Draining(head, size));
    ReplayAppend(events, Unlinked(messages[0]));
    DrainTask(next, body, msgSize, tasks, held, t, head, size, messages[0]);
    hide NodesOk, TasksOk, Replay;
    assert queue[1..] != [] ==> queue[1..][|queue| - 2] == queue[|queue| - 1];
  }

  /** t has read its message, which its node still holds. */
  lemma RecvCopyInv(next: seq<int>, body: seq<Bytes>, msgSize: nat, head: int, tail: int, free: int, entry: nat,
                    tasks: map<ThreadId, Phase>, queue: seq<int>, freeList: seq<int>, messages: seq<Bytes>,
                    held: map<ThreadId, Bytes>, events: seq<Event>, t: ThreadId)
    requires Inv(next, body, msgSize, head, tail, free, entry, tasks, queue, freeList, messages, held, events)
    requires t in tasks && tasks[t].Draining?
    ensures var n, size := tasks[t].node, tasks[t].size;
            && 0 <= n < |body| && |body[n]| == msgSize && t in held && Holds(body[n], held[t])
            && Inv(next, body, msgSize, head, tail, free, entry, tasks[t := Drained(n, size)], queue, freeList,
                   messages,
                   held, events)
  {
    var n, size := tasks[t].node, tasks[t].size;
    AdvanceNodes(|next|, queue, freeList, tasks, t, Drained(n, size));
    assert TaskOk(next, body, msgSize, tasks[t], if t in held then Some(held[t]) else None);
  }

  /** t's written message becomes the last one. */
  lemma SendLinkInv(next: seq<int>, body: seq<Bytes>, msgSize: nat, head: int, tail: int, free: int, entry: nat,
                    tasks: map<ThreadId, Phase>, queue: seq<int>, freeList: seq<int>, messages: seq<Bytes>,
                    held: map<ThreadId, Bytes>, events: seq<Event>, t: ThreadId)
    requires Inv(next, body, msgSize, head, tail, free, entry, tasks, queue, freeList, messages, held, events)
    requires t in tasks && tasks[t].Filled? && !tasks[t].urgent
    ensures entry < ENTRY_MAX && 0 <= tasks[t].node < |next| && (tail != NULL ==> 0 <= tail < |next|)
    ensures var msg, m := tasks[t].node, tasks[t].buffer;
            Inv(if tail != NULL then next[tail := msg] else next, body, msgSize, if head == NULL then msg
                                                                                 else head, msg,
                free, entry + 1, tasks - {t}, queue + [msg], freeList, messages + [m], held,
                events + [Linked(m, false)])
  {
    var msg, m := tasks[t].node, tasks[t].buffer;
    LinkNodesLast(|next|, queue, freeList, tasks, t);
    LinkLast(next, head, tail, free, entry, queue, freeList, msg);
    LinkHolds(body, queue, messages, msg, m);
    ReplayAppend(events, Linked(m, false));
    TasksFrame(next, if tail != NULL then tail else msg, if tail != NULL then msg else next[msg], body, msgSize,
               tasks, held, t);
  }

  /** t's written message becomes the first one. */
  lemma UrgentLinkInv(next: seq<int>, body: seq<Bytes>, msgSize: nat, head: int, tail: int, free: int, entry: nat,
                      tasks: map<ThreadId, Phase>, queue: seq<int>, freeList: seq<int>, messages: seq<Bytes>,
                      held: map<ThreadId, Bytes>, events: seq<Event>, t: ThreadId)
    requires Inv(next, body, msgSize, head, tail, free, entry, tasks, queue, freeList, messages, held, events)
    requires t in tasks && tasks[t].Filled? && tasks[t].urgent
    ensures entry < ENTRY_MAX && 0 <= tasks[t].node < |next|
    ensures var msg, m := tasks[t].node, tasks[t].buffer;
            Inv(next[msg := head], body, msgSize, msg, if tail == NULL then msg else tail,
                free, entry + 1, tasks - {t}, [msg] + queue, freeList, [m] + messages, held, events + [Linked(m, true)])
  {
    var msg, m := tasks[t].node, tasks[t].buffer;
    LinkNodesFirst(|next|, queue, freeList, tasks, t);
    LinkFirst(next, head, tail, free, entry, queue, freeList, msg);
    LinkHolds(body, queue, messages, msg, m);
    ReplayAppend(events, Linked(m, true));
    TasksFrame(next, msg, head, body, msgSize, tasks, held, t);
  }

  /** t's node goes back to the free list. */
  lemma RecvEndInv(next: seq<int>, body: seq<Bytes>, msgSize: nat, head: int, tail: int, free: int, entry: nat,
                   tasks: map<ThreadId, Phase>, queue: seq<int>, freeList: seq<int>, messages: seq<Bytes>,
                   held: map<ThreadId, Bytes>, events: seq<Event>, t: ThreadId)
    requires Inv(next, body, msgSize, head, tail, free, entry, tasks, queue, freeList, messages, held, events)
    requires t in tasks
    ensures 0 <= tasks[t].node < |next|
    ensures var msg := tasks[t].node;
            Inv(next[msg := free], body, msgSize, head, tail, msg, entry, tasks - {t}, queue, [msg] + freeList,
                messages, held, events)
  {
    var msg := tasks[t].node;
    ReturnNodes(|next|, queue, freeList, tasks, t);
    LinkFree(next, head, tail, free, entry, queue, freeList, msg);
    TasksFrame(next, msg, free, body, msgSize, tasks, held, t);
  }

  /** The first queued node goes straight to the free list, as in a reset. */
  lemma FreeFirstInv(next: seq<int>, body: seq<Bytes>, msgSize: nat, head: int, tail: int, free: int, entry: nat,
                     tasks: map<ThreadId, Phase>, queue: seq<int>, freeList: seq<int>, messages: seq<Bytes>,
                     held: map<ThreadId, Bytes>, events: seq<Event>)
    requires Inv(next, body, msgSize, head, tail, free, entry, tasks, queue, freeList, messages, held, events)
    requires head != NULL
    ensures queue != [] && 0 <= head < |next| && entry > 0 && messages != []
    ensures Inv(next[head := free], body, msgSize, next[head], if tail == head then NULL
                                                               else tail, head, entry - 1, tasks,
                queue[1..], [queue[0]] + freeList, messages[1..], held, events + [Unlinked(messages[0])])
  {
    MoveNode(|next|, queue, freeList, tasks);
    ReplayAppend(events, Unlinked(messages[0]));
    TasksApart(next, head, free, body, msgSize, tasks, held);
    LinkFree(next, next[head], if tail == head then NULL else tail, free, entry - 1, queue[1..], freeList, head);
  }

  lemma Replayable(next: seq<int>, body: seq<Bytes>, msgSize: nat, head: int, tail: int, free: int, entry: nat,
                   tasks: map<ThreadId, Phase>, queue: seq<int>, freeList: seq<int>, messages: seq<Bytes>,
                   held: map<ThreadId, Bytes>, events: seq<Event>)
    requires Inv(next, body, msgSize, head, tail, free, entry, tasks, queue, freeList, messages, held, events)
    ensures Replay(events).Some?
  {
  }

  /** Once the loop of the reset has stopped, the queue is empty under any history. */
  lemma ClearedInv(next: seq<int>, body: seq<Bytes>, msgSize: nat, head: int, tail: int, free: int, entry: nat,
                   tasks: map<ThreadId, Phase>, queue: seq<int>, freeList: seq<int>, messages: seq<Bytes>,
                   held: map<ThreadId, Bytes>, events: seq<Event>,
                   log: seq<Event>)
    requires Inv(next, body, msgSize, head, tail, free, entry, tasks, queue, freeList, messages, held, log)
    requires head == NULL
    requires Replay(events).Some?
    ensures queue == []
    ensures Inv(next, body, msgSize, head, tail, free, 0, tasks, [], freeList, [], held, events + [Cleared])
  {
    ReplayAppend(events, Cleared);
  }

  class Queue {
    const msgSize: nat
    const maxMsgs: nat
    const next: array<int>             // the link of each node of msg_pool
    const body: array<Bytes>           // the bytes behind each link
    var head: int                      // msg_queue_head
    var tail: int                      // msg_queue_tail
    var free: int                      // msg_queue_free
    var entry: nat
    var tasks: map<ThreadId, Phase>
    ghost var queue: seq<int>          // nodes linked from head
    ghost var freeList: seq<int>       // nodes linked from free
    ghost var messages: seq<Bytes>     // what the queued nodes hold
    ghost var held: map<ThreadId, Bytes>   // what a receiving thread has unlinked
    ghost var events: seq<Event>

    ghost predicate Valid()
      reads this, next, body
    {
      && next.Length == body.Length == maxMsgs
      && Inv(next[..], body[..], msgSize, head, tail, free, entry, tasks, queue, freeList, messages, held, events)
    }

    /** rt_mq_init: every node is put in front of the free list in turn. */
    constructor (msgSize: nat, maxMsgs: nat)
      requires maxMsgs <= ENTRY_MAX
      ensures Valid() && fresh(next) && fresh(body) && this.msgSize == msgSize && this.maxMsgs == maxMsgs
      ensures tasks == map[] && messages == [] && events == [] && held == map[] && |freeList| == maxMsgs
    {
      this.msgSize, this.maxMsgs := msgSize, maxMsgs;
      next := new int[maxMsgs];
      body := new Bytes[maxMsgs](_ => seq(msgSize, _ => 0));
      head, tail, free, entry := NULL, NULL, NULL, 0;
      tasks, queue, freeList, messages, held, events := map[], [], [], [], map[], [];
      new;
      assert forall n :: 0 <= n < maxMsgs ==> |body[n]| == msgSize;
      for temp := 0 to maxMsgs
        invariant |freeList| == temp && IsList(next[..], free, freeList)
        invariant forall i :: 0 <= i < temp ==> freeList[i] == temp - 1 - i
        invariant forall n :: 0 <= n < maxMsgs ==> |body[n]| == msgSize
        invariant tasks == map[] && head == tail == NULL && entry == 0 && queue == [] && messages == []
        invariant held == map[] && events == []
      {
        ListFrame(next[..], temp, free, free, freeList);
        next[temp] := free;
        free, freeList := temp, [temp] + freeList;
      }
      NewInv(next[..], body[..], msgSize, free, freeList);
    }

    /** The first region of rt_mq_send_wait and rt_mq_urgent without waiting: reserve a free node. */
    method SendBegin(t: ThreadId, buffer: Bytes, urgent: bool) returns (r: Result)
      requires Valid() && t !in tasks
      modifies this
      ensures Valid()
      ensures queue == old(queue) && messages == old(messages) && events == old(events) && held == old(held)
      ensures r == if |buffer| > msgSize then Error
                   else if |old(messages)| + |old(tasks)| == maxMsgs then Full else Ok
      ensures r != Ok ==> tasks == old(tasks) && freeList == old(freeList)
      ensures r == Ok ==> old(freeList) != [] && tasks == old(tasks)[t := Filling(old(freeList)[0], urgent, buffer)]
                          && freeList == old(freeList)[1..]
      ensures r == Full ==> freeList == []
    {
      hide Inv;
      FreeNodes();
      if |buffer| > msgSize {
        return Error;
      }
      var msg := free;
      if msg == NULL {
        return Full;
      }
      SendBeginInv(next[..], body[..], msgSize, head, tail, free, entry, tasks, queue, freeList, messages, held, events,
                   t, Filling(msg, urgent, buffer));
      free := next[msg];
      tasks := tasks[t := Filling(msg, urgent, buffer)];
      freeList := freeList[1..];
      r := Ok;
    }

    /** The free list is empty exactly when messages and operations under way use all nodes. */
    lemma FreeNodes()
      requires Valid()
      ensures free == NULL <==> freeList == []
      ensures |messages| + |tasks| == maxMsgs <==> freeList == []
    {
    }

    /** The copy of rt_mq_send_wait or rt_mq_urgent, made with interrupts on. */
    method SendCopy(t: ThreadId)
      requires Valid() && t in tasks && tasks[t].Filling?
      modifies this`tasks, next, body
      ensures Valid()
      ensures tasks == old(tasks)[t := Filled(old(tasks[t]).node, old(tasks[t]).urgent, old(tasks[t]).buffer)]
    {
      hide Inv;
      SendCopyInv(next[..], body[..], msgSize, head, tail, free, entry, tasks, queue, freeList, messages, held,
                  events, t);
      ghost var links, bodies := next[..], body[..];
      var msg, buffer := tasks[t].node, tasks[t].buffer;
      if !tasks[t].urgent {
        next[msg] := NULL;
      }
      body[msg] := buffer + body[msg][|buffer|..];
      assert next[..] == if tasks[t].urgent then links else links[msg := NULL];
      assert body[..] == bodies[msg := buffer + bodies[msg][|buffer|..]];
      tasks := tasks[t := Filled(msg, tasks[t].urgent, buffer)];
    }

    /** The second region of rt_mq_send_wait: the message becomes the last one. */
    method SendLink(t: ThreadId) returns (r: Result)
      requires Valid() && t in tasks && tasks[t].Filled? && !tasks[t].urgent
      modifies this, next
      ensures Valid() && r == Ok
      ensures tasks == old(tasks) - {t} && held == old(held)
      ensures messages == old(messages) + [old(tasks[t]).buffer]
      ensures events == old(events) + [Linked(old(tasks[t]).buffer, false)]
      ensures freeList == old(freeList) && queue == old(queue) + [old(tasks[t]).node]
    {
      hide Inv;
      ghost var bodies := body[..];
      SendLinkInv(next[..], bodies, msgSize, head, tail, free, entry, tasks, queue, freeList, messages, held, events,
                  t);
      var msg := tasks[t].node;
      ghost var links, last := next[..], tail;
      if tail != NULL {
        next[tail] := msg;
      }
      assert next[..] == if last != NULL then links[last := msg] else links;
      assert body[..] == bodies;
      tail := msg;
      if head == NULL {
        head := msg;
      }
      messages := messages + [tasks[t].buffer];
      events := events + [Linked(tasks[t].buffer, false)];
      queue := queue + [msg];
      tasks := tasks - {t};
      r := CountEntry();
    }

    /** The entry counter; it cannot overflow, since a node that is being linked was not queued before. */
    method CountEntry() returns (r: Result)
      requires entry < ENTRY_MAX
      modifies this`entry
      ensures r == Ok && entry == old(entry) + 1
    {
      if entry < ENTRY_MAX {
        entry := entry + 1;
      } else {
        return Full;
      }
      r := Ok;
    }

    /** The second region of rt_mq_urgent: the message becomes the first one. */
    method UrgentLink(t: ThreadId) returns (r: Result)
      requires Valid() && t in tasks && tasks[t].Filled? && tasks[t].urgent
      modifies this, next
      ensures Valid() && r == Ok
      ensures tasks == old(tasks) - {t} && held == old(held)
      ensures messages == [old(tasks[t]).buffer] + old(messages)
      ensures events == old(events) + [Linked(old(tasks[t]).buffer, true)]
      ensures freeList == old(freeList) && queue == [old(tasks[t]).node] + old(queue)
    {
      hide Inv;
      ghost var bodies := body[..];
      UrgentLinkInv(next[..], bodies, msgSize, head, tail, free, entry, tasks, queue, freeList, messages, held,
                    events, t);
      var msg := tasks[t].node;
      ghost var links := next[..];
      next[msg] := head;
      assert next[..] == links[msg := head];
      assert body[..] == bodies;
      head := msg;
      if tail == NULL {
        tail := msg;
      }
      messages := [tasks[t].buffer] + messages;
      events := events + [Linked(tasks[t].buffer, true)];
      queue := [msg] + queue;
      tasks := tasks - {t};
      r := CountEntry();
    }

    /** The first region of rt_mq_recv without waiting: the first node is unlinked. */
    method RecvBegin(t: ThreadId, size: nat) returns (r: Result)
      requires Valid() && t !in tasks
      modifies this
      ensures Valid()
      ensures r == if old(messages) == [] then TimedOut else Ok
      ensures freeList == old(freeList) && (r != Ok ==> queue == old(queue))
      ensures r != Ok ==> tasks == old(tasks) && messages == old(messages) && events == old(events) && held == old(held)
      ensures r == Ok ==>
                && |old(queue)| > 0 && queue == old(queue)[1..]
                && tasks == old(tasks)[t := Draining(old(queue)[0], size)]
                && messages == old(messages)[1..] && held == old(held)[t := old(messages)[0]]
                && events == old(events) + [Unlinked(old(messages)[0])]
    {
      hide Inv;
      CountedMessages();
      if entry == 0 {
        return TimedOut;
      }
      RecvBeginInv(next[..], body[..], msgSize, head, tail, free, entry, tasks, queue, freeList, messages, held,
                   events, t, size);
      var msg := head;
      head := next[msg];
      if tail == msg {
        tail := NULL;
      }
      if entry > 0 {
        entry := entry - 1;
      }
      events := events + [Unlinked(messages[0])];
      held := held[t := messages[0]];
      queue, messages := queue[1..], messages[1..];
      tasks := tasks[t := Draining(msg, size)];
      r := Ok;
    }

    /** The entry counter counts the messages. */
    lemma CountedMessages()
      requires Valid()
      ensures entry == |messages| == |queue|
    {
    }

    /** The copy of rt_mq_recv, made with interrupts on: it delivers the message that was unlinked. */
    method RecvCopy(t: ThreadId) returns (buffer: Bytes)
      requires Valid() && t in tasks && tasks[t].Draining?
      modifies this`tasks
      ensures Valid()
      ensures tasks == old(tasks)[t := Drained(old(tasks[t]).node, old(tasks[t]).size)]
      // as many bytes as the receiver asked for, but no more than a message has; they start with what was sent
      ensures |buffer| <= old(tasks[t]).size && |buffer| <= msgSize
      ensures |buffer| == old(tasks[t]).size || |buffer| == msgSize
      ensures t in held
      ensures forall k {:trigger buffer[k]} :: 0 <= k < |buffer| && k < |held[t]| ==> buffer[k] == held[t][k]
    {
      hide Inv;
      RecvCopyInv(next[..], body[..], msgSize, head, tail, free, entry, tasks, queue, freeList, messages, held,
                  events, t);
      var msg, size := tasks[t].node, tasks[t].size;
      buffer := body[msg][..if size > msgSize then msgSize else size];
      tasks := tasks[t := Drained(msg, size)];
    }

    /** The last region of rt_mq_recv: the node goes back to the free list. */
    method RecvEnd(t: ThreadId)
      requires Valid() && t in tasks && tasks[t].Drained?
      modifies this, next
      ensures Valid()
      ensures tasks == old(tasks) - {t} && held == old(held) && messages == old(messages) && events == old(events)
      ensures freeList == [old(tasks[t]).node] + old(freeList) && queue == old(queue)
    {
      hide Inv;
      ghost var bodies := body[..];
      RecvEndInv(next[..], bodies, msgSize, head, tail, free, entry, tasks, queue, freeList, messages, held, events, t);
      var msg := tasks[t].node;
      ghost var links := next[..];
      next[msg] := free;
      assert next[..] == links[msg := free];
      assert body[..] == bodies;
      free := msg;
      freeList := [msg] + freeList;
      tasks := tasks - {t};
    }

    /** rt_mq_control with RT_IPC_CMD_RESET: every queued node is freed; half-finished sends and receives go on. */
    method Reset()
      requires Valid()
      modifies this, next
      ensures Valid()
      ensures messages == [] && tasks == old(tasks) && held == old(held) && events == old(events) + [Cleared]
      ensures |freeList| == |old(freeList)| + |old(queue)| && queue == []
    {
      hide Inv, Replay;
      Replayable(next[..], body[..], msgSize, head, tail, free, entry, tasks, queue, freeList, messages, held, events);
      ghost var bodies := body[..];
      ghost var count := entry;      // the counter is only cleared at the end
      ghost var log := events;
      while head != NULL
        invariant next.Length == body.Length == maxMsgs && body[..] == bodies
        invariant Inv(next[..], bodies, msgSize, head, tail, free, count, tasks, queue, freeList, messages, held, log)
        invariant tasks == old(tasks) && held == old(held) && events == old(events)
        invariant |freeList| + |queue| == |old(freeList)| + |old(queue)|
        decreases |queue|
      {
        log := FreeFirst(bodies, count, log);
        count := count - 1;
      }
      ClearedInv(next[..], bodies, msgSize, head, tail, free, count, tasks, queue, freeList, messages, held, events,
                 log);
      entry := 0;
      queue, messages, events := [], [], events + [Cleared];
    }

    /** One round of that loop: the first queued node goes to the free list. */
    method FreeFirst(ghost bodies: seq<Bytes>, ghost count: nat, ghost log: seq<Event>) returns (ghost log': seq<Event>)
      requires head != NULL && body[..] == bodies
      requires Inv(next[..], bodies, msgSize, head, tail, free, count, tasks, queue, freeList, messages, held, log)
      modifies this`head, this`tail, this`free, this`queue, this`freeList, this`messages, next
      ensures body[..] == bodies && count > 0
      ensures Inv(next[..], bodies, msgSize, head, tail, free, count - 1, tasks, queue, freeList, messages, held, log')
      ensures old(queue) != [] && queue == old(queue)[1..] && freeList == [old(queue)[0]] + old(freeList)
    {
      hide Inv, Replay;
      FreeFirstInv(next[..], bodies, msgSize, head, tail, free, count, tasks, queue, freeList, messages, held, log);
      var msg := head;
      head := next[msg];
      if tail == msg {
        tail := NULL;
      }
      ghost var links := next[..];
      next[msg] := free;
      assert next[..] == links[msg := free];
      free := msg;
      log' := log + [Unlinked(messages[0])];
      queue, freeList, messages := queue[1..], [queue[0]] + freeList, messages[1..];
    }
  }

  lemma MoveNode(count: nat, queue: seq<int>, free: seq<int>, tasks: map<ThreadId, Phase>)
    requires NodesOk(count, queue, free, tasks) && queue != []
    ensures NodesOk(count, queue[1..], [queue[0]] + free, tasks)
  {
  }
}
