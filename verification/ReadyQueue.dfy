/** The ready queue of the uniprocessor scheduler: per-priority lists and the bitmaps that index them. */
module ReadyQueue {
  import opened Lists
  import opened FirstBit

  type Tid = nat

  datatype Stat = Init | Ready | Suspended | Running

  /** The scheduling fields of struct rt_thread; yielded is RT_THREAD_STAT_YIELD. */
  datatype Thread = Thread(stat: Stat, yielded: bool, priority: Byte, number: Byte, numberMask: Word, highMask: Byte)

  type Threads = map<Tid, Thread>

  /** The masks computed from a priority when a thread starts or changes its priority. */
  function WithPriority(wide: bool, t: Thread, p: Byte): Thread
    requires wide || Below32(p)
  {
    if wide
    then t.(priority := p, number := Group(p), numberMask := Mask(Group(p)), highMask := Mask8(Slot(p)))
    else t.(priority := p, numberMask := Mask(p))
  }

  predicate MasksOk(wide: bool, t: Thread) {
    (wide || Below32(t.priority)) && t == WithPriority(wide, t, t.priority)
  }

  /** The bit of priority p is set exactly when its list holds a thread, and so is the bit of its group. */
  ghost predicate BitOk(wide: bool, group: Word, table: seq<Byte>, lists: seq<seq<Tid>>, p: Byte)
    requires |table| == 32 && |lists| == 256
  {
    var i, g := Ix(p), Ix(Group(p));
    && (wide ==> && g < 32
                 && (Bit8(table[g], Slot(p)) <==> lists[i] != [])
                 && (Bit(group, Group(p)) <==> table[g] != ZERO8))
    && (!wide ==> if Below32(p) then Bit(group, p) <==> lists[i] != [] else lists[i] == [])
  }

  ghost predicate BitsOk(wide: bool, group: Word, table: seq<Byte>, lists: seq<seq<Tid>>) {
    && |table| == 32 && |lists| == 256
    && forall p: Byte {:trigger BitOk(wide, group, table, lists, p)} :: BitOk(wide, group, table, lists, p)
  }

  /** The lists hold exactly the ready threads other than out, each at its current priority and once. */
  ghost predicate ListedBut(threads: Threads, lists: seq<seq<Tid>>, out: Option<Tid>) {
    && |lists| == 256
    && (forall i {:trigger lists[i]} :: 0 <= i < 256 ==> NoDuplicates(lists[i]))
    && (forall i, t: Tid {:trigger t in lists[i]} :: 0 <= i < 256 ==>
          (t in lists[i] <==> t in threads && out != Some(t) && threads[t].stat.Ready? && Ix(threads[t].priority) == i))
  }

  /** The lists hold exactly the ready threads. */
  ghost predicate Listed(threads: Threads, lists: seq<seq<Tid>>) {
    ListedBut(threads, lists, None)
  }

  // ---------------------------------------------------------------- the bitmaps follow the lists

  /** The bitmaps after a thread joined the list of priority p. */
  function GroupSet(wide: bool, group: Word, p: Byte): Word
    requires wide || Below32(p)
  {
    Or(group, Mask(if wide then Group(p) else p))
  }

  function TableSet(wide: bool, table: seq<Byte>, p: Byte): seq<Byte>
    requires |table| == 32 && Ix(Group(p)) < 32
  {
    if wide then table[Ix(Group(p)) := Or8(table[Ix(Group(p))], Mask8(Slot(p)))] else table
  }

  lemma InsertBits(wide: bool, group: Word, table: seq<Byte>, lists: seq<seq<Tid>>, p: Byte, l: seq<Tid>)
    requires BitsOk(wide, group, table, lists) && (wide || Below32(p)) && l != []
    ensures Ix(Group(p)) < 32 && BitsOk(wide, GroupSet(wide, group, p), TableSet(wide, table, p), lists[Ix(p) := l])
  {
    IxApart(p, p);
    var group', table', lists' := GroupSet(wide, group, p), TableSet(wide, table, p), lists[Ix(p) := l];
    forall q: Byte {:trigger BitOk(wide, group', table', lists', q)} ensures BitOk(wide, group', table', lists', q) {
      assert BitOk(wide, group, table, lists, q);
      InsertBit(wide, group, table, lists, p, l, q);
    }
  }

  lemma InsertBit(wide: bool, group: Word, table: seq<Byte>, lists: seq<seq<Tid>>, p: Byte, l: seq<Tid>, q: Byte)
    requires |table| == 32 && |lists| == 256 && Ix(Group(p)) < 32
    requires BitOk(wide, group, table, lists, q) && (wide || Below32(p)) && l != []
    ensures BitOk(wide, GroupSet(wide, group, p), TableSet(wide, table, p), lists[Ix(p) := l], q)
  {
    GroupSlot(p, q);
    IxApart(p, q);
    hide Bit, Bit8, Or, Or8, Mask, Mask8, Group, Slot, Ix;
    if wide {
      AfterOr(group, Group(p), Group(q));
      AfterOrByte(table[Ix(Group(p))], Slot(p), Slot(q));
    } else if Below32(q) {
      AfterOr(group, p, q);
    }
  }

  /** The bitmaps after a thread left the list of priority p, which is now l. */
  function TableCleared(wide: bool, table: seq<Byte>, p: Byte, l: seq<Tid>): seq<Byte>
    requires |table| == 32 && Ix(Group(p)) < 32
  {
    if wide && l == [] then table[Ix(Group(p)) := AndNot8(table[Ix(Group(p))], Mask8(Slot(p)))] else table
  }

  function GroupCleared(wide: bool, group: Word, table: seq<Byte>, p: Byte, l: seq<Tid>): Word
    requires |table| == 32 && Ix(Group(p)) < 32 && (wide || Below32(p))
  {
    if l != [] then group
    else if !wide then AndNot(group, Mask(p))
    else if TableCleared(wide, table, p, l)[Ix(Group(p))] == ZERO8 then AndNot(group, Mask(Group(p)))
    else group
  }

  lemma RemoveBits(wide: bool, group: Word, table: seq<Byte>, lists: seq<seq<Tid>>, p: Byte, l: seq<Tid>)
    requires BitsOk(wide, group, table, lists) && (wide || Below32(p)) && |l| <= |lists[Ix(p)]|
    requires l != [] ==> lists[Ix(p)] != []
    ensures Ix(Group(p)) < 32
    ensures BitsOk(wide, GroupCleared(wide, group, table, p, l), TableCleared(wide, table, p, l), lists[Ix(p) := l])
  {
    IxApart(p, p);
    var group', table', lists' := GroupCleared(wide, group, table, p, l), TableCleared(wide, table, p, l),
    lists[Ix(p) := l];
    forall q: Byte {:trigger BitOk(wide, group', table', lists', q)} ensures BitOk(wide, group', table', lists', q) {
      assert BitOk(wide, group, table, lists, q);
      RemoveBit(wide, group, table, lists, p, l, q);
    }
  }

  lemma RemoveBit(wide: bool, group: Word, table: seq<Byte>, lists: seq<seq<Tid>>, p: Byte, l: seq<Tid>, q: Byte)
    requires |table| == 32 && |lists| == 256 && Ix(Group(p)) < 32
    requires BitOk(wide, group, table, lists, q) && (wide || Below32(p)) && (l != [] ==> lists[Ix(p)] != [])
    ensures BitOk(wide, GroupCleared(wide, group, table, p, l), TableCleared(wide, table, p, l), lists[Ix(p) := l], q)
  {
    GroupSlot(p, q);
    IxApart(p, q);
    hide Bit, Bit8, AndNot, AndNot8, Mask, Mask8, Group, Slot, Ix;
    if wide {
      AfterAndNot(group, Group(p), Group(q));
      AfterAndNotByte(table[Ix(Group(p))], Slot(p), Slot(q));
    } else if Below32(q) {
      AfterAndNot(group, p, q);
    }
  }

  // ---------------------------------------------------------------- the highest ready priority

  /** What _scheduler_get_highest_priority_thread computes from the bitmaps. */
  function HighestPriority(wide: bool, group: Word, table: seq<Byte>): Byte
    requires |table| == 32 && group != ZERO && (wide ==> table[Ix(First(group))] != ZERO8)
  {
    var number := First(group);
    if wide then Joined(number, First8(table[Ix(number)])) else number
  }

  /** The bitmaps lead to the first list that is not empty. */
  lemma HighestIs(wide: bool, group: Word, table: seq<Byte>, lists: seq<seq<Tid>>)
    requires BitsOk(wide, group, table, lists) && group != ZERO
    ensures wide ==> table[Ix(First(group))] != ZERO8
    ensures var p := HighestPriority(wide, group, table);
            && (wide || Below32(p))
            && lists[Ix(p)] != []
            && forall q: Byte {:trigger Ix(q)} :: Ix(q) < Ix(p) ==> lists[Ix(q)] == []
  {
    hide Ix, First, First8, Joined, BitsOk;
    if wide {
      HighestWide(group, table, lists);
    } else {
      HighestNarrow(group, table, lists);
    }
  }

  lemma HighestNarrow(group: Word, table: seq<Byte>, lists: seq<seq<Tid>>)
    requires BitsOk(false, group, table, lists) && group != ZERO
    ensures var p := First(group);
            lists[Ix(p)] != [] && forall q: Byte {:trigger Ix(q)} :: Ix(q) < Ix(p) ==> lists[Ix(q)] == []
  {
    hide Bit, Ix, First;
    var n := First(group);
    assert BitOk(false, group, table, lists, n);
    forall q: Byte {:trigger Ix(q)} | Ix(q) < Ix(n) ensures lists[Ix(q)] == [] {
      assert BitOk(false, group, table, lists, q);
      FirstIs(group, q);
    }
  }

  lemma HighestWide(group: Word, table: seq<Byte>, lists: seq<seq<Tid>>)
    requires BitsOk(true, group, table, lists) && group != ZERO
    ensures table[Ix(First(group))] != ZERO8
    ensures var p := HighestPriority(true, group, table);
            lists[Ix(p)] != [] && forall q: Byte {:trigger Ix(q)} :: Ix(q) < Ix(p) ==> lists[Ix(q)] == []
  {
    GroupNotZero(group, table, lists);
    var p := HighestPriority(true, group, table);
    FoundGroup(group, table);
    hide Bit, Bit8, Group, Slot, Ix, First, First8, Joined, HighestPriority;
    assert BitOk(true, group, table, lists, p);
    forall q: Byte {:trigger Ix(q)} | Ix(q) < Ix(p) ensures lists[Ix(q)] == [] {
      assert BitOk(true, group, table, lists, q);
      LowerPriority(group, table, q, p);
    }
  }

  lemma GroupNotZero(group: Word, table: seq<Byte>, lists: seq<seq<Tid>>)
    requires BitsOk(true, group, table, lists) && group != ZERO
    ensures table[Ix(First(group))] != ZERO8
  {
    hide Bit, Bit8, Group, Slot, Ix, First, Joined;
    assert BitOk(true, group, table, lists, Joined(First(group), ZERO8));
  }

  /** The priority found has its bit set. */
  lemma FoundGroup(group: Word, table: seq<Byte>)
    requires |table| == 32 && group != ZERO && table[Ix(First(group))] != ZERO8
    ensures var p := HighestPriority(true, group, table);
            Ix(Group(p)) < 32 && Bit8(table[Ix(Group(p))], Slot(p))
  {
    hide Bit, Bit8, Group, Slot, Ix, First, First8, Joined;
  }

  /** A priority below the one found has neither its group bit nor its own bit set. */
  lemma LowerPriority(group: Word, table: seq<Byte>, q: Byte, p: Byte)
    requires |table| == 32 && group != ZERO && table[Ix(First(group))] != ZERO8
    requires p == HighestPriority(true, group, table) && Ix(q) < Ix(p) && Ix(Group(q)) < 32
    requires Bit(group, Group(q)) <==> table[Ix(Group(q))] != ZERO8
    ensures !Bit8(table[Ix(Group(q))], Slot(q))
  {
    GroupOrder(q, p);
    ZeroBits(Slot(q));
    hide Bit, Bit8, Group, Slot, Ix, First, First8, Joined;
    if Ix(Group(q)) < Ix(First(group)) {
      FirstIs(group, Group(q));
    } else {
      FirstIs8(table[Ix(First(group))], Slot(q));
    }
  }

  /** Without a bit in the group word no thread is ready. */
  lemma NoBits(wide: bool, table: seq<Byte>, lists: seq<seq<Tid>>, p: Byte)
    requires BitsOk(wide, ZERO, table, lists)
    ensures lists[Ix(p)] == []
  {
    ZeroBits(p);
    ZeroBits(Group(p));
    ZeroBits(Slot(p));
    hide Bit, Bit8, Group, Slot, Ix;
    assert BitOk(wide, ZERO, table, lists, p);
  }

  // ---------------------------------------------------------------- the lists follow the threads

  /** t joins the list of its priority, at the front or at the back. */
  function Joining(l: seq<Tid>, t: Tid, back: bool): seq<Tid> {
    if back then l + [t] else [t] + l
  }

  lemma JoinListed(threads: Threads, lists: seq<seq<Tid>>, t: Tid, back: bool)
    requires t in threads && ListedBut(threads, lists, Some(t)) && threads[t].stat.Ready?
    ensures var i := Ix(threads[t].priority); Listed(threads, lists[i := Joining(lists[i], t, back)])
  {
    var i := Ix(threads[t].priority);
    var l := Joining(lists[i], t, back);
    assert t !in lists[i];
    assert forall x :: x in l <==> x == t || x in lists[i];
    assert NoDuplicates(l);
    var lists' := lists[i := l];
    forall j, x: Tid {:trigger x in lists'[j]} | 0 <= j < 256
      ensures x in lists'[j] <==> x in threads && threads[x].stat.Ready? && Ix(threads[x].priority) == j
    {
      assert x in lists[j] <==> x in threads && x != t && threads[x].stat.Ready? && Ix(threads[x].priority) == j;
    }
  }

  /** t leaves the list of its priority, if it is there. */
  lemma LeaveListed(threads: Threads, lists: seq<seq<Tid>>, t: Tid)
    requires t in threads && Listed(threads, lists)
    ensures var i := Ix(threads[t].priority); ListedBut(threads, lists[i := Remove(lists[i], t)], Some(t))
  {
    var i := Ix(threads[t].priority);
    RemoveDistinct(lists[i], t);
    var lists' := lists[i := Remove(lists[i], t)];
    forall j, x: Tid {:trigger x in lists'[j]} | 0 <= j < 256
      ensures x in lists'[j] <==>
                x in threads && Some(t) != Some(x) && threads[x].stat.Ready? && Ix(threads[x].priority) == j
    {
      assert x in lists[j] <==> x in threads && threads[x].stat.Ready? && Ix(threads[x].priority) == j;
    }
  }

  /** What is said about t itself does not matter while it is taken out. */
  lemma OutChanges(threads: Threads, lists: seq<seq<Tid>>, t: Tid, x: Thread)
    requires t in threads && ListedBut(threads, lists, Some(t))
    ensures ListedBut(threads[t := x], lists, Some(t))
    ensures !x.stat.Ready? ==> Listed(threads[t := x], lists)
  {
    var threads' := threads[t := x];
    forall j, y: Tid {:trigger y in lists[j]} | 0 <= j < 256
      ensures y in lists[j] <==> y in threads' && y != t && threads'[y].stat.Ready? && Ix(threads'[y].priority) == j
    {
    }
  }

  lemma OutAlready(threads: Threads, lists: seq<seq<Tid>>, t: Tid)
    requires t in threads && Listed(threads, lists) && !threads[t].stat.Ready?
    ensures ListedBut(threads, lists, Some(t))
  {
  }

  /** The masks kept in a thread select the bits of its priority. */
  lemma MasksSelect(wide: bool, t: Thread)
    requires MasksOk(wide, t)
    ensures wide || Below32(t.priority)
    ensures if wide then t.number == Group(t.priority) && t.numberMask == Mask(Group(t.priority))
            && t.highMask == Mask8(Slot(t.priority))
            else t.numberMask == Mask(t.priority)
  {
    hide Group, Slot, Mask, Mask8;
  }

  lemma MasksKeep(wide: bool, threads: Threads, t: Tid, x: Thread)
    requires AllMasksOk(wide, threads) && MasksOk(wide, x)
    ensures AllMasksOk(wide, threads[t := x])
  {
  }

  lemma StatKeeps(wide: bool, t: Thread, stat: Stat, yielded: bool)
    requires MasksOk(wide, t)
    ensures MasksOk(wide, t.(stat := stat, yielded := yielded))
  {
  }

  ghost predicate AllMasksOk(wide: bool, threads: Threads) {
    forall t {:trigger threads[t]} :: t in threads ==> MasksOk(wide, threads[t])
  }

  class Scheduler {
    const wide: bool                     // RT_THREAD_PRIORITY_MAX > 32
    const lists: array<seq<Tid>>         // rt_thread_priority_table
    const table: array<Byte>              // rt_thread_ready_table
    var group: Word                      // rt_thread_ready_priority_group
    var threads: Threads
    var current: Tid                     // rt_current_thread
    var currentPriority: Byte             // rt_current_priority
    var lockNest: nat                    // rt_scheduler_lock_nest

    /** Bitmaps and lists agree while thread out may be on its way from one list to another. */
    ghost predicate QueuesBut(out: Option<Tid>)
      reads this`group, this`threads, lists, table
      ensures QueuesBut(out) ==> lists.Length == 256 && table.Length == 32
    {
      && BitsOk(wide, group, table[..], lists[..])
      && ListedBut(threads, lists[..], out)
      && AllMasksOk(wide, threads)
    }

    ghost predicate Valid()
      reads this, lists, table
      ensures Valid() ==> QueuesBut(None) && current in threads
    {
      && QueuesBut(None)
      && current in threads && !threads[current].stat.Ready?
      && forall t {:trigger threads[t]} :: t in threads && threads[t].stat.Running? ==> t == current
    }

    /** rt_schedule_insert_thread; the thread is in no list. */
    method InsertThread(t: Tid)
      requires QueuesBut(Some(t)) && t in threads
      modifies this`group, this`threads, lists, table
      ensures QueuesBut(None)
      ensures t == current ==>
                threads == old(threads)[t := old(threads[t]).(stat := Running)] && lists[..] == old(lists[..])
      ensures t != current ==>
                && threads == old(threads)[t := old(threads[t]).(stat := Ready)]
                && var i := Ix(old(threads[t]).priority);
                   var line := old(lists[..])[i];
                   lists[..] == old(lists[..])[i := if old(threads[t]).yielded then line + [t] else [t] + line]
    {
      ghost var ls, tb := lists[..], table[..];
      var thread := threads[t].(stat := if t == current then Running else Ready);
      OutChanges(threads, ls, t, thread);
      StatKeeps(wide, threads[t], thread.stat, thread.yielded);
      MasksKeep(wide, threads, t, thread);
      hide MasksOk, AllMasksOk;
      threads := threads[t := thread];
      if t == current {
        return;
      }
      Link(t, thread);
    }

    /** The bits of a thread that has joined its list are set. */
    method SetBits(thread: Thread)
      requires MasksOk(wide, thread) && table.Length == 32
      modifies this`group, table
      ensures (wide || Below32(thread.priority)) && Ix(Group(thread.priority)) < 32
      ensures group == GroupSet(wide, old(group), thread.priority)
      ensures table[..] == TableSet(wide, old(table[..]), thread.priority)
    {
      IxApart(thread.priority, thread.number);
      MasksSelect(wide, thread);
      hide MasksOk, Or, Or8, Mask, Mask8, Group, Slot, Ix;
      if wide {
        table[Ix(thread.number)] := Or8(table[Ix(thread.number)], thread.highMask);
      }
      group := Or(group, thread.numberMask);
    }

    /** The bits of a thread that has left its list, now l, are cleared as far as nobody else needs them. */
    method ClearBits(thread: Thread, l: seq<Tid>)
      requires MasksOk(wide, thread) && table.Length == 32
      modifies this`group, table
      ensures (wide || Below32(thread.priority)) && Ix(Group(thread.priority)) < 32
      ensures group == GroupCleared(wide, old(group), old(table[..]), thread.priority, l)
      ensures table[..] == TableCleared(wide, old(table[..]), thread.priority, l)
    {
      IxApart(thread.priority, thread.number);
      MasksSelect(wide, thread);
      if l != [] {
        return;
      }
      hide MasksOk, AndNot, AndNot8, Mask, Mask8, Group, Slot, Ix;
      if wide {
        var b := AndNot8(table[Ix(thread.number)], thread.highMask);
        table[Ix(thread.number)] := b;
        if b == ZERO8 {
          group := AndNot(group, thread.numberMask);
        }
      } else {
        group := AndNot(group, thread.numberMask);
      }
    }

    /** A ready thread is put into the list of its priority. */
    method Link(t: Tid, thread: Thread)
      requires QueuesBut(Some(t)) && t in threads && threads[t] == thread && thread.stat.Ready?
      modifies this`group, lists, table
      ensures QueuesBut(None)
      ensures var i := Ix(thread.priority);
              lists[..] == old(lists[..])[i := Joining(old(lists[..])[i], t, thread.yielded)]
    {
      ghost var ls := lists[..];
      var i := Ix(thread.priority);
      ghost var l := Joining(ls[i], t, thread.yielded);
      JoinListed(threads, ls, t, thread.yielded);
      assert wide || Below32(thread.priority);
      InsertBits(wide, group, table[..], ls, thread.priority, l);
      hide BitsOk, ListedBut, AllMasksOk, MasksOk, Ix, GroupSet, TableSet;
      if thread.yielded {
        lists[i] := lists[i] + [t];
      } else {
        lists[i] := [t] + lists[i];
      }
      assert lists[..] == ls[i := l];
      SetBits(thread);
    }

    /** rt_schedule_remove_thread; a thread that is in no list is not missed. */
    method RemoveThread(t: Tid)
      requires QueuesBut(None) && t in threads
      modifies this`group, lists, table
      ensures QueuesBut(Some(t))
      ensures var i := Ix(threads[t].priority); lists[..] == old(lists[..])[i := Remove(old(lists[..])[i], t)]
    {
      ghost var ls := lists[..];
      var thread := threads[t];
      var i := Ix(thread.priority);
      LeaveListed(threads, ls, t);
      assert wide || Below32(thread.priority);
      RemoveBits(wide, group, table[..], ls, thread.priority, Remove(ls[i], t));
      hide BitsOk, ListedBut, AllMasksOk, MasksOk, Ix, GroupCleared, TableCleared, Remove;
      lists[i] := Remove(lists[i], t);
      assert lists[..] == ls[i := Remove(ls[i], t)];
      ClearBits(thread, lists[i]);
    }

    /** Thread t leaves the ready queue for good: it has stat afterwards. */
    method Leave(t: Tid, stat: Stat)
      requires QueuesBut(None) && t in threads && !stat.Ready?
      modifies this`group, this`threads, lists, table
      ensures QueuesBut(None)
      ensures threads == old(threads)[t := old(threads[t]).(stat := stat)]
      ensures var i := Ix(old(threads[t]).priority); lists[..] == old(lists[..])[i := Remove(old(lists[..])[i], t)]
    {
      RemoveThread(t);
      var thread := threads[t].(stat := stat);
      OutChanges(threads, lists[..], t, thread);
      StatKeeps(wide, threads[t], stat, threads[t].yielded);
      MasksKeep(wide, threads, t, thread);
      threads := threads[t := thread];
    }

    /** The current thread goes on: it is in no list, and taking it out again changes nothing. */
    method Stay()
      requires Valid() && threads[current].stat.Running?
      modifies this`group, this`threads, lists, table
      ensures Valid() && lists[..] == old(lists[..])
      ensures threads == Kept(old(threads), current)
    {
      hide BitsOk, MasksOk, Ix;
      NotListed(threads, lists[..], current);
      ClearYield();
      Leave(current, Running);
    }

    /** The current thread is put back into the ready queue and gives way to another. */
    method Preempt(toThread: Tid)
      requires Valid() && threads[current].stat.Running?
      requires toThread in threads && threads[toThread].stat.Ready?
      modifies this`group, this`threads, this`current, this`currentPriority, lists, table
      ensures Valid() && current == toThread != old(current) && currentPriority == threads[current].priority
      ensures threads == Preempted(old(threads), old(current), toThread)
      ensures lists[..] == PutBack(old(lists[..]), old(current), Ix(old(threads[current]).priority), toThread,
                                   Ix(old(threads[toThread]).priority))
    {
      hide QueuesBut, Ix, Remove;
      ClearYield();
      currentPriority := threads[toThread].priority;
      var fromThread := current;
      current := toThread;
      InsertThread(fromThread);
      Leave(toThread, Running);
    }

    /** Another thread takes over from a current thread that waits. */
    method Pick(toThread: Tid)
      requires Valid() && !threads[current].stat.Running?
      requires toThread in threads && threads[toThread].stat.Ready?
      modifies this`group, this`threads, this`current, this`currentPriority, lists, table
      ensures Valid() && current == toThread != old(current) && currentPriority == threads[current].priority
      ensures threads == Picked(old(threads), toThread)
      ensures var j := Ix(old(threads[toThread]).priority);
                  lists[..]
                  == old(lists[..])[j := Remove(old(lists[..])[j], toThread)]
    {
      hide BitsOk, MasksOk, Ix;
      currentPriority := threads[toThread].priority;
      current := toThread;
      Leave(toThread, Running);
    }

    /** rt_schedule on a uniprocessor. */
    method Schedule()
      requires Valid()
      modifies this`group, this`threads, this`current, this`currentPriority, lists, table
      ensures Valid()
      ensures lockNest > 0 || NoReady(old(threads)) ==>
                threads == old(threads) && current == old(current) && lists[..] == old(lists[..])
      ensures lockNest == 0 && !NoReady(old(threads)) ==>
                && threads[current].stat.Running?
                && NoneOutranks(threads, threads[current].priority)
                && Switched(old(threads), threads, old(current), current, old(lists[..]), lists[..])
      ensures currentPriority == if current == old(current) then old(currentPriority) else threads[current].priority
    {
      if lockNest > 0 {
        return;
      }
      CurrentNotReady();
      hide Valid, QueuesBut, Switched, NoneOutranks, NoReady, Ix, Kept, Preempted, Picked, PutBack;
      if group == ZERO {
        return;
      }
      var toThread, highest := HighestPriorityThread();
      ghost var ts, ls, from := threads, lists[..], current;
      if threads[current].stat.Running? {
        if Ix(threads[current].priority) < Ix(highest)
           || (Ix(threads[current].priority) == Ix(highest) && !threads[current].yielded) {
          StaysOn(ts, ls, from, highest);
          Stay();
        } else {
          GivesWay(ts, ls, from, highest);
          Preempt(toThread);
        }
      } else {
        TakesOver(ts, ls, from, highest);
        Pick(toThread);
      }
    }

    lemma CurrentNotReady()
      requires Valid()
      ensures QueuesBut(None) && current in threads && !threads[current].stat.Ready?
      ensures group == ZERO ==> NoReady(threads)
    {
      if group == ZERO {
        NothingReady(wide, threads, table[..], lists[..]);
      }
    }

    /** _scheduler_get_highest_priority_thread: the head of the first list that is not empty. */
    method HighestPriorityThread() returns (t: Tid, highest: Byte)
      requires QueuesBut(None) && group != ZERO
      ensures IsHighest(threads, lists[..], highest) && t == lists[..][Ix(highest)][0]
    {
      hide Listed, ListedBut, BitsOk, AllMasksOk, Ix, Below32;
      HighestIs(wide, group, table[..], lists[..]);
      highest := HighestPriority(wide, group, table[..]);
      FoundReady(threads, lists[..], highest);
      t := lists[Ix(highest)][0];
    }

    /** rt_system_scheduler_init, with one thread already running and the others not started. */
    constructor (wide: bool, threads: Threads, current: Tid)
      requires current in threads && AllMasksOk(wide, threads)
      requires forall t {:trigger threads[t]} :: t in threads ==>
                 threads[t].stat == if t == current then Running else Init
      ensures Valid() && lists.Length == 256 && table.Length == 32 && fresh(lists) && fresh(table)
      ensures this.wide == wide && this.threads == threads && this.current == current && lockNest == 0
    {
      this.wide, this.threads, this.current := wide, threads, current;
      currentPriority, lockNest, group := threads[current].priority, 0, ZERO;
      lists := new seq<Tid>[256](i => []);
      table := new Byte[32](i => ZERO8);
      new;
      EmptyBits(wide, table[..], lists[..]);
    }

    /** rt_thread_suspend */
    method Suspend(t: Tid) returns (ok: bool)
      requires Valid() && t in threads
      modifies this`group, this`threads, lists, table
      ensures Valid() && (ok <==> old(threads[t]).stat.Ready? || old(threads[t]).stat.Running?)
      ensures !ok ==> threads == old(threads) && lists[..] == old(lists[..])
      ensures ok ==> threads == old(threads)[t := old(threads[t]).(stat := Suspended)]
      ensures ok ==> var i := Ix(old(threads[t]).priority);
                  lists[..]
                  == old(lists[..])[i := Remove(old(lists[..])[i], t)]
    {
      if threads[t].stat != Ready && threads[t].stat != Running {
        return false;
      }
      hide QueuesBut;
      Leave(t, Suspended);
      ok := true;
    }

    /** rt_thread_resume; the thread has left the list it waited in. */
    method Resume(t: Tid) returns (ok: bool)
      requires Valid() && t in threads
      modifies this`group, this`threads, lists, table
      ensures Valid() && (ok <==> old(threads[t]).stat.Suspended?)
      ensures !ok ==> threads == old(threads) && lists[..] == old(lists[..])
      ensures ok ==> threads == old(threads)[t := old(threads[t]).(stat := if t == current then Running else Ready)]
      ensures ok && t == current ==> lists[..] == old(lists[..])
      ensures ok && t != current ==> lists[..] == JoinedBy(old(lists[..]), t, old(threads[t]))
    {
      if threads[t].stat != Suspended {
        return false;
      }
      OutAlready(threads, lists[..], t);
      assert QueuesBut(Some(t));
      hide QueuesBut;
      InsertThread(t);
      ok := true;
    }

    /** rt_thread_control with RT_THREAD_CTRL_CHANGE_PRIORITY: a ready thread moves to its new list. */
    method ChangePriority(t: Tid, p: Byte)
      requires Valid() && t in threads && (wide || Below32(p))
      modifies this`group, this`threads, lists, table
      ensures Valid()
      ensures threads == old(threads)[t := WithPriority(wide, old(threads[t]), p)]
      ensures threads[t].priority == p && threads[t].stat == old(threads[t]).stat
      ensures !old(threads[t]).stat.Ready? ==> lists[..] == old(lists[..])
      ensures old(threads[t]).stat.Ready? ==>
                var i, j := Ix(old(threads[t]).priority), Ix(p);
                var l := old(lists[..])[i := Remove(old(lists[..])[i], t)];
                lists[..] == l[j := if old(threads[t]).yielded then l[j] + [t] else [t] + l[j]]
    {
      hide QueuesBut;
      var ready := threads[t].stat == Ready;
      if ready {
        RemoveThread(t);
        NewMasks(t, p);
        InsertThread(t);
      } else {
        AlreadyOut(t);
        NewMasks(t, p);
        StillOut(t);
      }
    }

    lemma AlreadyOut(t: Tid)
      requires QueuesBut(None) && t in threads && !threads[t].stat.Ready?
      ensures QueuesBut(Some(t))
    {
      OutAlready(threads, lists[..], t);
    }

    lemma StillOut(t: Tid)
      requires QueuesBut(Some(t)) && t in threads && !threads[t].stat.Ready?
      ensures QueuesBut(None)
    {
      OutAlready(threads, lists[..], t);
    }

    /** The priority of a thread that is in no list, and its masks. */
    method NewMasks(t: Tid, p: Byte)
      requires QueuesBut(Some(t)) && t in threads && (wide || Below32(p))
      modifies this`threads
      ensures QueuesBut(Some(t)) && threads == old(threads)[t := WithPriority(wide, old(threads[t]), p)]
    {
      var thread := WithPriority(wide, threads[t], p);
      assert MasksOk(wide, thread);
      MasksKeep(wide, threads, t, thread);
      OutChanges(threads, lists[..], t, thread);
      threads := threads[t := thread];
    }

    /** rt_thread_startup */
    method Startup(t: Tid)
      requires Valid() && t in threads && threads[t].stat.Init? && t != current
      requires (wide || Below32(threads[t].priority))
      modifies this`group, this`threads, this`current, this`currentPriority, lists, table
      ensures Valid()
      ensures lockNest == 0 ==> threads[current].stat.Running? && NoneOutranks(threads, threads[current].priority)
      ensures var thread := WithPriority(wide, old(threads[t]), old(threads[t]).priority).(stat := Ready);
              var ready, queued := old(threads)[t := thread], JoinedBy(old(lists[..]), t, thread);
              if lockNest == 0 then Switched(ready, threads, old(current), current, queued, lists[..])
              else threads == ready && current == old(current) && lists[..] == queued
    {
      hide QueuesBut, NoneOutranks, NoReady, Switched;
      ghost var ts, ls, thread := threads, lists[..],
      WithPriority(wide, threads[t], threads[t].priority).(stat := Ready);
      ChangePriority(t, threads[t].priority);
      SetSuspended(t);
      var ok := Resume(t);
      assert threads == ts[t := thread] && lists[..] == JoinedBy(ls, t, thread);
      SomeReady(threads, t);
      Schedule();
    }

    /** A thread that is not in the ready queue is marked as suspended. */
    method SetSuspended(t: Tid)
      requires Valid() && t in threads && threads[t].stat.Init?
      modifies this`threads
      ensures Valid() && threads == old(threads)[t := old(threads[t]).(stat := Suspended)]
    {
      var thread := threads[t].(stat := Suspended);
      OutAlready(threads, lists[..], t);
      OutChanges(threads, lists[..], t, thread);
      StatKeeps(wide, threads[t], Suspended, thread.yielded);
      MasksKeep(wide, threads, t, thread);
      threads := threads[t := thread];
    }

    /** rt_thread_yield */
    method Yield()
      requires Valid()
      modifies this`group, this`threads, this`current, this`currentPriority, lists, table
      ensures Valid()
      ensures var marked := old(threads)[old(current) := old(threads[current]).(yielded := true)];
              if lockNest == 0 && !NoReady(old(threads)) then Switched(marked, threads, old(current), current,
                                                                       old(lists[..]), lists[..])
              else threads == marked && current == old(current) && lists[..] == old(lists[..])
      ensures lockNest == 0 && !NoReady(old(threads)) ==>
                && threads[current].stat.Running? && NoneOutranks(threads, threads[current].priority)
      ensures lockNest == 0 && !NoReady(old(threads)) && old(threads[current]).stat.Running? ==>
                (current == old(current) <==> AllBelow(old(threads), old(current)))
    {
      ghost var ts, c := threads, current;
      var thread := threads[current].(yielded := true);
      OutAlready(threads, lists[..], current);
      OutChanges(threads, lists[..], current, thread);
      StatKeeps(wide, threads[current], thread.stat, true);
      MasksKeep(wide, threads, current, thread);
      threads := threads[current := thread];
      YieldedOutcome(ts, c);
      hide QueuesBut, Ix, AllBelow, NoneOutranks, NoReady;
      Schedule();
    }

    /** rt_enter_critical */
    method EnterCritical()
      requires Valid()
      modifies this`lockNest
      ensures Valid() && lockNest == old(lockNest) + 1
    {
      lockNest := lockNest + 1;
    }

    /** rt_exit_critical: leaving the outermost section catches up on a switch that was held back. */
    method ExitCritical()
      requires Valid()
      modifies this`group, this`threads, this`current, this`currentPriority, this`lockNest, lists, table
      ensures Valid() && lockNest == if old(lockNest) <= 1 then 0 else old(lockNest) - 1
      ensures old(lockNest) > 1 || NoReady(old(threads)) ==>
                threads == old(threads) && current == old(current) && lists[..] == old(lists[..])
      ensures old(lockNest) <= 1 && !NoReady(old(threads)) ==>
                && threads[current].stat.Running? && NoneOutranks(threads, threads[current].priority)
                && Switched(old(threads), threads, old(current), current, old(lists[..]), lists[..])
    {
      if lockNest > 1 {
        lockNest := lockNest - 1;
      } else {
        lockNest := 0;
        hide QueuesBut, NoReady, NoneOutranks;
        Schedule();
      }
    }

    /** The yield flag of the current thread is taken back. */
    method ClearYield()
      requires QueuesBut(None) && current in threads && !threads[current].stat.Ready?
      modifies this`threads
      ensures QueuesBut(None) && QueuesBut(Some(current))
      ensures threads == old(threads)[current := old(threads[current]).(yielded := false)]
    {
      var thread := threads[current].(yielded := false);
      OutAlready(threads, lists[..], current);
      OutChanges(threads, lists[..], current, thread);
      StatKeeps(wide, threads[current], thread.stat, false);
      MasksKeep(wide, threads, current, thread);
      threads := threads[current := thread];
    }
  }

  lemma EmptyBits(wide: bool, table: seq<Byte>, lists: seq<seq<Tid>>)
    requires |table| == 32 && |lists| == 256
    requires forall g {:trigger table[g]} :: 0 <= g < 32 ==> table[g] == ZERO8
    requires forall i {:trigger lists[i]} :: 0 <= i < 256 ==> lists[i] == []
    ensures BitsOk(wide, ZERO, table, lists)
  {
    forall p: Byte {:trigger BitOk(wide, ZERO, table, lists, p)} ensures BitOk(wide, ZERO, table, lists, p) {
      ZeroBits(p);
      ZeroBits(Group(p));
      ZeroBits(Slot(p));
      hide Bit, Bit8, Group, Slot, Ix;
    }
  }

  lemma SomeReady(threads: Threads, t: Tid)
    requires t in threads && threads[t].stat.Ready?
    ensures !NoReady(threads)
  {
  }

  /** A thread that has just yielded goes on exactly when all ready threads are strictly below it. */
  lemma YieldedOutcome(threads: Threads, t: Tid)
    requires t in threads
    ensures var threads' := threads[t := threads[t].(yielded := true)];
            && (NoReady(threads') <==> NoReady(threads))
            && (threads[t].stat.Running? ==> (KeepsRunning(threads', t) <==> AllBelow(threads, t)))
  {
    var threads' := threads[t := threads[t].(yielded := true)];
    hide Ix;
    assert forall x {:trigger threads[x]} {:trigger threads'[x]} :: x in threads' && x != t ==>
             threads'[x] == threads[x];
    if threads[t].stat.Running? && KeepsRunning(threads', t) {
      forall x {:trigger threads[x]} | x in threads && threads[x].stat.Ready?
        ensures Ix(threads[x].priority) > Ix(threads[t].priority)
      {
        assert threads'[x] == threads[x];
      }
    }
    if threads[t].stat.Running? && AllBelow(threads, t) {
      forall x {:trigger threads'[x]} | x in threads' && threads'[x].stat.Ready?
        ensures Ix(threads'[x].priority) > Ix(threads'[t].priority)
      {
        assert threads'[x] == threads[x];
      }
    }
  }

  /** All ready threads are strictly below t. */
  ghost predicate AllBelow(threads: Threads, t: Tid)
    requires t in threads
  {
    forall x {:trigger threads[x]} :: x in threads && threads[x].stat.Ready? ==>
      Ix(threads[x].priority) > Ix(threads[t].priority)
  }

  function Kept(threads: Threads, from: Tid): Threads
    requires from in threads
  {
    threads[from := threads[from].(yielded := false)]
  }

  function Picked(threads: Threads, to: Tid): Threads
    requires to in threads
  {
    threads[to := threads[to].(stat := Running)]
  }

  function Preempted(threads: Threads, from: Tid, to: Tid): Threads
    requires from in threads && to in threads
  {
    Picked(threads[from := threads[from].(yielded := false, stat := Ready)], to)
  }

  ghost predicate NoReady(threads: Threads) {
    forall t {:trigger threads[t]} :: t in threads ==> !threads[t].stat.Ready?
  }

  /** No ready thread has a strictly higher priority, that is a lower number, than p. */
  ghost predicate NoneOutranks(threads: Threads, p: Byte) {
    forall t {:trigger threads[t]} :: t in threads && threads[t].stat.Ready? ==> Ix(p) <= Ix(threads[t].priority)
  }

  /** The running thread goes on when every ready thread is below it, or at its level and it did not yield. */
  ghost predicate KeepsRunning(threads: Threads, t: Tid)
    requires t in threads
  {
    && threads[t].stat.Running?
    && NoneOutranks(threads, threads[t].priority)
    && (threads[t].yielded ==>
          forall x {:trigger threads[x]} :: x in threads && threads[x].stat.Ready? ==>
            Ix(threads[x].priority) != Ix(threads[t].priority))
  }

  /** What one call of the scheduler does; from goes to the front of its list although it may have yielded. */
  ghost predicate Switched(threads: Threads, threads': Threads, from: Tid, to: Tid, lists: seq<seq<Tid>>,
                           lists': seq<seq<Tid>>)
    requires from in threads && |lists| == 256
  {
    if KeepsRunning(threads, from) then
      && to == from && lists' == lists
      && threads' == Kept(threads, from)
    else
      && to in threads && to != from && threads[to].stat.Ready? && NoneOutranks(threads, threads[to].priority)
      && lists[Ix(threads[to].priority)] != [] && to == lists[Ix(threads[to].priority)][0]
      && (threads[from].stat.Running? ==>
            && threads' == Preempted(threads, from, to)
            && lists' == PutBack(lists, from, Ix(threads[from].priority), to, Ix(threads[to].priority)))
      && (!threads[from].stat.Running? ==>
            && threads' == Picked(threads, to)
            && lists' == lists[Ix(threads[to].priority) := Remove(lists[Ix(threads[to].priority)], to)])
  }

  /** The lists after t joined the list of its priority. */
  function JoinedBy(lists: seq<seq<Tid>>, t: Tid, thread: Thread): seq<seq<Tid>>
    requires |lists| == 256
  {
    var i := Ix(thread.priority);
    lists[i := Joining(lists[i], t, thread.yielded)]
  }

  function PutBack(lists: seq<seq<Tid>>, from: Tid, i: nat, to: Tid, j: nat): seq<seq<Tid>>
    requires |lists| == 256 && i < 256 && j < 256
  {
    var l := lists[i := [from] + lists[i]];
    l[j := Remove(l[j], to)]
  }

  lemma NothingReady(wide: bool, threads: Threads, table: seq<Byte>, lists: seq<seq<Tid>>)
    requires Listed(threads, lists) && BitsOk(wide, ZERO, table, lists)
    ensures NoReady(threads)
  {
    forall t | t in threads ensures !threads[t].stat.Ready? {
      NoBits(wide, table, lists, threads[t].priority);
      assert t !in lists[Ix(threads[t].priority)];
    }
  }

  lemma NotListed(threads: Threads, lists: seq<seq<Tid>>, t: Tid)
    requires Listed(threads, lists) && t in threads && !threads[t].stat.Ready?
    ensures var i := Ix(threads[t].priority); t !in lists[i] && lists[i := Remove(lists[i], t)] == lists
  {
  }

  /** p is the highest priority of a ready thread. */
  ghost predicate IsHighest(threads: Threads, lists: seq<seq<Tid>>, p: Byte) {
    && |lists| == 256 && lists[Ix(p)] != [] && NoneOutranks(threads, p)
    && var to := lists[Ix(p)][0];
       to in threads && threads[to].stat.Ready? && threads[to].priority == p
  }

  lemma FoundReady(threads: Threads, lists: seq<seq<Tid>>, p: Byte)
    requires Listed(threads, lists) && lists[Ix(p)] != [] && forall q: Byte {:trigger Ix(q)} :: Ix(q) < Ix(p) ==>
               lists[Ix(q)] == []
    ensures IsHighest(threads, lists, p)
  {
    var to := lists[Ix(p)][0];
    assert to in lists[Ix(p)];
    IxApart(p, threads[to].priority);
    forall t | t in threads && threads[t].stat.Ready? ensures Ix(p) <= Ix(threads[t].priority) {
      assert t in lists[Ix(threads[t].priority)];
    }
  }

  lemma StaysOn(threads: Threads, lists: seq<seq<Tid>>, from: Tid, p: Byte)
    requires IsHighest(threads, lists, p) && from in threads && threads[from].stat.Running?
    requires Ix(threads[from].priority) < Ix(p) || (Ix(threads[from].priority) == Ix(p) && !threads[from].yielded)
    ensures !NoReady(threads)
    ensures var threads' := Kept(threads, from);
            Switched(threads, threads', from, from, lists, lists) && NoneOutranks(threads', threads'[from].priority)
    ensures Kept(threads, from)[from].stat.Running?
  {
    hide Ix;
    assert lists[Ix(p)][0] in threads;
  }

  lemma GivesWay(threads: Threads, lists: seq<seq<Tid>>, from: Tid, p: Byte)
    requires IsHighest(threads, lists, p) && from in threads && threads[from].stat.Running?
    requires !(Ix(threads[from].priority) < Ix(p) || (Ix(threads[from].priority) == Ix(p) && !threads[from].yielded))
    ensures !NoReady(threads)
    ensures var to := lists[Ix(p)][0];
            && to in threads && threads[to].stat.Ready? && threads[to].priority == p
            && var threads' := Preempted(threads, from, to);
               && Switched(threads, threads', from, to, lists,
                           PutBack(lists, from, Ix(threads[from].priority), to, Ix(p)))
               && threads'[to].stat.Running? && NoneOutranks(threads', threads'[to].priority)
  {
    hide Ix, PutBack;
    assert threads[lists[Ix(p)][0]].priority == p;
  }

  lemma TakesOver(threads: Threads, lists: seq<seq<Tid>>, from: Tid, p: Byte)
    requires IsHighest(threads, lists, p) && from in threads && !threads[from].stat.Running?
    requires !threads[from].stat.Ready?
    ensures !NoReady(threads)
    ensures var to := lists[Ix(p)][0];
            && to in threads && threads[to].stat.Ready? && threads[to].priority == p
            && var threads' := Picked(threads, to);
               && Switched(threads, threads', from, to, lists, lists[Ix(p) := Remove(lists[Ix(p)], to)])
               && threads'[to].stat.Running? && NoneOutranks(threads', threads'[to].priority)
  {
    hide Ix, Remove;
    assert threads[lists[Ix(p)][0]].priority == p;
  }
}
