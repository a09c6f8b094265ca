/** The tick of clock.c: time slices, and the timers that are due. */
module Clock {
  import opened FirstBit
  import opened Lists
  import opened TimerRows
  import opened TimerCheck
  import Timers
  import ReadyQueue

  type Tid = ReadyQueue.Tid

  /** Thread x has the processor at priority p, y is first in line there and rest is behind it. */
  ghost predicate Pair(threads: ReadyQueue.Threads, lists: seq<seq<Tid>>, current: Tid, x: Tid, y: Tid, rest: seq<Tid>,
                       p: Byte)
  {
    && current == x && x in threads && threads[x].stat.Running? && threads[x].priority == p
    && ReadyQueue.NoneOutranks(threads, p)
    && |lists| == 256 && lists[Ix(p)] == [y] + rest
  }

  /** Who has the processor in each of n ticks, when x and y take turns and left is what remains of their slices. */
  function Turns(x: Tid, y: Tid, left: map<Tid, nat>, slices: map<Tid, nat>, n: nat): seq<Tid>
    requires x in left && y in left && x in slices && y in slices
    decreases n
  {
    if n == 0 then []
    else if left[x] == 1 then [x] + Turns(y, x, left[x := slices[x]], slices, n - 1)
    else [x] + Turns(x, y, left[x := TicksLeft(left[x])], slices, n - 1)
  }

  /** remaining_tick is unsigned and 32 bits wide. */
  function TicksLeft(r: nat): (l: nat)
    ensures 0 < r <= WRAP ==> l == r - 1
  {
    (r + WRAP - 1) % WRAP
  }

  lemma TurnsNone(x: Tid, y: Tid, left: map<Tid, nat>, slices: map<Tid, nat>)
    requires x in left && y in left && x in slices && y in slices
    ensures Turns(x, y, left, slices, 0) == []
  {
  }

  lemma TurnsNext(x: Tid, y: Tid, left: map<Tid, nat>, slices: map<Tid, nat>, n: nat)
    requires x in left && y in left && x in slices && y in slices && n > 0
    ensures Turns(x, y, left, slices, n)
            == [x] + if left[x] == 1 then Turns(y, x, left[x := slices[x]], slices, n - 1)
                     else Turns(x, y, left[x := TicksLeft(left[x])], slices, n - 1)
  {
  }

  /** x keeps the processor for what remains of its slice, then y has its turn. */
  lemma {:induction false} TurnsSlice(x: Tid, y: Tid, left: map<Tid, nat>, slices: map<Tid, nat>, n: nat)
    requires x in left && y in left && x in slices && y in slices && 0 < left[x] <= n && left[x] < WRAP
    ensures Turns(x, y, left, slices, n)
            == seq(left[x], _ => x) + Turns(y, x, left[x := slices[x]], slices, n - left[x])
  {
    hide Turns, TicksLeft;
    TurnsNext(x, y, left, slices, n);
    if left[x] == 1 {
      assert seq(1, _ => x) == [x];
    } else {
      var left' := left[x := left[x] - 1];
      TurnsSlice(x, y, left', slices, n - 1);
      assert left'[x := slices[x]] == left[x := slices[x]];
      assert [x] + seq(left[x] - 1, _ => x) == seq(left[x], _ => x);
    }
  }

  /** Only the two threads in front ever have a turn. */
  lemma {:induction false} TurnsOfTwo(x: Tid, y: Tid, left: map<Tid, nat>, slices: map<Tid, nat>, n: nat)
    requires x in left && y in left && x in slices && y in slices
    ensures |Turns(x, y, left, slices, n)| == n
    ensures forall t :: t in Turns(x, y, left, slices, n) ==> t == x || t == y
    decreases n
  {
    if n > 0 {
      if left[x] == 1 {
        TurnsOfTwo(y, x, left[x := slices[x]], slices, n - 1);
      } else {
        TurnsOfTwo(x, y, left[x := TicksLeft(left[x])], slices, n - 1);
      }
    }
  }

  lemma FirstInLine(threads: ReadyQueue.Threads, lists: seq<seq<Tid>>, x: Tid, y: Tid, rest: seq<Tid>, p: Byte)
    requires ReadyQueue.Listed(threads, lists) && Pair(threads, lists, x, x, y, rest, p)
    ensures x != y && y in threads && threads[y].stat.Ready? && Ix(threads[y].priority) == Ix(p)
    ensures Ix(p) < 256 && NoDuplicates(lists[Ix(p)]) && x !in lists[Ix(p)]
  {
    assert lists[Ix(p)][0] == y && y in lists[Ix(p)];
  }

  /** At the end of x's slice y takes over and x comes to the front of the line, so that it is next. */
  lemma SliceEnds(threads: ReadyQueue.Threads, lists: seq<seq<Tid>>, x: Tid, y: Tid, rest: seq<Tid>, p: Byte,
                  threads': ReadyQueue.Threads, lists': seq<seq<Tid>>, to: Tid)
    requires ReadyQueue.Listed(threads, lists) && Pair(threads, lists, x, x, y, rest, p)
    requires !ReadyQueue.NoReady(threads) ==>
               ReadyQueue.Switched(threads[x := threads[x].(yielded := true)], threads', x, to, lists, lists')
    ensures !ReadyQueue.NoReady(threads)
    ensures Pair(threads', lists', to, y, x, rest, p)
  {
    hide Ix, ReadyQueue.Listed;
    var marked := threads[x := threads[x].(yielded := true)];
    FirstInLine(threads, lists, x, y, rest, p);
    assert marked[y] == threads[y] && !ReadyQueue.KeepsRunning(marked, x);
    assert marked[to] == threads[to] && Ix(threads[to].priority) == Ix(p);
    IxApart(threads[to].priority, p);
    assert to == y;
    LineMoves(lists[Ix(p)], x, y, rest);
    forall t | t in threads' && threads'[t].stat.Ready? ensures Ix(p) <= Ix(threads'[t].priority) {
      assert t == x || threads'[t] == threads[t];
    }
  }

  lemma LineMoves(line: seq<Tid>, x: Tid, y: Tid, rest: seq<Tid>)
    requires line == [y] + rest && NoDuplicates(line) && x != y
    ensures Remove([x] + line, y) == [x] + rest
  {
    RemoveSplits(line, y, 0);
    assert ([x] + line)[1..] == line;
  }

  /** The threads, the ready lists, who has the processor, and what remains of the slices. */
  datatype Line = Line(threads: ReadyQueue.Threads, lists: seq<seq<Tid>>, current: Tid, left: map<Tid, nat>)

  function Yielded(threads: ReadyQueue.Threads, t: Tid): ReadyQueue.Threads
    requires t in threads
  {
    threads[t := threads[t].(yielded := true)]
  }

  /**
   * What a tick does to the thread that had the processor: it goes on as long as its slice lasts; at the end it has a
   * new slice and yields.
   */
  ghost predicate Sliced(a: Line, b: Line, slices: map<Tid, nat>, locked: bool) {
    var t := a.current;
    && t in a.threads && t in a.left && t in slices && |a.lists| == 256
    && if a.left[t] != 1 then b == a.(left := a.left[t := TicksLeft(a.left[t])])
       else if locked || ReadyQueue.NoReady(a.threads)
       then b == a.(threads := Yielded(a.threads, t), left := a.left[t := slices[t]])
       else
         && b.left == a.left[t := slices[t]]
         && ReadyQueue.Switched(Yielded(a.threads, t), b.threads, t, b.current, a.lists, b.lists)
  }

  /** A tick while x and y share the processor. */
  lemma PairStep(a: Line, b: Line, slices: map<Tid, nat>, x: Tid, y: Tid, rest: seq<Tid>, p: Byte)
    requires ReadyQueue.Listed(a.threads, a.lists) && Pair(a.threads, a.lists, a.current, x, y, rest, p)
    requires Sliced(a, b, slices, false)
    ensures if a.left[x] == 1
            then Pair(b.threads, b.lists, b.current, y, x, rest, p) && b.left == a.left[x := slices[x]]
            else Pair(b.threads, b.lists, b.current, x, y, rest, p) && b.left == a.left[x := TicksLeft(a.left[x])]
  {
    hide ReadyQueue.Listed, ReadyQueue.Switched, ReadyQueue.NoReady, ReadyQueue.NoneOutranks, Ix;
    if a.left[x] == 1 {
      SliceEnds(a.threads, a.lists, x, y, rest, p, b.threads, b.lists, b.current);
    }
  }

  /** The two threads are ready or running and not among those behind. */
  lemma PairApart(a: Line, x: Tid, y: Tid, rest: seq<Tid>, p: Byte)
    requires ReadyQueue.Listed(a.threads, a.lists) && Pair(a.threads, a.lists, a.current, x, y, rest, p)
    ensures x in a.threads && y in a.threads && x !in rest && y !in rest
  {
    var line := a.lists[Ix(p)];
    assert line[0] == y && forall i :: 0 <= i < |rest| ==> line[i + 1] == rest[i];
    assert y in line;
    assert forall t :: t in rest ==> t in line;
  }

  lemma SliceRuns(r: nat)
    requires r < WRAP
    ensures TicksLeft(r) < WRAP && (TicksLeft(r) == 0 <==> r == 1)
  {
  }

  lemma SliceKeepsThreads(a: Line, b: Line, slices: map<Tid, nat>, locked: bool)
    requires Sliced(a, b, slices, locked)
    ensures b.threads.Keys == a.threads.Keys
  {
  }

  class SystemClock {
    const timers: Timers.TimerList
    const ready: ReadyQueue.Scheduler
    const slices: map<Tid, nat>           // init_tick
    var remaining: map<Tid, nat>          // remaining_tick

    ghost predicate Valid()
      reads this, timers, timers.rows, ready, ready.lists, ready.table
    {
      timers.Valid() && ready.Valid() && timers.rows != ready.lists && Counted()
    }

    ghost function Here(): Line
      reads this`remaining, ready`threads, ready`current, ready.lists
    {
      Line(ready.threads, ready.lists[..], ready.current, remaining)
    }

    /** Every thread has a slice, and the counters are 32 bits wide. */
    ghost predicate Counted()
      reads this, ready
    {
      && remaining.Keys == slices.Keys == ready.threads.Keys
      && forall t {:trigger remaining[t]} {:trigger slices[t]} :: t in remaining ==>
           remaining[t] < WRAP && slices[t] < WRAP
    }

    constructor (timers: Timers.TimerList, ready: ReadyQueue.Scheduler, slices: map<Tid, nat>)
      requires timers.Valid() && ready.Valid() && timers.rows != ready.lists && slices.Keys == ready.threads.Keys
      requires forall t {:trigger slices[t]} :: t in slices ==> slices[t] < WRAP
      ensures Valid() && this.timers == timers && this.ready == ready && this.slices == slices && remaining == slices
    {
      this.timers, this.ready, this.slices, remaining := timers, ready, slices, slices;
    }

    /** The time slice of the running thread, whose end makes it yield. */
    method CheckSlice()
      requires ready.Valid() && Counted()
      modifies this, ready`group, ready`threads, ready`current, ready`currentPriority, ready.lists, ready.table
      ensures ready.Valid() && Counted()
      ensures Sliced(old(Here()), Here(), slices, ready.lockNest > 0)
    {
      hide ReadyQueue.Switched, ReadyQueue.NoReady, TicksLeft, ReadyQueue.Scheduler.Valid;
      hide ReadyQueue.Scheduler.QueuesBut;
      var thread := ready.current;
      ghost var a := Here();
      SliceRuns(remaining[thread]);
      remaining := remaining[thread := TicksLeft(remaining[thread])];
      if remaining[thread] == 0 {
        remaining := remaining[thread := slices[thread]];
        ready.Yield();
      }
      SliceKeepsThreads(a, Here(), slices, ready.lockNest > 0);
    }

    /** rt_tick_increase */
    method TickIncrease(callbacks: Callbacks) returns (ghost fired: seq<TimerId>)
      requires Valid() && Lively(timers.timers, callbacks)
      modifies this, timers, timers.rows
      modifies ready`group, ready`threads, ready`current, ready`currentPriority, ready.lists, ready.table
      ensures Valid() && Lively(timers.timers, callbacks) && timers.now == old(timers.now) + 1
      ensures timers.tick == Tick(timers.now)
      // the timers: from one tick to the next nothing is overdue
      ensures Checked(old(timers.Now()), timers.Now(), timers.now, callbacks, fired)
      ensures forall t :: t in timers.Bottom() ==> t in timers.expiry && timers.now < timers.expiry[t]
      // the slice of the running thread
      ensures Sliced(old(Here()), Here(), slices, ready.lockNest > 0)
    {
      hide Sliced, Checked, Timers.TimerList.Valid, Timers.TimerList.Between, ReadyQueue.Scheduler.Valid;
      hide ReadyQueue.Scheduler.QueuesBut, Tick, Lively;
      timers.Advance();
      CheckSlice();
      fired := timers.Check(callbacks);
    }

    /**
     * Ticks in a row while x runs, y is first in line at the same priority and no other thread is more urgent. However
     * many there are, only x and y have the processor, slice by slice; the threads behind them stay where they are.
     */
    method RunTicks(n: nat, callbacks: Callbacks, ghost x: Tid, ghost y: Tid, ghost rest: seq<Tid>, ghost p: Byte)
      returns (ghost ran: seq<Tid>)
      requires Valid() && Lively(timers.timers, callbacks) && ready.lockNest == 0
      requires Pair(ready.threads, ready.lists[..], ready.current, x, y, rest, p)
      modifies this, timers, timers.rows
      modifies ready`group, ready`threads, ready`current, ready`currentPriority, ready.lists, ready.table
      ensures Valid() && |ran| == n && timers.now == old(timers.now) + n
      ensures x in old(remaining) && y in old(remaining) && x in slices && y in slices
      ensures ran == Turns(x, y, old(remaining), slices, n)
      ensures forall t :: t in rest ==> t !in ran
      ensures || Pair(ready.threads, ready.lists[..], ready.current, x, y, rest, p)
              || Pair(ready.threads, ready.lists[..], ready.current, y, x, rest, p)
    {
      hide Sliced, Checked, Timers.TimerList.Valid, ReadyQueue.Scheduler.Valid, ReadyQueue.Scheduler.QueuesBut, Pair;
      hide Lively, Turns, ReadyQueue.Listed, Counted;
      ListedHere();
      ghost var left, x', y' := remaining, x, y;
      PairApart(Here(), x, y, rest, p);
      KnownHere(x);
      KnownHere(y);
      TurnsOfTwo(x, y, left, slices, n);
      ran := [];
      assert ran + Turns(x, y, left, slices, n) == Turns(x, y, left, slices, n);
      for i := 0 to n
        invariant Valid() && Lively(timers.timers, callbacks) && ready.lockNest == 0 && |ran| == i
        invariant timers.now == old(timers.now) + i
        invariant (x' == x && y' == y) || (x' == y && y' == x)
        invariant Pair(ready.threads, ready.lists[..], ready.current, x', y', rest, p)
        invariant x' in remaining && y' in remaining && x' in slices && y' in slices
        invariant ran + Turns(x', y', remaining, slices, n - i) == Turns(x, y, left, slices, n)
      {
        ListedHere();
        ghost var a := Here();
        ghost var fired := TickIncrease(callbacks);
        PairStep(a, Here(), slices, x', y', rest, p);
        TurnsNext(x', y', a.left, slices, n - i);
        assert ran + ([x'] + Turns(x', y', a.left, slices, n - i)[1..])
               == ran + [x'] + Turns(x', y', a.left, slices, n - i)[1..];
        ran := ran + [x'];
        if a.left[x'] == 1 {
          x', y' := y', x';
        }
      }
      TurnsNone(x', y', remaining, slices);
    }

    lemma ListedHere()
      requires ready.Valid()
      ensures ReadyQueue.Listed(ready.threads, ready.lists[..])
    {
    }

    lemma KnownHere(t: Tid)
      requires Counted() && t in ready.threads
      ensures t in remaining && t in slices
    {
    }
  }
}
