/** How the threads of MutexModel and those of the ready queue go together. */
module MutexReady {
  import opened MutexModel
  import opened FirstBit
  import opened Lists
  import ReadyQueue

  /** One thread as the mutexes and as the scheduler see it; lists is the number of priorities. */
  predicate SameThread(x: Thread, r: ReadyQueue.Thread, wide: bool) {
    && Ix(r.priority) == x.current && x.init < (if wide then 256 else 32)
    && (r.stat.Suspended? <==> x.suspended) && !r.stat.Init?
  }

  /** Every thread has the same priority and is suspended in both views; a thread unknown to the mutexes never runs. */
  ghost predicate Matches(threads: map<ThreadId, Thread>, rs: ReadyQueue.Threads, wide: bool) {
    && (forall t {:trigger threads[t]} {:trigger rs[t]} :: t in threads ==>
          t in rs && SameThread(threads[t], rs[t], wide))
    && (forall t {:trigger rs[t]} :: t in rs && !rs[t].stat.Suspended? ==> t in threads)
  }

  /** One thread changes in both views. */
  lemma ChangeMatches(threads: map<ThreadId, Thread>, rs: ReadyQueue.Threads, wide: bool, t: ThreadId, x: Thread,
                      r: ReadyQueue.Thread)
    requires Matches(threads, rs, wide) && t in threads && t in rs && SameThread(x, r, wide)
    ensures Matches(threads[t := x], rs[t := r], wide)
  {
  }

  /** The switch of a thread changes nobody's priority and suspends and resumes nobody. */
  lemma SwitchMatches(threads: map<ThreadId, Thread>, rs: ReadyQueue.Threads, rs': ReadyQueue.Threads, wide: bool,
                      from: ThreadId, to: ThreadId, lists: seq<seq<ThreadId>>, lists': seq<seq<ThreadId>>)
    requires Matches(threads, rs, wide) && from in rs && |lists| == 256
    requires ReadyQueue.Switched(rs, rs', from, to, lists, lists')
    requires !rs[from].stat.Ready?
    ensures Matches(threads, rs', wide)
  {
    forall t | t in threads ensures t in rs' && SameThread(threads[t], rs'[t], wide) {
      assert SameThread(threads[t], rs[t], wide);
    }
  }

  /** The same for a thread that yields, whether or not another is ready. */
  lemma YieldMatches(threads: map<ThreadId, Thread>, rs: ReadyQueue.Threads, rs': ReadyQueue.Threads, wide: bool,
                     from: ThreadId, to: ThreadId, lists: seq<seq<ThreadId>>, lists': seq<seq<ThreadId>>)
    requires Matches(threads, rs, wide) && from in rs && |lists| == 256 && rs[from].stat.Running?
    requires var marked := rs[from := rs[from].(yielded := true)];
             if !ReadyQueue.NoReady(rs) then ReadyQueue.Switched(marked, rs', from, to, lists, lists')
             else rs' == marked
    ensures Matches(threads, rs', wide)
  {
    var marked := rs[from := rs[from].(yielded := true)];
    assert Matches(threads, marked, wide);
    if !ReadyQueue.NoReady(rs) {
      SwitchMatches(threads, marked, rs', wide, from, to, lists, lists');
    }
  }
}
