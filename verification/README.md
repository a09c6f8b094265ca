# The RT-Thread kernel core: a model and its proofs

This project models the core of the RT-Thread 5.0 kernel for one processor, as vendored under `rt-thread/`, together
with the integer path of the printf package under `packages/`: mutexes with priority inheritance, message queues,
mailboxes, semaphores, events and memory pools; the ready queue and its bitmaps; the timer skip list; the three heaps
(`mem.c`, `memheap.c`, `slab.c`); the intrusive list they all rest on. `dafny verify dfyconfig.toml` checks all of it.

Code that changes things in place is modelled by classes with the same fields and the same branches. Each method is
proved to take the fields to the value that a function of the old state gives, and the laws are proved about those
functions and about the invariants that all methods keep. Where the kernel turns interrupts off, one method stands for
one such region, and any thread may take the next step. Copies made with interrupts on are steps of their own.

| group | files |
|---|---|
| intrusive lists | `Lists`, `RingList` |
| priority inheritance | `MutexModel` (states and laws), `MutexSteps`, `MutexDrop`, `MutexOutcome` (what calls leave), `MutexReady` (with the ready queue), `MutexKernel` (the code) |
| waiting without lost wakeups | `Waiting`, `WaitLists` |
| message queue | `MessageQueue` (nodes and messages), `QueueSteps` (what steps do and deliver), `BlockingQueue` (with threads that wait) |
| other objects that threads wait for | `Mailbox`, `MemPool`, `Semaphore`, `EventBits`, `Events` |
| ready queue | `FirstBit`, `ReadyQueue` |
| timers | `TimerRows`, `TimerCheck`, `Timers` |
| the tick | `Clock` |
| copying words | `Memory` |
| small-memory heap | `HeapBlocks` (block lists), `HeapLayout` (words of the pool), `SmallMem` (the code) |
| memheap | `MemheapBlocks` (block lists), `MemheapWords` (headers among the words of the pool), `Memheap` (the code) |
| slab | `SlabPages`, `SlabPageList`, `SlabZones`, `SlabModel`, `SlabHeap` |
| printing integers | `PrintText`, `Printer` |

The main results:

- Priority inheritance is exact. After any takes and releases by any threads, each thread runs at the minimum initial
  priority over itself and all threads blocked on it, cycles of waits included (`MutexKernel.Kernel.Run`,
  `MutexModel.InheritedPriorityExact`); the boost along the owners ends (`MutexSteps.BoostProgress`). With the
  scheduler called where the kernel calls it, no ready thread has a higher inherited priority than the running one
  (`MutexKernel.Kernel.RunScheduled`).
- A mutex taken n times needs exactly n releases, and over any run the takes, hand-overs and releases of a thread add up
  to how often it holds a mutex (`MutexOutcome.TakesNeedReleases`, `MutexOutcome.HoldsAddUp`).
- Deleting a waiting thread keeps inherited priorities exact if and only if every thread of a deadlock it was blocked on
  is lent its priority by some other thread as well (`MutexDrop.DropExact`).
- The heaps keep their tilings, free lists, counters and peaks exact, serve a request whenever their search rule says
  so, let no header or other bookkeeping touch a live payload, and undo an allocation by the matching free. The strict
  size test of `memheap.c` turns away a request that would fit in one case only (`MemheapBlocks.StrictTestRefuses`).
- Messages are received once each, in order, however sends and receives are interleaved, half-finished ones included
  (`BlockingQueue.Blocking.Run`); whatever others do in between, a send links its own message and a receive delivers the
  one it unlinked (`QueueSteps.SendCompletes`, `QueueSteps.ReceiveDelivers`); and no sleeper of a queue, mailbox or pool is left behind with work to do.
- Whatever callbacks start and stop, and across the wrap of the tick, the expiry check runs the due timers in expiry
  order without those that a callback has named before their turn, and leaves each timer as its run and the last start or
  stop of it say (`Timers.TimerList.Check`). All due timers run if and only if none is named by the callback of a due
  timer in front of it (`TimerCheck.AllRun`).
- After a call of the scheduler with the lock at 0, no ready thread outranks the running one, and the bitmaps agree with
  the lists, for 32 and for 256 priorities.
- Printing an integer and reading it back gives the number exactly when its digits and sign fit the digit buffer.

Where code and documentation disagree, the model follows the code:

- `rt_schedule` clears the yield flag (`rt-thread/src/scheduler.c:458`) before it puts the thread back (line 472), so a
  thread that yields goes to the front of its list and not to the back. Time slices therefore serve two threads of a
  priority and, while nothing else happens, never a third (`Clock.SystemClock.RunTicks`).
- `rt_mp_alloc` puts a waiting thread in front of the others (`rt-thread/src/mempool.c:354`), so the latest sleeper is
  the first to be woken.
- Deleting a thread that waits for a mutex (`rt-thread/src/ipc.c:897-936`) lowers no thread on a cycle of waits, so
  threads of a deadlock may stay above everything that waits for them: `MutexDrop.DropInDeadlockInexact` is such a state
  and `MutexDrop.DropExact` the exact condition.
- `rt_event_send` gives up at the first receiver that gave neither AND nor OR (`rt-thread/src/ipc.c:1745`) and does not
  look at those behind it; `Events.SendOverlooks` says exactly when a satisfied receiver sleeps on.
- `rt_memheap_alloc` compares with the available size strictly (`rt-thread/src/memheap.c:200`).
- Rounding up the three largest sizes wraps to 0 (`rt-thread/src/mem.c:304`): `Memory.AlignedIs` is the exact condition,
  and the heaps' contracts say what such a request gets.

Sizes in the heaps are counted in 32-bit words, after the rounding that the code does on bytes.

## Model

| member | source | states |
|---|---|---|
| MutexModel.InheritedPriorityExact | rt-thread/src/ipc.c:713-788 | In every state that takes and releases keep, a thread's current priority is the minimum of the initial priorities of the thread itself and of all threads blocked on it through any number of owners, even when the waits form a cycle |
| MutexModel.InheritedPriorityUnique | rt-thread/src/ipc.c:713-788 | That minimum depends on the wait graph and the initial priorities alone |
| MutexModel.AcyclicIsGood | rt-thread/src/ipc.c:730-788 | When the waits form no cycle, the local equations (sorted queues, cached head priority, minimum over the taken mutexes) already force every priority to be inherited exactly |
| MutexModel.AcyclicSupported | rt-thread/src/ipc.c:730-746 | Without a cycle every current priority is lent by some thread blocked on its owner |
| MutexModel.OwnerAtMostWaiter | rt-thread/src/ipc.c:730-788 | No owner runs below a thread that waits for it |
| MutexSteps.QueuedInOrder | rt-thread/src/ipc.c:137-162 | Queueing by priority keeps the wait list sorted and adds exactly the new waiter |
| MutexSteps.RequeuedHead | rt-thread/src/ipc.c:768-775 | How the cached priority of a mutex moves when one of its waiters is re-queued with another priority, for raises and for drops |
| MutexSteps.RequeuedOwner | rt-thread/src/ipc.c:768-785 | A raise to p leaves the owner's recomputed priority alone or makes it exactly p; a drop can only lower an owner that ran at the old priority |
| MutexSteps.BoostProgress | rt-thread/src/ipc.c:781-785 | Each recursive call of the boost leaves strictly fewer threads for the next one to reach: the boost ends even when the waits form a cycle |
| MutexSteps.LoweredOffCycle | rt-thread/src/ipc.c:748-788 | A thread whose recomputed priority is less urgent than the one it runs at is on no cycle of waits |
| MutexSteps.EnqueuedCurrents | rt-thread/src/ipc.c:1183-1204 | Queueing a waiter can put out only the owner's priority equation, by exactly the waiter's priority, and the code's test on the cached priority is right to skip the boost |
| MutexSteps.EnqueuedSupported | rt-thread/src/ipc.c:1197-1204 | After a waiter is queued and the owners up the chain are raised, every priority is still lent by a thread that is blocked |
| MutexSteps.GrabbedGood | rt-thread/src/ipc.c:1149-1165 | Taking a free mutex keeps every inherited priority exact |
| MutexSteps.RecursiveTakeGood | rt-thread/src/ipc.c:1133-1139 | Taking a mutex again keeps the invariant |
| MutexSteps.RecursiveReleaseGood | rt-thread/src/ipc.c:1365-1367 | Giving back one of several holds keeps the invariant |
| MutexSteps.ReleaserPriority | rt-thread/src/ipc.c:1373-1385 | When release skips the recomputation, the recomputed priority would have been the same |
| MutexSteps.NewOwnerKeepsPriority | rt-thread/src/ipc.c:1402-1424 | The first waiter becomes the owner without a change of priority, as the waiters left behind are no more urgent |
| MutexSteps.ReleasedGood | rt-thread/src/ipc.c:1365-1434 | Giving a mutex up, recomputing the releaser and handing over to the first waiter keeps the whole invariant |
| MutexDrop.DroppedCurrents | rt-thread/src/ipc.c:902-934 | Dropping a waiter can put out only the owner's equation, and only if the owner ran at the waiter's priority, which is the test the code makes |
| MutexDrop.DropKeepsAcyclic | rt-thread/src/ipc.c:897-936 | Dropping a waiter creates no cycle of waits |
| MutexDrop.DropExact | rt-thread/src/ipc.c:897-936 | From any state with exact priorities, dropping a waiter leaves every inherited priority exact if and only if each thread on a cycle of waits that the waiter was blocked on is lent its priority by some other thread as well |
| MutexDrop.GoodIfCyclesLent | rt-thread/src/ipc.c:730-788 | When all local equations hold, the threads on cycles of waits alone decide whether every priority is exact |
| MutexDrop.DropInDeadlockInexact | rt-thread/src/ipc.c:897-936 | A state in which that condition fails: after the drop two threads of a deadlock keep a priority that nobody lends, although every local equation holds |
| MutexOutcome.TakesNeedReleases | rt-thread/src/ipc.c:1130-1165 | After n takes of a free mutex by its taker it is held exactly n times, is still owned after fewer than n releases, and after n of them every thread and mutex is as before |
| MutexOutcome.HoldsAddUp | rt-thread/src/ipc.c:1130-1434 | Over any run of takes and releases, how often a thread holds a mutex is what it held before, plus its successful takes and hand-overs to it, minus its releases |
| MutexOutcome.ReleasedIsGivenUp | rt-thread/src/ipc.c:1365-1434 | Giving a mutex up hands it to its first waiter, who holds it once, waits for nothing and is resumed; without a waiter it is free |
| MutexOutcome.EnqueuedIsBlocked | rt-thread/src/ipc.c:1183-1204 | A thread that goes to sleep on a mutex changes no owner, no hold count and no other queue; whoever became more urgent has its priority |
| MutexKernel.Kernel.constructor | rt-thread/src/ipc.c:834-841 | Started threads at their initial priorities with free mutexes satisfy the invariant, over a ready queue that knows them |
| MutexKernel.Kernel.ListSuspend | rt-thread/src/ipc.c:137-162 | The search loop puts the thread behind every waiter that is at least as urgent and changes nothing else |
| MutexKernel.Kernel.MutexUpdatePriority | rt-thread/src/ipc.c:713-728 | The cached priority becomes that of the head waiter, or 0xff when there is none |
| MutexKernel.Kernel.GetMutexPriority | rt-thread/src/ipc.c:730-746 | The loop computes the minimum of the initial priority and the cached priorities of the taken mutexes |
| MutexKernel.Kernel.UpdatePriority | rt-thread/src/ipc.c:748-788 | The recursion ends and re-establishes all queues and all priority equations; a raise changes only threads up the chain of owners, each to exactly the new priority; a drop makes no thread more urgent, changes only threads up the chain, and none on a cycle of waits |
| MutexKernel.Kernel.TakeMutex | rt-thread/src/ipc.c:1105-1205 | Every branch of take up to the caller falling asleep, for any time limit, field by field: a free mutex is owned and held once, the owner holds it once more up to 255 times, else the caller is refused or queued; the invariant is kept and the ready queue follows the boost |
| MutexKernel.Kernel.TakeWait | rt-thread/src/ipc.c:1183-1204 | The blocking branch: the caller is queued, the chain of owners is raised, the invariant is kept |
| MutexKernel.Kernel.ReleaseMutex | rt-thread/src/ipc.c:1353-1434 | Only the owner releases; one hold less, or the next owner holds it once; field by field; the invariant is kept and the ready queue follows |
| MutexKernel.Kernel.LeaveTaken | rt-thread/src/ipc.c:1369-1385 | The mutex leaves the taken list and the releaser runs at the minimum its other mutexes lend it, whether or not it was recomputed |
| MutexKernel.Kernel.HandOver | rt-thread/src/ipc.c:1388-1433 | The first waiter becomes the owner with hold 1 and the cached priority is that of the next waiter |
| MutexKernel.Kernel.DropThread | rt-thread/src/ipc.c:897-936 | After a waiting thread is dropped all local equations hold, only threads up its chain of owners change and none becomes more urgent; every inherited priority is exact if and only if the deadlocked threads it was blocked on are still lent theirs, in particular without a cycle of waits |
| MutexKernel.Kernel.Run | rt-thread/src/ipc.c:1105-1444 | Any calls of take and release by any threads in any order each do what such a call does, and in the end every thread runs at exactly its inherited priority |
| MutexKernel.Kernel.RunScheduled | rt-thread/src/ipc.c:1105-1444 | Any takes, releases and yields of whichever thread is running each do what they should, with the scheduler called where the kernel calls it; then no ready thread has a higher inherited priority than the running one, and bitmaps and ready lists agree |
| MutexKernel.Kernel.Perform | rt-thread/src/ipc.c:1105-1444 | One act of the running thread does to threads and mutexes what the call does, and the thread goes on unless it fell asleep, gave a mutex up or yielded |
| MutexKernel.Kernel.RunningIsHighest | rt-thread/src/scheduler.c:423-545 | With exact priorities the most urgent list of the ready queue is that of the highest inherited priority |
| MutexKernel.Kernel.SetPriority | rt-thread/src/thread.c:770-808 | A boosted or lowered thread that is ready moves to its new list with the bitmaps, and the mutexes and the ready queue see the same priority |
| MutexKernel.Kernel.SuspendThread | rt-thread/src/thread.c:875-909 | The waiting thread leaves its ready list and is suspended in both views |
| MutexKernel.Kernel.ResumeOwner | rt-thread/src/ipc.c:1401-1409 | The new owner is no longer waiting, holds the mutex and is back in the ready queue |
| MutexReady.SwitchMatches | rt-thread/src/scheduler.c:449-545 | Switching threads changes no priority and suspends and resumes nobody, so the mutexes and the ready queue stay in step |
| HeapBlocks.AllocSound | rt-thread/src/mem.c:323-375 | Serving a request keeps the tiling without free neighbours, serves at least the request and at most one remainder more, and adds the served block's words to the used ones |
| HeapBlocks.AllocMembers | rt-thread/src/mem.c:323-375 | An allocation adds exactly one live block and leaves all others where they are |
| HeapBlocks.FreeSound | rt-thread/src/mem.c:543-558 | A free keeps the tiling without free neighbours and subtracts exactly the freed block's words |
| HeapBlocks.FreeAtMerges | rt-thread/src/mem.c:125-163 | Merging forward and then backward turns the freed block and its free neighbours into one free block |
| HeapBlocks.FreeMembers | rt-thread/src/mem.c:543-558 | A free removes exactly one live block |
| HeapBlocks.AllocThenFree | rt-thread/src/mem.c:317-404 | Freeing a block at once after its allocation restores the whole block list, split or not |
| HeapBlocks.ShrinkSound | rt-thread/src/mem.c:468-496 | Shrinking in place keeps the tiling without free neighbours |
| HeapBlocks.ShrinkMembers | rt-thread/src/mem.c:468-496 | A shrink in place changes exactly the one live block |
| HeapBlocks.FreeAllLeavesOne | rt-thread/src/mem.c:516-559 | Freeing all live blocks, in any order, leaves one free block over the whole heap |
| SmallMem.Heap.constructor | rt-thread/src/mem.c:178-242 | A new heap is one free block and nothing is used |
| SmallMem.Heap.Search | rt-thread/src/mem.c:317-324 | The search finds the lowest free block that fits, and fails only when none does |
| SmallMem.Heap.Carve | rt-thread/src/mem.c:326-377 | The words of the pool after a block is split or taken whole lay out the new block list, with exact counters |
| SmallMem.Heap.Alloc | rt-thread/src/mem.c:279-408 | Null exactly for size 0 or when no free block has room for the bytes asked for and for 12; otherwise the lowest block that has, rounded up by less than 4 bytes, or by what cannot stand alone; the three largest sizes wrap and count as 0 bytes; invariant, peak and every live payload are kept |
| SmallMem.AllocBytes | rt-thread/src/mem.c:304-366 | The block served holds the bytes asked for; it is larger only by rounding to words, or by a remainder too small for a header and 12 bytes |
| SmallMem.Heap.PlugHolesAt | rt-thread/src/mem.c:125-163 | Both halves of plug_holes refine the merge of the block list, keep the lowest-free pointer and touch no live payload |
| SmallMem.Heap.Free | rt-thread/src/mem.c:516-559 | The freed block is merged with its free neighbours, used falls by its length, every other live payload is untouched; null is ignored |
| SmallMem.Heap.Shrink | rt-thread/src/mem.c:468-496 | The kept words and all other payloads survive while the tail joins what is free behind |
| SmallMem.Heap.Move | rt-thread/src/mem.c:498-506 | Null exactly when no block fits, and then nothing has changed; otherwise the contents arrive up to the shorter length and all other payloads survive |
| SmallMem.Heap.Realloc | rt-thread/src/mem.c:422-507 | Every branch of realloc: a failure changes nothing and a block is freed only for size 0 and for the three largest sizes, which wrap to 0; a success is a live block with room for the bytes asked for and with the first min(old, new) bytes; outcome, block list and peak are exact, other live payloads untouched |
| SmallMem.Heap.ReallocLive | rt-thread/src/mem.c:457-507 | The branches for a live block and a size that is not 0: stay, shrink, move or fail, with the exact peak |
| Memory.AlignedIs | rt-thread/src/mem.c:304 | Rounding a 32-bit size up to words has room for it if and only if it is at most 0xFFFFFFFC; for the three sizes above, the sum wraps and nothing is left |
| Memory.CopyWords | rt-thread/src/mem.c:502 | A copy between two stretches that do not overlap moves every word and changes nothing outside its target |
| RingList.InsertRing | rt-thread/include/rtservice.h:58-80 | The four link writes of an insertion put the node at its place in the ring with matching back links |
| RingList.RemoveRing | rt-thread/include/rtservice.h:86-92 | Joining past a node yields the ring without it |
| RingList.Links.InsertAfter | rt-thread/include/rtservice.h:58-65 | The node comes right behind the given one and the order of the others is kept |
| RingList.Links.InsertBefore | rt-thread/include/rtservice.h:73-80 | The node comes right in front of the given one; in front of the head that is the end of the list |
| RingList.Links.RemoveNode | rt-thread/include/rtservice.h:86-92 | The list loses exactly this node, which becomes an empty list of its own |
| RingList.Links.IsEmpty | rt-thread/include/rtservice.h:98-101 | The test on one link tells whether the list has no node |
| RingList.Links.Len | rt-thread/include/rtservice.h:107-118 | The walk counts each node once |
| MemheapBlocks.TakeTiled | rt-thread/src/memheap.c:235-292 | An allocation keeps the tiling, the least block size and no free neighbours, and takes from the available size what it hands out, with a header when it splits |
| MemheapBlocks.FreeTiled | rt-thread/src/memheap.c:645-688 | A free keeps the tiling, the least block size and no free neighbours |
| MemheapBlocks.FreeSizesFreed | rt-thread/src/memheap.c:645-688 | A free adds the block and one header for each merge to the available size |
| MemheapBlocks.ResizeTiled | rt-thread/src/memheap.c:413-485 | Growing and shrinking in place keep the tiling and change the available size by the difference, and by a header when the rest stands alone |
| MemheapBlocks.ResizeMembers | rt-thread/src/memheap.c:413-485 | A change of size in place changes exactly the one live block |
| MemheapBlocks.TakenListed | rt-thread/src/memheap.c:267-306 | The free list again holds exactly the free blocks after an allocation |
| MemheapBlocks.FreedListed | rt-thread/src/memheap.c:651-713 | The free list again holds exactly the free blocks after a free, whichever neighbours were merged |
| MemheapBlocks.ResizedListed | rt-thread/src/memheap.c:437-477 | The free list again holds exactly the free blocks after a change of size in place |
| MemheapBlocks.LeftThenRight | rt-thread/src/memheap.c:650-688 | Merging to the left first gives the same block list as mem.c, which merges to the right first |
| MemheapBlocks.JoinThenCut | rt-thread/src/memheap.c:444-468 | Growing, which joins the neighbour and cuts the union, comes to resizing the block |
| MemheapBlocks.CutThenJoin | rt-thread/src/memheap.c:521-566 | Shrinking, which cuts the block and joins the rest with its neighbour, comes to resizing the block |
| MemheapBlocks.TakeThenFree | rt-thread/src/memheap.c:235-307 | Freeing a block at once after its allocation restores the block list |
| MemheapBlocks.StrictTestRefuses | rt-thread/src/memheap.c:200 | The strict comparison with the available size turns away a request that some block could serve exactly when the heap has one free block and it has exactly the requested size |
| MemheapBlocks.StrictTestRefusesOne | rt-thread/src/memheap.c:200 | A pool whose only free block has exactly the requested size: the request is turned away |
| MemheapBlocks.HeadersMissPayloads | rt-thread/src/memheap.c:235-307 | No header lies within the payload of another block: two blocks of one list are in order of address |
| MemheapWords.HeadsKeepWords | rt-thread/src/memheap.c:183-724 | An operation that writes nothing but headers of the old and the new block list keeps every word of every live payload, as far as the block is live before and after |
| MemheapWords.PayloadFree | rt-thread/src/memheap.c:183-724 | A payload word of a block belongs to no header, neither of another block nor of the tail item or the free list |
| MemheapWords.Words.SetNext | rt-thread/src/memheap.c:263-265 | Writing a link changes the word of that header in the pool and nothing that any other header says |
| MemheapWords.Words.Create | rt-thread/src/memheap.c:251-255 | A header comes to stand in words that were payload: its links are what those words say until they are written, and all other headers keep theirs |
| MemheapWords.Words.CopyPayload | rt-thread/src/memheap.c:498 | Copying payload moves every word and spoils no header |
| Memheap.MemHeap.constructor | rt-thread/src/memheap.c:74-150 | A new pool is one free block and the tail item, in both rings, with exact counters |
| Memheap.MemHeap.Search | rt-thread/src/memheap.c:217-231 | The walk finds the first entry of the free list that is large enough, and fails only when no free block is |
| Memheap.MemHeap.Alloc | rt-thread/src/memheap.c:183-346 | Null exactly when the strict test refuses or no free block has room for the bytes asked for and for 12, and then nothing changes; otherwise block list, free list and peak after the first listed block that fits was taken, which holds the bytes unless the size is one of the three largest, which wrap; headers and payloads share one array of words and every live payload is kept |
| Memheap.TakenBytes | rt-thread/src/memheap.c:193-341 | The block served holds the bytes asked for; it is larger only by rounding to words, or by a remainder too small for a header of 28 bytes and 12 more |
| Memheap.MemHeap.Free | rt-thread/src/memheap.c:597-724 | Both rings and the counter after every combination of merges; every other live payload is kept; null is ignored |
| Memheap.MemHeap.RemoveNext | rt-thread/src/memheap.c:41-49 | The item leaves both rings, which stay rings |
| Memheap.MemHeap.Grow | rt-thread/src/memheap.c:413-485 | Growing into the free neighbour refines resizing in both rings, keeps every payload and gives the exact peak |
| Memheap.MemHeap.Shrink | rt-thread/src/memheap.c:521-587 | Shrinking refines resizing in both rings and keeps the words that remain and every other payload |
| Memheap.MemHeap.MoveBorder | rt-thread/src/memheap.c:437-475 | Moving the border between a live block and the free one behind it refines resizing in both rings, even where the new header overlaps the old one |
| Memheap.MemHeap.TakeOverNext | rt-thread/src/memheap.c:547-566 | The rest of a shrunk item takes over a free item behind it in both rings, and the counter follows |
| Memheap.MemHeap.Move | rt-thread/src/memheap.c:494-502 | Null exactly when the allocation fails, and then nothing has changed; otherwise the words arrive, every other live payload survives all header writes of the allocation and the free, and the peak counts both blocks |
| Memheap.MemHeap.Relocate | rt-thread/src/memheap.c:496-500 | Copying the words to the new block and freeing the old one keeps every other live payload |
| Memheap.MemHeap.Realloc | rt-thread/src/memheap.c:361-588 | Every branch of realloc: stay, shrink, grow, move or fail; a failure changes nothing; a success is a live block with room for the bytes asked for and with the first min(old, new) bytes, where the three largest sizes wrap and count as 0; other payloads untouched; the exact peak of each branch |
| Memheap.MemHeap.Resize | rt-thread/src/memheap.c:375-587 | The branches for a live block: in place when the neighbour has room or the size shrinks, else moved or failed |
| MessageQueue.FirstInFirstOut | rt-thread/src/ipc.c:2995-3462 | Over any history without urgent messages, what was linked is what was unlinked followed by what is queued, in this order |
| MessageQueue.ExactlyOnce | rt-thread/src/ipc.c:2995-3462 | With urgent messages too, every message linked is unlinked once or still queued |
| MessageQueue.SendLinkInv | rt-thread/src/ipc.c:3112-3136 | Linking a node at the end keeps the full invariant and appends its message |
| MessageQueue.UrgentLinkInv | rt-thread/src/ipc.c:3245-3265 | Linking a node in front keeps the full invariant and prepends its message |
| MessageQueue.RecvEndInv | rt-thread/src/ipc.c:3435-3439 | Giving a drained node back keeps the full invariant |
| MessageQueue.SendBeginInv | rt-thread/src/ipc.c:3095-3105 | Reserving the first free node keeps the full invariant |
| MessageQueue.SendCopyInv | rt-thread/src/ipc.c:3107-3110 | Filling the reserved node keeps every queued message and every other task |
| MessageQueue.RecvBeginInv | rt-thread/src/ipc.c:3414-3430 | Unlinking the head keeps the full invariant and hands its message to this receiver |
| MessageQueue.RecvCopyInv | rt-thread/src/ipc.c:3432-3433 | The node still holds the message it was unlinked with |
| MessageQueue.ClearedInv | rt-thread/src/ipc.c:3499-3517 | After the loop of the reset the queue is empty while half-finished operations of other threads are intact |
| MessageQueue.Queue.constructor | rt-thread/src/ipc.c:2759-2777 | All nodes are on the free list, each once |
| MessageQueue.Queue.SendBegin | rt-thread/src/ipc.c:3014-3105 | Too long, full or a node reserved: full exactly when queued messages and operations under way use up all nodes |
| MessageQueue.Queue.SendCopy | rt-thread/src/ipc.c:3107-3110 | The copy fills the thread's own node and disturbs no queued message and no other thread's node |
| MessageQueue.Queue.SendLink | rt-thread/src/ipc.c:3112-3136 | The message becomes the last one; the entry counter cannot overflow |
| MessageQueue.Queue.UrgentLink | rt-thread/src/ipc.c:3245-3265 | The message becomes the first one |
| MessageQueue.Queue.RecvBegin | rt-thread/src/ipc.c:3414-3430 | The head message is unlinked for this receiver, or the queue was empty |
| MessageQueue.Queue.RecvCopy | rt-thread/src/ipc.c:3432-3433 | The receiver gets the bytes of the message it unlinked, as many as it asked for but not more than a message has, whatever ran in between |
| MessageQueue.Queue.RecvEnd | rt-thread/src/ipc.c:3435-3439 | The node returns to the free list and no message changes |
| MessageQueue.Queue.Reset | rt-thread/src/ipc.c:3480-3525 | Every queued node is freed, half-finished sends and receives go on undisturbed |
| WaitLists.Sleepers.SenderSleeps | rt-thread/src/ipc.c:2284-2303 | A sender takes its place among the sleepers and nobody oversleeps |
| WaitLists.Sleepers.WakeSender | rt-thread/src/ipc.c:193-206 | Waking the first sender is enough for one more place: no wakeup is lost |
| WaitLists.Sleepers.WakeReceiver | rt-thread/src/ipc.c:193-206 | Waking the first receiver is enough for one more message: no wakeup is lost |
| WaitLists.Sleepers.Expire | rt-thread/src/thread.c:127-156 | A sleeper whose time is up leaves its list with an error and takes no wakeup with it |
| WaitLists.Sleepers.ResumeAll | rt-thread/src/ipc.c:222-250 | Both lists are empty and every sleeper is resumed with an error |
| WaitLists.Sleepers.RestsOnlyWithoutWork | rt-thread/src/ipc.c:193-206 | When no resumed thread is still to look again, whatever timeouts and errors there were, senders sleep only without room and receivers only without a message |
| BlockingQueue.Blocking.constructor | rt-thread/src/ipc.c:2732-2783 | A new queue is empty with all nodes free and nobody asleep |
| BlockingQueue.Blocking.SendRegion | rt-thread/src/ipc.c:3014-3105 | Too long, a node reserved, refused or asleep, each in exactly its case; a woken sender looks again; no wakeup is lost |
| BlockingQueue.Blocking.UrgentRegion | rt-thread/src/ipc.c:3218-3240 | The same without waiting |
| BlockingQueue.Blocking.LinkRegion | rt-thread/src/ipc.c:3112-3155 | The message is linked at its end of the queue and recorded as linked, and the first sleeping receiver resumed; no wakeup is lost |
| BlockingQueue.Blocking.RecvRegion | rt-thread/src/ipc.c:3339-3430 | The head message is unlinked and recorded as received by this thread, or the receiver sleeps or is refused on an empty queue; no wakeup is lost |
| BlockingQueue.Blocking.FreeRegion | rt-thread/src/ipc.c:3435-3462 | The node is free again, the record is as before and the first sleeping sender resumed; no wakeup is lost |
| BlockingQueue.Blocking.Reset | rt-thread/src/ipc.c:3489-3525 | No message is left, every sleeper is resumed with an error and operations under way go on |
| BlockingQueue.Blocking.RestsOnlyWithoutWork | rt-thread/src/ipc.c:2995-3462 | When no resumed thread is still to look again, senders sleep only while all nodes are queued or in use and receivers only before an empty queue |
| BlockingQueue.Blocking.Run | rt-thread/src/ipc.c:2995-3525 | Any regions, copies and timeouts of any threads in any order each do what they should; the log is that of exactly these links, receives and resets; without a reset nothing was lost or doubled, and without urgent messages nothing overtaken |
| BlockingQueue.Blocking.Take | rt-thread/src/ipc.c:2995-3525 | What each region, copy or timeout does to nodes, messages, log, sleepers and threads; nothing when its thread is not at the point for it |
| QueueSteps.LogIs | rt-thread/src/ipc.c:2995-3525 | The log of a run is that of exactly its links, successful receives and resets |
| QueueSteps.SendCompletes | rt-thread/src/ipc.c:3014-3136 | Whatever other threads do in between, a send that got a node links its own message when it comes to that |
| QueueSteps.ReceiveDelivers | rt-thread/src/ipc.c:3414-3433 | Whatever other threads do in between, a receive delivers the message it unlinked, cut to the size asked for |
| QueueSteps.OtherSteps | rt-thread/src/ipc.c:2995-3525 | No step of another thread, resets included, matters to what a thread is in the middle of |
| TimerRows.WrappedOrder | rt-thread/src/timer.c:464-471 | The comparison of wrapped 32-bit ticks tells true order exactly within the half range |
| TimerRows.InsertAscending | rt-thread/src/timer.c:447-485 | Insertion behind equal expiries keeps the row sorted and adds exactly the timer |
| TimerRows.InsertStands | rt-thread/src/timer.c:447-485 | The timer stands behind all that expire no later and in front of all that expire later, and the others stay in order |
| TimerRows.InsertSubsequence | rt-thread/src/timer.c:484-496 | Inserting into both rows or only the lower one keeps the upper row a subsequence of the lower |
| TimerRows.RemoveSubsequence | rt-thread/src/timer.c:188-196 | Removing a timer from all rows keeps every row a subsequence of the one below |
| TimerRows.HeightIs | rt-thread/src/timer.c:477-496 | A timer gets into the jth row above the lowest exactly at every 2 to the jth, or 4 to the jth, count of starts |
| TimerCheck.AllRun | rt-thread/src/timer.c:629-696 | All due timers run if and only if none of them is named by the callback of a due timer in front of it |
| TimerCheck.RunsUnlessNamed | rt-thread/src/timer.c:629-696 | A due timer runs in its turn if and only if no callback that ran before has started or stopped it |
| TimerCheck.StoppedInTime | rt-thread/src/timer.c:645-667 | Two due timers of which only the first runs, since its callback stops the second |
| TimerCheck.RunsOutcome | rt-thread/src/timer.c:645-687 | The outcome of a check for every timer: a timer that callbacks have named is pending at now plus its period if the last operation on it was a start, and not pending if it was a stop; any other timer is restarted or switched off if it ran, and as it was if not |
| TimerCheck.RunsFail | rt-thread/src/timer.c:541-542 | Stops that fail leave no trace: a timer that was not pending and is never started stays as it was |
| TimerCheck.RunOutcome | rt-thread/src/timer.c:645-687 | One round: what the run of one timer does to it and to any other, own starts and stops by its callback included |
| TimerCheck.FireStep | rt-thread/src/timer.c:645-667 | Taking the due head off advances through the timers that were due at the beginning: the head is the next of them that no callback has named |
| TimerCheck.OpStep | rt-thread/src/timer.c:667 | A start or stop made by a callback takes the timer it names, and nothing else, out of what is due |
| TimerCheck.LogStep | rt-thread/src/timer.c:645-667 | The timer taken off is the next one in the run order, and the state after its callback is that after one more run |
| TimerCheck.PutBackStep | rt-thread/src/timer.c:675-687 | Restarting the timer that ran at now plus its period adds nothing to what is due |
| Timers.TimerList.RemoveTimer | rt-thread/src/timer.c:188-196 | The timer leaves every row and the local list; rows stay sorted and nested |
| Timers.TimerList.FindPlaces | rt-thread/src/timer.c:447-475 | The search on wrapped ticks ends in every row behind exactly the timers that expire no later |
| Timers.TimerList.InsertTimer | rt-thread/src/timer.c:481-496 | The timer gets into exactly as many rows as the zeros of the start counter say; the bottom row is the sorted insertion and the rows stay nested |
| Timers.TimerList.StartTimer | rt-thread/src/timer.c:407-523 | Starting refines sorted insertion of the timer, removed from wherever it was, at now plus its period, behind its equals |
| Timers.TimerList.StopTimer | rt-thread/src/timer.c:533-557 | Fails exactly for a timer that is not active, else removes it everywhere |
| Timers.TimerList.RunCallback | rt-thread/src/timer.c:667 | Any sequence of starts and stops by a callback, its own timer included, in order, one after the other |
| Timers.TimerList.Check | rt-thread/src/timer.c:629-696 | The expiry loop ends; the timers that run are exactly the due ones in expiry order with ties in start order, without those that callbacks have named before their turn; the state they leave is given exactly, and for each timer by what ran and what was done to it last; nothing due is left |
| Timers.TimerList.Advance | rt-thread/src/clock.c:100-105 | After the tick has moved on by one, wrapping, every pending timer is at most one tick overdue |
| Clock.SystemClock.TickIncrease | rt-thread/src/clock.c:91-127 | One tick: the running thread loses a tick of its slice, or yields with a new slice at its end; then exactly the due timers run as the check says; from one tick to the next nothing is overdue |
| Clock.SystemClock.CheckSlice | rt-thread/src/clock.c:107-123 | The countdown of the slice, 32 bits wide, and the scheduler's decision at its end |
| Clock.SystemClock.RunTicks | rt-thread/src/clock.c:91-127 | Over any number of ticks only two of the ready threads at the highest priority take turns, slice by slice; those behind them never run, since a thread that yields comes to the front of its list |
| Clock.TurnsSlice | rt-thread/src/clock.c:107-123 | A thread keeps the processor for exactly what is left of its slice, then the other has its turn |
| Clock.TurnsOfTwo | rt-thread/src/scheduler.c:449-475 | Nobody but the two threads in front ever has a turn |
| Clock.SliceEnds | rt-thread/src/scheduler.c:449-475 | At the end of a slice the first in line takes over and the thread that ran comes to the front of the line |
| FirstBit.LowestBitIs | rt-thread/src/kservice.c:1741-1759 | Each of the 256 table entries is the lowest set bit of its index |
| FirstBit.FfsIsFirst | rt-thread/src/kservice.c:1771-1785 | The table search returns the lowest set bit counted from 1, and 0 for 0 |
| FirstBit.GroupOrder | rt-thread/src/scheduler.c:169-191 | Order of priorities is the order of groups and, within a group, of slots |
| ReadyQueue.InsertBits | rt-thread/src/scheduler.c:774-777 | Setting the bits keeps bitmaps and lists in agreement, with 32 and with 256 priorities |
| ReadyQueue.RemoveBits | rt-thread/src/scheduler.c:860-871 | Clearing the bits only when a list, and then its group, is empty keeps the agreement |
| ReadyQueue.HighestIs | rt-thread/src/scheduler.c:169-191 | The priority read off the bitmaps is that of the first list that is not empty |
| ReadyQueue.FoundReady | rt-thread/src/scheduler.c:169-191 | That list holds the most urgent ready threads of all |
| ReadyQueue.YieldedOutcome | rt-thread/src/scheduler.c:449-475 | A thread that has yielded goes on exactly when all ready threads are strictly below it |
| ReadyQueue.Scheduler.constructor | rt-thread/src/scheduler.c:197-242 | Empty lists and bitmaps agree |
| ReadyQueue.Scheduler.InsertThread | rt-thread/src/scheduler.c:739-782 | The thread joins the front of its list, or the back after a yield; the current thread is only marked as running |
| ReadyQueue.Scheduler.RemoveThread | rt-thread/src/scheduler.c:845-875 | The thread leaves its list and the bitmaps follow; a thread in no list is not missed |
| ReadyQueue.Scheduler.HighestPriorityThread | rt-thread/src/scheduler.c:169-191 | The head of the most urgent list |
| ReadyQueue.Scheduler.Schedule | rt-thread/src/scheduler.c:423-545 | With the lock at 0 the thread that runs afterwards is outranked by no ready thread; who runs, who is put back where and all lists are given exactly |
| ReadyQueue.Scheduler.Suspend | rt-thread/src/thread.c:875-909 | Fails exactly for a thread that is neither ready nor running; else it leaves its list |
| ReadyQueue.Scheduler.Resume | rt-thread/src/thread.c:920-954 | Fails exactly for a thread that is not suspended; else it joins its list |
| ReadyQueue.Scheduler.ChangePriority | rt-thread/src/thread.c:777-808 | A ready thread moves from its old list to its new one, any other keeps its place, and masks and bitmaps agree again |
| ReadyQueue.Scheduler.Startup | rt-thread/src/thread.c:362-391 | The new thread is queued with the masks of its priority and the scheduler decides |
| ReadyQueue.Scheduler.Yield | rt-thread/src/thread.c:572-585 | The scheduler's decision for a yielding thread: it goes on exactly when all ready threads are strictly below it |
| ReadyQueue.Scheduler.EnterCritical | rt-thread/src/scheduler.c:921-936 | One more section is open and nothing else changes |
| ReadyQueue.Scheduler.ExitCritical | rt-thread/src/scheduler.c:985-1010 | Leaving the outermost section makes up for a switch that was held back |
| Waiting.DueStep | rt-thread/src/ipc.c:124-206 | The number of resumed threads yet to run changes by exactly the thread that changed |
| Waiting.NothingLeft | rt-thread/src/ipc.c:124-206 | Once all resumed threads have run, a sleeper means that there is nothing to take |
| Waiting.Place | rt-thread/src/ipc.c:124-171 | A sleeper goes to the end, or behind those at least as urgent as itself |
| Mailbox.PutAtEnd | rt-thread/src/ipc.c:2332-2341 | Writing at the in offset appends to the ring's contents |
| Mailbox.PutAtFront | rt-thread/src/ipc.c:2430-2443 | Stepping the out offset back and writing there prepends |
| Mailbox.TakeFront | rt-thread/src/ipc.c:2587-2598 | Reading at the out offset and stepping on removes the first mail |
| Mailbox.Box.SendRegion | rt-thread/src/ipc.c:2260-2366 | Full, asleep or sent at the end of the queue; the first sleeping receiver is woken and no wakeup is lost |
| Mailbox.Box.Urgent | rt-thread/src/ipc.c:2410-2462 | The mail becomes the first one and the first sleeping receiver is woken, or the box was full |
| Mailbox.Box.RecvRegion | rt-thread/src/ipc.c:2512-2621 | The oldest mail is taken and the first sleeping sender is woken, or the receiver sleeps or fails on an empty box |
| Mailbox.Box.Timeout | rt-thread/src/thread.c:127-156 | A sleeper whose time is up takes nothing and no wakeup is lost |
| Mailbox.Box.Reset | rt-thread/src/ipc.c:2639-2671 | The box is empty and every sleeper is woken with an error |
| Mailbox.Box.RestsOnlyWithoutWork | rt-thread/src/ipc.c:2237-2621 | When no resumed thread is still to look again, senders sleep only before a full box and receivers only before an empty one |
| MemPool.TakeHead | rt-thread/src/mempool.c:388-398 | Following the link in the first free block keeps the free list and marks the block as handed out |
| MemPool.PutHead | rt-thread/src/mempool.c:432-439 | Writing the link into a block that was handed out puts it in front of the free list, where it was not before |
| MemPool.Pool.constructor | rt-thread/src/mempool.c:89-136 | All blocks are linked in address order |
| MemPool.Pool.AllocRegion | rt-thread/src/mempool.c:319-407 | The first free block, a sleep in front of the waiters, or a refusal; nobody oversleeps |
| MemPool.Pool.Free | rt-thread/src/mempool.c:415-465 | The block is the next to be served and the latest sleeper is woken |
| MemPool.Pool.Fail | rt-thread/src/mempool.c:374-381 | A thread whose time ran out leaves with its error and takes nothing |
| MemPool.Pool.RestsOnlyWithoutBlocks | rt-thread/src/mempool.c:319-465 | When no resumed thread is still to look again, threads sleep only while the pool is exhausted |
| Semaphore.Sem.TakeRegion | rt-thread/src/ipc.c:486-571 | A unit is taken, the caller sleeps or is refused; value plus takes stays initial value plus releases, and whoever sleeps sees value 0 |
| Semaphore.Sem.Release | rt-thread/src/ipc.c:608-656 | A unit goes to the first sleeper as its take, or to the value, or is refused at the limit; the balance is kept |
| Semaphore.Sem.Timeout | rt-thread/src/thread.c:127-156 | A timed-out waiter consumes nothing |
| Semaphore.Sem.Reset | rt-thread/src/ipc.c:674-706 | The balance starts again from the new value cut to 16 bits, and every sleeper is woken with an error |
| EventBits.StillUnsatisfied | rt-thread/src/ipc.c:1715-1764 | Clearing bits satisfies nobody |
| EventBits.SatisfiedIs | rt-thread/src/ipc.c:1844-1855 | Bit by bit: an AND receive is satisfied exactly when every wanted bit is set, an OR receive exactly when some wanted bit is |
| EventBits.ReceivedIs | rt-thread/src/ipc.c:1864-1873 | Bit by bit: what is received is wanted and set, and a bit stays set unless a clearing receive wanted it |
| Events.PassedOver | rt-thread/src/ipc.c:1715-1764 | A receiver passed over stays unsatisfied to the end of the send |
| Events.AfterSendAt | rt-thread/src/ipc.c:1715-1764 | Each receiver gets what a receive that does not wait would give it when its turn comes, with the bits that earlier receivers left |
| Events.SendAnswers | rt-thread/src/ipc.c:1715-1764 | Each receiver the send comes to is awake afterwards exactly when the bits it found met its condition, and has its bits |
| Events.UnservedAre | rt-thread/src/ipc.c:1715-1764 | The receivers still waiting are exactly those not served, once each |
| Events.SendKeeps | rt-thread/src/ipc.c:1686-1775 | After a send, wherever it stopped, the list of waiters holds exactly the sleepers, and who still sleeps is as before |
| Events.SendOverlooks | rt-thread/src/ipc.c:1686-1775 | After a send nobody sleeps whose condition is satisfied if and only if no receiver behind the place where it stopped is satisfied by what the receivers in front left |
| Events.SendOverlooksOne | rt-thread/src/ipc.c:1739-1746 | A receiver without a flag in front of a satisfied one: the send stops and the satisfied one sleeps on |
| EventBits.MinusSame | rt-thread/src/ipc.c:1734-1756 | Clearing the requested bits comes to clearing those that were received |
| Events.Event.Send | rt-thread/src/ipc.c:1686-1775 | The bits of both sets, bit by bit, then every waiter in queue order answered as by a receive that does not wait, up to the first that gave neither AND nor OR, where the send fails; the exact condition under which nobody satisfied is left asleep, which always holds while every waiter gave a flag; an empty set is refused |
| Events.Event.ServeOne | rt-thread/src/ipc.c:1718-1763 | One turn: served exactly when every wanted bit, or with OR some, is set; with the bits received and left, bit by bit |
| Events.Event.RecvRegion | rt-thread/src/ipc.c:1811-1931 | Error, received bits and what is left of the set, timeout or sleep at its place, each in exactly its case, for every combination of flags and bit by bit |
| Events.Event.Expire | rt-thread/src/thread.c:127-156 | A receiver whose time is up leaves the set as it is |
| Events.Event.Reset | rt-thread/src/ipc.c:1949-1977 | The set is empty and nobody sleeps |
| SlabPages.NormalForm | rt-thread/src/slab.c:211-294 | Page lists with the same free pages are equal |
| SlabPages.TakeConserves | rt-thread/src/slab.c:220-238 | A request takes n free pages and leaves every other page as it was, in a sorted list of runs with gaps between them |
| SlabPages.TakeComplete | rt-thread/src/slab.c:220-238 | A request fails exactly when no n free pages lie side by side |
| SlabPages.TakenIsLowest | rt-thread/src/slab.c:220-238 | The pages taken are the lowest that lie side by side in that number |
| SlabPages.GiveSorted | rt-thread/src/slab.c:264-293 | Giving pages back keeps the runs sorted, disjoint and separated by gaps |
| SlabPages.GivePage | rt-thread/src/slab.c:264-293 | Exactly the pages given back become free |
| SlabPages.TakeThenGive | rt-thread/src/slab.c:211-294 | Giving back a run just taken restores the list |
| SlabPages.GiveCommutes | rt-thread/src/slab.c:252-294 | The order in which two runs are given back does not matter |
| SlabPageList.PageList.constructor | rt-thread/src/slab.c:299-306 | One run holds all pages |
| SlabPageList.PageList.Find | rt-thread/src/slab.c:220-238 | The walk along the links stops at the first run that is long enough |
| SlabPageList.PageList.Alloc | rt-thread/src/slab.c:211-241 | The linked list in the pages refines taking from the sorted runs |
| SlabPageList.PageList.FindStop | rt-thread/src/slab.c:264-289 | The walk stops at the first run that touches or lies behind the pages given back |
| SlabPageList.PageList.Give | rt-thread/src/slab.c:252-294 | Extending, merging, prepending or inserting in the pages refines giving back to the sorted runs |
| SlabZones.ZoneIndexFits | rt-thread/src/slab.c:408-466 | A chunk holds the request, wastes less than 8 bytes or at most an eighth of the request, and its index is in range |
| SlabZones.ZoneIndexNames | rt-thread/src/slab.c:408-466 | Two requests get the same index exactly when they get the same chunk size |
| SlabZones.RoundingTwice | rt-thread/src/slab.c:408-466 | Rounding a chunk size again changes nothing, so realloc may round before it allocates |
| SlabZones.LiveCount | rt-thread/src/slab.c:545-570 | The live chunks are those not counted as free, and a zone is wholly free exactly when none is live |
| SlabZones.LiveWithin | rt-thread/src/slab.c:558-561 | A live chunk lies inside its zone behind the header and apart from every other |
| SlabZones.TakeChunkOk | rt-thread/src/slab.c:545-570 | A chunk handed out was not live and is now; live, recycled and never-used chunks still make up the zone |
| SlabZones.PutChunkOk | rt-thread/src/slab.c:786-796 | A chunk given back is live no longer; the three kinds still make up the zone |
| SlabZones.NewZoneOk | rt-thread/src/slab.c:621-641 | A new zone has exactly its first chunk live |
| SlabZones.ZoneFilled | rt-thread/src/slab.c:618-641 | A new zone has as many chunks as fit behind its header of 36 bytes, all but the first free |
| SlabZones.ClassRoom | rt-thread/src/slab.c:408-466 | Every class leaves room for at least two chunks in a zone |
| SlabZones.ChunkAligned | rt-thread/src/slab.c:624-637 | Chunks of a power of two up to the page size are aligned to their size |
| SlabModel.LookupZone | rt-thread/src/slab.c:759-783 | The descriptor of a live chunk's page leads to its zone |
| SlabModel.LiveApart | rt-thread/src/slab.c:487-653 | No two live blocks, large or small, overlap |
| SlabModel.LiveClear | rt-thread/src/slab.c:487-853 | No live block overlaps a zone header, a recycled chunk or a free page, which is where the allocator writes |
| SlabModel.TotalSplit | rt-thread/src/slab.c:571-574 | The sum of live bytes does not depend on the order of summation |
| SlabModel.HeadServes | rt-thread/src/slab.c:541-550 | A zone leaves its list exactly when its last free chunk is taken |
| SlabModel.ZoneEnters | rt-thread/src/slab.c:590-645 | A new or unparked zone heads its list |
| SlabModel.ChunkReturns | rt-thread/src/slab.c:796-800 | A zone that was full comes back to its list |
| SlabModel.ZoneParks | rt-thread/src/slab.c:808-828 | A zone without live chunks moves from its list to the parked ones |
| SlabModel.ZoneLeaves | rt-thread/src/slab.c:831-851 | One parked zone too many is given up, leaving two |
| SlabHeap.ZoneSizeFor | rt-thread/src/slab.c:321-380 | A zone size between 32 and 128 KB, about a thousandth of the heap |
| SlabHeap.Slab.constructor | rt-thread/src/slab.c:321-380 | Exactly the pages of the descriptor table are taken |
| SlabHeap.Slab.AllocLarge | rt-thread/src/slab.c:503-526 | A new live block of whole pages, or nothing changed because no pages lie side by side |
| SlabHeap.Slab.AllocSmall | rt-thread/src/slab.c:535-650 | A chunk of the request's class from a zone on its list, a parked or a new zone; null only for lack of the pages of a zone |
| SlabHeap.Slab.AllocFromZone | rt-thread/src/slab.c:541-577 | Exactly one new live chunk, used and peak exact |
| SlabHeap.Slab.AllocFromNewZone | rt-thread/src/slab.c:587-650 | A first chunk in a new or unparked zone, or nothing changed for lack of pages |
| SlabHeap.Slab.Alloc | rt-thread/src/slab.c:487-653 | Null only for size 0 or for lack of pages, with nothing changed. From a quarter of a zone or 16 KB on a request gets whole pages of its own, less than a page too many; below that exactly one chunk, less than 8 bytes or at most an eighth too large; used and peak exact |
| SlabHeap.LimitIs | rt-thread/src/slab.c:363-365 | The limit between chunks and whole pages is a quarter of the zone size, at most 16384 |
| SlabHeap.Slab.FreeLarge | rt-thread/src/slab.c:761-779 | Exactly this block goes and its pages are free |
| SlabHeap.Slab.FreeChunk | rt-thread/src/slab.c:781-852 | Exactly this chunk goes; a zone without live chunks is parked unless it is alone in its class, and its pages are given back when two are parked |
| SlabHeap.Slab.FreeBlock | rt-thread/src/slab.c:736-853 | Exactly the freed block is live no longer and used falls by its size; null is ignored |
| SlabHeap.Slab.Realloc | rt-thread/src/slab.c:667-725 | The same block, bytes untouched, when its class stays; else a new block that is large enough and holds the old bytes up to the shorter length, after which the old one is freed and all other live bytes are as before; null for a size above 0 only when no pages for it lie side by side, and then nothing has changed; the exact peak |
| SlabHeap.Slab.ReallocLive | rt-thread/src/slab.c:688-723 | The branches for a live block and a size that is not 0 |
| SlabHeap.Slab.MoveBlock | rt-thread/src/slab.c:692-698 | Allocate, copy, free: the bytes arrive, the new block stays live and only the old one goes |
| SlabHeap.Slab.MoveBytes | rt-thread/src/slab.c:718 | The copy into a new block reaches no other live block and no header, descriptor or recycled chunk |
| SlabHeap.Slab.Lookup | rt-thread/src/slab.c:759-783 | For any live block the page table tells large from small and leads to its owner and its size |
| PrintText.DigitsValue | packages/rt_vsnprintf_full-latest/rt_vsnprintf.c:495-523 | The digits give the value back exactly when all of them have room |
| PrintText.ReadsAs | packages/rt_vsnprintf_full-latest/rt_vsnprintf.c:428-523 | What any field printed without the alternative form reads as, with padding, sign and lost digits taken into account |
| PrintText.Layout | packages/rt_vsnprintf_full-latest/rt_vsnprintf.c:401-523 | A field without the alternative form is spaces, sign, zeros, digits and spaces, with the zeros and spaces that width, precision and flags ask for, as section 7.21.6.1 of ISO/IEC 9899:2011 lays it out |
| PrintText.HashLayout | packages/rt_vsnprintf_full-latest/rt_vsnprintf.c:454-479 | With # the prefix 0x, 0X, 0b or 0 stands between the sign and the digits |
| PrintText.HashFilled | packages/rt_vsnprintf_full-latest/rt_vsnprintf.c:432-479 | With # and zeros to fill the field, the zeros of a hexadecimal or binary number stand behind its prefix and the field has its width |
| PrintText.OctalFilled | packages/rt_vsnprintf_full-latest/rt_vsnprintf.c:448-451 | Zeros in front of octal digits do for the prefix |
| PrintText.ZeroHash | packages/rt_vsnprintf_full-latest/rt_vsnprintf.c:499-505 | Zero is printed without a prefix |
| PrintText.DigitIs | packages/rt_vsnprintf_full-latest/rt_vsnprintf.c:517 | Capital letters with the upper-case flag, small ones without |
| PrintText.PrintsBack | packages/rt_vsnprintf_full-latest/rt_vsnprintf.c:428-523 | Printing and reading back gives the number exactly when its digits and its sign fit the 32-character buffer |
| PrintText.SixtyFourBits | packages/rt_vsnprintf_full-latest/rt_vsnprintf.c:495-523 | Any 64-bit magnitude survives in bases 8, 10 and 16 for widths up to 32 |
| PrintText.ThirtyTwoDigits | packages/rt_vsnprintf_full-latest/rt_vsnprintf.c:495-523 | In base 2 a value survives exactly when it has at most 32 digits |
| Printer.Gadget.PutChar | packages/rt_vsnprintf_full-latest/rt_vsnprintf.c:314-331 | Every character counts and the ones that fit are kept; nothing behind the limit is written |
| Printer.Gadget.Terminate | packages/rt_vsnprintf_full-latest/rt_vsnprintf.c:334-344 | The terminator follows the text, or replaces its last kept character |
| Printer.Gadget.OutReversed | packages/rt_vsnprintf_full-latest/rt_vsnprintf.c:401-423 | Leading spaces, the buffer from its end, trailing spaces |
| Printer.Gadget.PrintInteger | packages/rt_vsnprintf_full-latest/rt_vsnprintf.c:495-523 | The loops emit exactly the text that the reading lemmas are about |
| Printer.WriteDigits | packages/rt_vsnprintf_full-latest/rt_vsnprintf.c:495-523 | The digit loop writes the lowest 32 digits, lowest first |
| Printer.Finish | packages/rt_vsnprintf_full-latest/rt_vsnprintf.c:428-492 | Padding, prefix and sign as the buffer has room for them |
| Printer.Format | packages/rt_vsnprintf_full-latest/rt_vsnprintf.c:1322-1333 | The length of the untruncated output is returned whatever the size; a buffer of n bytes gets the first min(L, n - 1) characters and a terminator, and nothing behind it is written |

## Left out

- MutexKernel.Kernel.TakeMutex: what follows when a time limit runs out is not modelled; that path reads the owner unchecked (`rt-thread/src/ipc.c:1240`) and leaves the pending object set.
- MutexKernel.Kernel.DropThread: the thread dropped owns no mutex.
- MutexKernel.Kernel.UpdatePriority: `RT_ASSERT` is read as empty, so the chained boost goes on where `rt_thread_suspend` returns early for a thread that is already suspended (`rt-thread/src/thread.c:888`).
- Priority ceilings and the deletion of a mutex: a mutex with a ceiling is not put on the taken list by a free take.
- Threads, mutexes and timers are records in maps and wait lists are sequences; that one list node serves several lists in turn is captured by `RingList` alone, not by aliasing in every class.
- Waiting.Place: the priorities of sleeping threads do not change while they wait for a mailbox, message queue, semaphore or event.
- Remaining time after a wakeup: whether a woken thread may wait again is a parameter of its next region.
- ReadyQueue.Scheduler.Schedule: nothing is promised about the order of ready threads of equal priority over several calls, apart from `Clock.SystemClock.RunTicks`.
- Thread deletion apart from the mutex it waits for, thread exit, stack checks, signals and the context switch itself.
- The tiny variant of `__rt_ffs`, which this configuration does not use, and `rt_malloc_align` with `rt_free_align`.
- Soft timers and `rt_tick_set`; the true time of every pending timer must lie within half the range of the tick, as the code assumes.
- Timers.TimerList.Check: callbacks start and stop timers, at a tick that stands still; a periodic timer has a period of at least 1 and callbacks start no timer of length 0.
- Clock.SystemClock.TickIncrease: callbacks act on timers alone; timeout functions that wake threads are modelled with the objects the threads wait for.
- ReadyQueue.Scheduler.Yield: the new time slice that `rt_thread_yield` gives is left out; slices are counted in `Clock` alone.
- SmallMem.Heap.Realloc: as in the code, a block shrunk in place may become smaller than the least block size.
- Memory traces, hooks, object names, the magic words of `mem.c` and `slab.c`, and the lock semaphore of `memheap.c`.
- Memheap.MemHeap.Alloc: the best-fit mode is left out, since splits and merges do not keep its list sorted.
- Memheap.MemHeap.constructor: pools too small for one least block and the tail item, which the code would corrupt.
- SlabZones.ChunkAligned: alignment above the page size is not promised, because zones are only page-aligned.
- MemPool.Pool.constructor: pools without any block, for which the code writes the last link in front of the pool.
- Events.Event.RecvRegion: the assertion against receives with neither AND nor OR is read as empty, so such a receiver sleeps until its time is up.
- Message and mail sizes of zero, which only an assertion guards.
- Printer.Format: the format string arrives as a sequence of typed pieces; parsing it, argument lists, strings, floating point and output through a function are left out.
- PrintText.PrintsBack: reading back the alternative form with `#` and pointers is left out; digits, padding or precision beyond the 32-character buffer are lost, as the condition says.
- SMP variants, spinlocks, board support, drivers and generated tables.
