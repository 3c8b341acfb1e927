# Models of the RT-Thread kernel of IoTGateWay, and of pytz local time

Each module models one part of the repository and proves what it is for. Objects whose functions rewrite
fields are classes with those fields; header records and link fields are maps from addresses to values, and
ghost sequences say which list the links form. Sections that run with interrupts disabled are single methods.

| files | source | what is modelled |
|---|---|---|
| `Arena`, `BlockLayout`, `LayoutChanges`, `MemHeapLinks`, `MemHeap` | `memheap.c` | memory heap: circular block list, free ring, split, merge, in-place growth, real payload bytes |
| `SmallMemLinks`, `SmallMem` | `mem.c` | small-memory heap: offset chain, lowest-free pointer, hole plugging, real payload bytes |
| `TimerOrder`, `TimerCalls`, `FirstPass`, `TimerRounds`, `Timers` | `timer.c` | skip list of timers over a wrapping 32-bit tick, and the firing loop |
| `RtList`, `Chains`, `Waiters`, `WakeOrder` | `rtservice.h`, `ipc.c` | circular and single lists; suspended and resumed threads of one resource, and who is resumed first |
| `MessageProtocol`, `MessageDelivery`, `MessageTurns`, `MessageQueue` | `ipc.c` | message queue as an interleaved step system, what its runs deliver and whom they resume, and the linked object that simulates it |
| `Mailbox`, `MemPool`, `Mutex`, `Event` | `ipc.c`, `mempool.c`, `thread.c` | the other blocking objects |
| `BitTable`, `Scheduler` | `scheduler.c`, `clock.c`, `thread.c`, `kservice.c` | ready queues, one- or two-level bitmap, dispatch, slice expiry |
| `PageRuns`, `PageAlloc`, `SlabZone`, `Slab` | `slab.c` | page allocator, zones, usage table |
| `RingBlocks`, `RingBuffer`, `SerialFifo` | `ringblk_buf.c`, `ringbuffer.c`, `serial.c` | ring structures of the drivers |
| `LocalTime` | `pytz/tzinfo.py` | `fromutc`, `normalize`, `localize` |

Where the code falls short of what one would expect of it, the model follows the code:

- `mem.c` never hands out the last block exactly filled, so not the whole heap, and in a heap below the minimal
  block a failing search does not end (`RefusedIffFillsTheEnd`, `WholeHeapRefused`, `SearchStopsIff`). Shrinking
  by less than a minimal block moves the data and can fail (`SmallHeap.Realloc`).
- `memheap.c` refuses a request that equals the available bytes (`MemHeap.Alloc`).
- A one-shot timer that its own timeout function starts again ends up listed without its active flag
  (`TimerList.Fire`, `SelfRestart`, and exactly when: `LooseIff`), and a periodic timer of no ticks keeps the firing
  loop busy for ever (`NoTicks`, and exactly when: `CheckFor`).
- A mutex with the FIFO flag can leave a more urgent thread waiting for a less urgent new owner
  (`Mutex.Release`, `FifoHandover`).
- A slice that expires without a peer leaves the yield request pending (`Scheduler.Tick`, `PendingYield`).
- `rt_rbb_blk_alloc` does not check the size on an empty list, and a block of no bytes can make
  a later one overlap a block in use (`RingBlockBuffer.Alloc`, `TooLarge`, `EmptyBlockRun`, and exactly when: `EmptyBlockMisleads`).
- `rt_ringbuffer_put_force` can lose everything (`RingBuffer.PutForce`, `LosesAll`).
- `localize` can miss a time between two close transitions (`MissedBetweenTransitions`, and exactly when:
  `CandidatesComplete`), and then answers that it never occurs or occurs once (`StrictLocalize`).

## Model

| member | source | states |
|---|---|---|
| `MemHeaps.MemHeap.constructor` | IoTGateWay/src/memheap.c:50-121 | The pool is one hole between a block list of one entry and the used tailer; everything but the two headers is available. |
| `MemHeaps.MemHeap.FindFree` | IoTGateWay/src/memheap.c:169-181 | The search stops at the first entry of the free list that has room, and finds none exactly when no entry has room. |
| `MemHeaps.MemHeap.Alloc` | IoTGateWay/src/memheap.c:138-281 | Keeps the whole structure: tiling, inverse links, no two neighbouring holes, free list equal to the set of holes, available bytes equal to their sum. Grants the first fitting hole of the free list: a block of exactly the size with a hole behind it if the rest can hold a minimal block, else the whole hole. Fails exactly when nothing has room for the least aligned size, or that is not below the available bytes. No other live payload changes. |
| `MemHeaps.RequestIsLeast` | IoTGateWay/src/memheap.c:148-150 | The size searched for is the least multiple of the alignment that covers the request and the minimal allocation. |
| `MemHeaps.MemHeap.MergeLeft` | IoTGateWay/src/memheap.c:540-557 | A released block joined to the hole before it; accounting and free list stay right in the intermediate state. |
| `MemHeaps.MemHeap.MergeRight` | IoTGateWay/src/memheap.c:559-591 | Joining the hole behind completes the structure: Valid again, and the live blocks are the same. |
| `MemHeaps.MemHeap.Free` | IoTGateWay/src/memheap.c:495-595 | Keeps the whole structure and leaves exactly the other live blocks, contents untouched; a null pointer is ignored. |
| `MemHeaps.MemHeap.Grow` | IoTGateWay/src/memheap.c:333-402 | Growing in place into the next hole leaves one larger live block with the old contents in front and a smaller hole behind it. |
| `MemHeaps.MemHeap.Shrink` | IoTGateWay/src/memheap.c:419-491 | Shrinking cuts off a new hole, merges it with the next one if that is free, and keeps the remaining contents. |
| `MemHeaps.MemHeap.Move` | IoTGateWay/src/memheap.c:405-416 | When growing in place is impossible: allocate, copy, release; a failed allocation leaves the old block as it was. |
| `MemHeaps.MemHeap.Realloc` | IoTGateWay/src/memheap.c:284-492 | Says exactly when the block stays in place, and with which size, when it moves and when the call fails; the first min(old, new) bytes survive in every successful case, a failure changes nothing, all other live payloads are untouched. |
| `LayoutChanges.FreeUndoesGrant` | IoTGateWay/src/memheap.c:138-595 | In either heap, a release directly after a grant restores the layout exactly, whatever was split and merged. |
| `MemHeaps.AllFreed` | IoTGateWay/src/memheap.c:495-595 | When no block is live the pool is one hole again, in whatever order the blocks came back. |
| `BlockLayout.LayoutCanonical` | IoTGateWay/src/memheap.c:540-591 | The live blocks alone determine a layout without neighbouring holes. |
| `LayoutChanges.CarveFacts` | IoTGateWay/src/memheap.c:187-256 | What cutting a granted block off a hole does to tiling, holes, live blocks and byte counts. |
| `LayoutChanges.JoinFacts` | IoTGateWay/src/memheap.c:540-579 | What joining two neighbouring holes does to tiling, holes, live blocks and byte counts. |
| `LayoutChanges.ShiftFacts` | IoTGateWay/src/memheap.c:333-402 | What moving the boundary between a live block and the hole behind it does to both. |
| `SmallMem.SmallHeap.constructor` | IoTGateWay/src/mem.c:204-257 | One hole and the end marker; nothing is used. |
| `SmallMem.SmallHeap.PlugHoles` | IoTGateWay/src/mem.c:156-194 | Merging a released block with the holes around it leaves no two neighbouring holes, and the lowest-free pointer at the lowest hole even if it pointed at a hole that was merged away. |
| `SmallMem.SmallHeap.FindFree` | IoTGateWay/src/mem.c:305-311 | The search from the lowest free block finds the lowest block that fits below the search bound, and none exactly when there is none. |
| `SmallMem.SmallHeap.Malloc` | IoTGateWay/src/mem.c:272-410 | Keeps tiling, inverse links, no neighbouring holes, lowest-free pointer and used-byte count; returns the lowest taken hole, fails exactly when the request is empty, too large or nothing below the bound fits; no other live payload changes. |
| `SmallMem.RequestIsLeast` | IoTGateWay/src/mem.c:283-297 | The size searched for is the least multiple of the alignment that covers the request and the minimal block. |
| `SmallMem.SmallHeap.Free` | IoTGateWay/src/mem.c:552-615 | Keeps the structure, leaves exactly the other live blocks with their contents; an address outside the heap is ignored. |
| `SmallMem.SmallHeap.Realloc` | IoTGateWay/src/mem.c:421-516 | Says exactly when the block stays, is cut, moves or the call fails, including that a small shrink moves; the common prefix survives, a failure changes nothing. |
| `SmallMem.RefusedIffFillsTheEnd` | IoTGateWay/src/mem.c:305-311 | The strict search bound refuses a large enough hole exactly when it is the last block and the request fills it. |
| `SmallMem.WholeHeapRefused` | IoTGateWay/src/mem.c:305-311 | So the whole of a fresh heap can never be handed out at once. |
| `SmallMem.SearchStopsIff` | IoTGateWay/src/mem.c:291-307 | The search loop reaches its bound if and only if the heap has room for the request; in a heap below the minimal block the 32-bit bound wraps and the search stays at the end marker. |
| `TimerOrder.CompareExact` | IoTGateWay/src/timer.c:368-375 | For instants less than a turn of the 32-bit counter apart, the unsigned comparison orders them correctly exactly in the window from 0x80000001 before to 0x7ffffffe after. |
| `TimerOrder.ExpiredExact` | IoTGateWay/src/timer.c:537-541 | The expiry test is right exactly while the timer is less than half a turn away. |
| `TimerOrder.LinkSorted` | IoTGateWay/src/timer.c:363-375 | Linking the newest timer at the place the search found is insertion behind all that are due no later, and keeps the row ordered by expiry and start. |
| `Timers.TimerList.RowsNest` | IoTGateWay/src/timer.c:351-402 | Every row of the skip list is a subsequence of the row below it. |
| `Timers.TimerList.FindPlaces` | IoTGateWay/src/timer.c:351-379 | Searching down the rows, each from where the row above stopped, finds in every row the cut between timers due no later and later. |
| `Timers.TimerList.LinkTimer` | IoTGateWay/src/timer.c:385-400 | The insert counter decides from which row down the timer is linked. |
| `Timers.TowerIs` | IoTGateWay/src/timer.c:385-400 | A timer is linked into as many rows above the last as the insert counter has factors of four, up to the rows there are. |
| `Timers.TimerList.Start` | IoTGateWay/src/timer.c:305-421 | For any number of rows: the timer is removed and re-inserted exactly where a stable linear insert would put it, in the rows it is tall enough for; all rows stay ordered and nested. |
| `Timers.TimerList.Unlist` | IoTGateWay/src/timer.c:315-331 | The first section with interrupts disabled: the timer leaves every row, and gets its expiry. |
| `Timers.TimerList.Enlist` | IoTGateWay/src/timer.c:333-405 | The second section, whatever an interrupt did to other timers in between: the timer is linked where a stable linear insert would put it. |
| `Timers.TimerList.Stop` | IoTGateWay/src/timer.c:431-456 | Refuses a timer that is not flagged as active; otherwise takes it off every row and nothing else. |
| `Timers.TimerList.NextTimeout` | IoTGateWay/src/timer.c:108-128 | The head of the last row is the timer that is due first of all that are started. |
| `Timers.TimerList.Fire` | IoTGateWay/src/timer.c:541-569 | One round of the loop, for any calls the timeout function makes: where every timer is listed and flagged afterwards, and exactly what is still due, in order. From a state where list and flags agree they part exactly if the timer is one-shot and the last call of its own timeout function that names it starts it. A due timer with a period of no ticks stays due unless a timeout function stops it. |
| `Timers.TimerList.Check` | IoTGateWay/src/timer.c:519-578 | Unless a timer keeps it going, the loop ends with nothing listed that is due. Exactly the timers of the first pass have fired, once each and in order, whatever the timeout functions do; says where every timer ends up and, if list and flags agreed at first, exactly which ones end up listed without their flag. Of the timers that no other timeout function names, those that do not fire stay as they were, periodic ones that stay active are listed again, and one-shot ones only if their own timeout function starts them. |
| `Timers.TimerList.CheckFor` | IoTGateWay/src/timer.c:532-572 | The loop has come to its end after as many rounds as there are timers in the first pass, if and only if no timer keeps it going: one that is due, has a period of no ticks, is left active by its own timeout function and is named by no other that fires. Such a timer is still due after any number of rounds. |
| `FirstPasses.FiresIff` | IoTGateWay/src/timer.c:532-572 | A due timer fires exactly if no timer due before it that fires starts it, or stops it while it is flagged. |
| `FirstPasses.PassUndisturbed` | IoTGateWay/src/timer.c:532-572 | If no timeout function names a timer due after it, exactly the timers due at the start fire, in order. |
| `Timers.SelfRestart` | IoTGateWay/src/timer.c:546-568 | A run after which a one-shot timer is listed without its flag. |
| `Timers.NoTicks` | IoTGateWay/src/timer.c:557-563 | A run of any number of rounds in which a timer with a period of no ticks stays due. |
| `TimerCalls.FiringDecides` | IoTGateWay/src/timer.c:546-568 | A periodic timer is listed again exactly if its own calls leave it active, a one-shot timer exactly if they start it. |
| `TimerCalls.LooseIff` | IoTGateWay/src/timer.c:546-568 | Over any rounds, a timer ends up listed without its flag exactly if it is one-shot, its own timeout function starts it, and none that fires later starts it again. |
| `RtLists.Links.InsertAfter` | IoTGateWay/include/rtservice.h:58-65 | The four assignments put the node behind the given one in the cycle, wherever that is; other lists are untouched. |
| `RtLists.Links.InsertBefore` | IoTGateWay/include/rtservice.h:73-80 | Likewise in front; before the head means behind the last item. |
| `RtLists.Links.Remove` | IoTGateWay/include/rtservice.h:86-92 | The item leaves its cycle and becomes a list of its own; other lists are untouched. |
| `RtLists.Links.RemoveAlone` | IoTGateWay/include/rtservice.h:86-92 | Removing a node that is in no list changes nothing. |
| `RtLists.LinksDetermined` | IoTGateWay/include/rtservice.h:58-92 | The sequence of nodes determines every link. |
| `RtLists.NodesDetermined` | IoTGateWay/include/rtservice.h:58-92 | The head and the links determine the sequence of nodes; together they justify taking lists as sequences in the other models. |
| `Waiters.FindPlace` | IoTGateWay/src/ipc.c:100-119 | The loop finds the place behind all waiters at least as urgent. |
| `Waiters.EnqueueUrgentFirst` | IoTGateWay/src/ipc.c:95-120 | A list kept by priority stays most urgent first, and the newcomer stands behind those of its own priority. |
| `WakeOrder.ServedInTurn` | IoTGateWay/src/ipc.c:82-152 | After any history of suspensions, wake-ups, timeouts and releases, a wake-up resumes the thread whose turn it is: of those left behind none is more urgent with the priority flag, none came earlier with the FIFO flag (or at equal urgency), and none came later in the last-come-first-served order of the memory pool. |
| `Waiters.WakeOk` | IoTGateWay/src/ipc.c:139-152 | Resuming a waiter for one more resource keeps the no-lost-wake-up bound. |
| `Waiters.ProceedOk` | IoTGateWay/src/ipc.c:2041-2111 | So does a thread taking a resource, whether it had been resumed or never waited. |
| `MessageProtocol.StepKeeps` | IoTGateWay/src/ipc.c:2000-2470 | Every section of every thread keeps the invariant: slots partitioned, copies intact, waiting lists consistent, no wake-up lost. |
| `MessageProtocol.RunKeeps` | IoTGateWay/src/ipc.c:2000-2470 | So does every run, with any interleaving of senders, urgent senders, receivers, timeouts and resets. |
| `MessageProtocol.SlotsConserved` | IoTGateWay/src/ipc.c:2041-2376 | After any run each slot is in exactly one of: free list, queue, the hands of one copying sender or receiver. |
| `MessageProtocol.NoLostWakeup` | IoTGateWay/src/ipc.c:2041-2401 | After any run: while a sender is suspended there are no more free slots than resumed senders yet to run; likewise for receivers and queued messages. |
| `MessageProtocol.QuietState` | IoTGateWay/src/ipc.c:2041-2401 | When all runnable threads have run, senders wait only on a full queue, receivers only on an empty one, never both. |
| `MessageProtocol.CopyKeeps` | IoTGateWay/src/ipc.c:2112-2113 | A copy in progress touches no slot but its own, byte by byte. |
| `MessageProtocol.FinishGives` | IoTGateWay/src/ipc.c:2379-2386 | What is linked starts with the message sent; what a receive returns are the first bytes of the message it took, whatever ran during the copies. |
| `MessageDelivery.FinishReturns` | IoTGateWay/src/ipc.c:2379-2386 | What a receive returns are the first min(size, msg_size) bytes of the message it took, for the size in the receive call of the thread, also when it had to wait and try again. |
| `MessageProtocol.ResultsExact` | IoTGateWay/src/ipc.c:2000-2409 | When a call returns full, timed out, error, success or received bytes, and when it suspends: in each case if and only if. |
| `MessageProtocol.ResetReleases` | IoTGateWay/src/ipc.c:2430-2466 | A reset ends exactly the suspended calls, with an error, and frees exactly the queued slots. |
| `MessageTurns.FinishServesInTurn` | IoTGateWay/src/ipc.c:2133-2403 | After any run, the end of a send resumes the receiver whose turn it is, the end of a receive the sender: with the priority flag nobody left waiting is more urgent, and with either flag nobody of the same urgency, or of any with FIFO, was suspended earlier. |
| `MessageProtocol.StepDelivers` | IoTGateWay/src/ipc.c:2115-2138 | Only linking, taking and reset change the queue of messages. |
| `MessageProtocol.RunDelivers` | IoTGateWay/src/ipc.c:2000-2470 | Over any run the queue is a double-ended queue of messages: linked at the back, or at the front if urgent, taken from the front. |
| `MessageProtocol.FirstInFirstOut` | IoTGateWay/src/ipc.c:2000-2409 | A queue that is only linked to at the back and taken from at the front gives back what it was given, in order. |
| `MessageDelivery.RunFirstInFirstOut` | IoTGateWay/src/ipc.c:2000-2409 | In every run without urgent messages and resets, what was taken followed by what is still queued is what was queued at first followed by what was linked. |
| `MessageDelivery.ReceivedWasSent` | IoTGateWay/src/ipc.c:2000-2470 | After any run, the bytes a receiver got are those of a message sent in the run: as many as its last call asked for, or the message size if that is less; beyond the end of the message they are what the slot held. |
| `MessageDelivery.ReceivedOnce` | IoTGateWay/src/ipc.c:2265-2409 | Over any run, what the calls of a thread return as received, followed by what it has in hand, is its share of the messages that left the queue, in order, each once and cut to the size in the receive call that took it. |
| `MessageDelivery.ReceivedFromStart` | IoTGateWay/src/ipc.c:2265-2409 | So, from a new queue on, the receives of a thread return the messages that it took, in order, each cut to the size asked for. |
| `MessageQueues.MessageQueue.constructor` | IoTGateWay/src/ipc.c:1806-1856 | Threading the slots into the free list gives the initial state of the protocol. |
| `MessageQueues.MessageQueue.Reserving` | IoTGateWay/src/ipc.c:2027-2108 | The first section of a send, on the linked slots, is the protocol step. |
| `MessageQueues.MessageQueue.Linking` | IoTGateWay/src/ipc.c:2115-2149 | The second section of a send or urgent send, with head and tail pointer updates, is the protocol step. |
| `MessageQueues.MessageQueue.Taking` | IoTGateWay/src/ipc.c:2290-2377 | The first section of a receive, including the tail pointer of a queue that becomes empty, is the protocol step, for which `FinishReturns` and `ReceivedOnce` say what is received. |
| `MessageQueues.MessageQueue.GivingBack` | IoTGateWay/src/ipc.c:2382-2408 | The second section of a receive is the protocol step. |
| `MessageQueues.MessageQueue.Resetting` | IoTGateWay/src/ipc.c:2430-2466 | The reset loop gives all queued slots back and releases all waiters, as in the protocol. |
| `MessageQueues.MessageQueue.Step` | IoTGateWay/src/ipc.c:2000-2470 | The object with its pointers simulates the protocol event by event. |
| `Mailboxes.Mailbox.Send` | IoTGateWay/src/ipc.c:1467-1586 | The ring of values is a bounded FIFO. A stored value resumes exactly the first suspended receiver, if there is one; a full mailbox has the sender suspend, at the place its order asks for, or refuses. The no-lost-wake-up bound holds for senders and receivers afterwards. |
| `Mailboxes.Mailbox.Recv` | IoTGateWay/src/ipc.c:1615-1739 | Takes the oldest value and resumes exactly the first suspended sender, if there is one; on an empty mailbox suspends at the place the order asks for, or refuses; the bound holds. |
| `Mailboxes.Mailbox.TimeOut` | IoTGateWay/src/thread.c:821-843 | A timed-out thread leaves its list without disturbing the bound. |
| `Mailboxes.Mailbox.Reset` | IoTGateWay/src/ipc.c:1751-1783 | Empties the mailbox and releases all waiters. |
| `Mailboxes.Mailbox.Quiet` | IoTGateWay/src/ipc.c:1467-1739 | With all resumed threads run, senders wait only at a full mailbox and receivers only at an empty one. |
| `MemPools.MemPool.constructor` | IoTGateWay/src/mempool.c:77-124 | All blocks are chained in order of address. |
| `MemPools.MemPool.Alloc` | IoTGateWay/src/mempool.c:303-391 | Hands out the first block of the chain, which no one else holds; on an empty pool the thread suspends in front of the others or gives up; no wake-up is lost. |
| `MemPools.MemPool.Free` | IoTGateWay/src/mempool.c:399-449 | The block becomes the first of the chain; of the suspended threads exactly the first, which is the one suspended last, is resumed. |
| `MemPools.MemPool.Quiet` | IoTGateWay/src/mempool.c:303-449 | With all resumed threads run, threads are suspended only while no block is free. |
| `Mutexes.Mutex.Take` | IoTGateWay/src/ipc.c:659-788 | Value, owner and hold count agree; a newcomer waits at the place the order asks for; the owner, and nobody else, becomes as urgent as a more urgent newcomer; inheritance is kept. |
| `Mutexes.Mutex.Release` | IoTGateWay/src/ipc.c:799-890 | The last release gives all boosts back and hands over to the first waiter. The new owner is as urgent as every waiter if and only if the first waiter was the most urgent, which the priority flag guarantees. |
| `Mutexes.Mutex.TimeOut` | IoTGateWay/src/thread.c:821-843 | A waiter leaves; ownership, order and inheritance are kept. |
| `Mutexes.FifoHandover` | IoTGateWay/src/ipc.c:850-869 | A run with the FIFO flag after which a more urgent thread waits for a less urgent owner. |
| `Events.Event.Send` | IoTGateWay/src/ipc.c:1038-1127 | The loop that clears bits while it walks the list does what the walk function says. Afterwards no bit that a thread left with OR waits for is present, and each thread left with AND lacks one; each resumed thread's record holds the bits it was awarded. |
| `Events.Event.Recv` | IoTGateWay/src/ipc.c:1143-1262 | With any bit present for OR, or all for AND, takes the present ones at once; otherwise suspends at the place its order asks for, or refuses. |
| `Events.WalkServesAll` | IoTGateWay/src/ipc.c:1062-1115 | Of the bits that remain, a thread left with OR finds none that it waits for, and a thread left with AND lacks one. |
| `Events.WalkIsFair` | IoTGateWay/src/ipc.c:1069-1101 | Every resumed thread receives exactly those of its bits that were present when it was chosen: at least one, and all of them for AND. |
| `Events.ClearedOnce` | IoTGateWay/src/ipc.c:1103-1108 | A bit a thread clears goes to no later thread and does not remain in the set. |
| `Events.WalkPartitions` | IoTGateWay/src/ipc.c:1062-1115 | Every thread on the list is left or resumed, never both. |
| `Events.WalkClears` | IoTGateWay/src/ipc.c:1103-1108 | What a resumed thread leaves is what the next one chooses from, or remains in the set: all bits, without those it received if it asked to clear them. |
| `Events.NobodyPassedOver` | IoTGateWay/src/ipc.c:1062-1115 | A thread that is left lacked what it waits for at its own turn: whoever is resumed after it found no more bits. |
| `Events.AwardsInOrder` | IoTGateWay/src/ipc.c:1062-1115 | Threads are resumed in the order of the list. |
| `Schedulers.FindFirstSet` | IoTGateWay/src/kservice.c:1319-1333 | The byte-wise table look-up finds the lowest one bit of a 32-bit word. |
| `BitTables.LookUpIsLowest` | IoTGateWay/src/kservice.c:1289-1307 | The table of 256 entries gives the lowest one bit of every byte but zero. |
| `Schedulers.Scheduler.Highest` | IoTGateWay/src/scheduler.c:158-180 | With one or two index levels, the most urgent marked priority is found. |
| `Schedulers.Scheduler.Mark` | IoTGateWay/src/scheduler.c:729-733 | Exactly one more priority is marked, on both levels. |
| `Schedulers.Scheduler.Unmark` | IoTGateWay/src/scheduler.c:814-826 | Exactly one priority is unmarked; the first level follows when its byte becomes empty. |
| `Schedulers.Scheduler.InsertThread` | IoTGateWay/src/scheduler.c:704-738 | The current thread only becomes RUNNING; any other goes to the tail of the queue of its priority; index and queues agree. |
| `Schedulers.Scheduler.RemoveThread` | IoTGateWay/src/scheduler.c:801-831 | The thread leaves its queue, if it is in one; index and queues agree. |
| `Schedulers.Scheduler.Schedule` | IoTGateWay/src/scheduler.c:414-534 | After an unlocked call no READY thread is more urgent than the running one. A running thread keeps the processor if no READY thread is more urgent and it has not asked to yield to peers; it gives way to a more urgent one, and to a peer exactly when it has asked. Who takes over is the head of the queue of the most urgent READY threads; the other goes to the tail of its own queue, and its request to yield is cleared. |
| `Schedulers.Scheduler.Tick` | IoTGateWay/src/clock.c:72-100 | When the slice ends, a READY thread at least as urgent takes over, the head of the most urgent queue, and the thread goes behind its peers; without one, or while locked, nothing changes but that the request to yield stays pending. |
| `Schedulers.PendingYield` | IoTGateWay/src/clock.c:72-100 | A run in which a thread with an untouched slice gives way to a peer, because the end of an earlier slice had left its request to yield pending. |
| `Schedulers.Scheduler.ExitCritical` | IoTGateWay/src/scheduler.c:941-966 | Leaving the outermost critical section schedules, with the outcome of an unlocked `Schedule`; inner ones change nothing. |
| `Schedulers.Scheduler.Suspend` | IoTGateWay/src/thread.c:729-768 | Only READY or RUNNING threads are suspended, and leave their queue. |
| `Schedulers.Scheduler.Resume` | IoTGateWay/src/thread.c:778-812 | Only suspended threads are resumed, to the tail of their queue. |
| `Schedulers.Scheduler.ChangePriority` | IoTGateWay/src/thread.c:626-677 | A READY thread moves to the tail of the other queue, any other only changes its priority; index, queues and statuses stay consistent. |
| `Schedulers.Scheduler.Startup` | IoTGateWay/src/thread.c:289-314 | A new thread becomes READY at the tail of its queue. |
| `PageAllocators.PageAllocator.AllocPages` | IoTGateWay/src/slab.c:236-270 | Returns the lowest place where that many pages are free and takes exactly those; fails exactly when there is no such place. |
| `PageAllocators.PageAllocator.FreePages` | IoTGateWay/src/slab.c:272-322 | Exactly those pages become free; the list stays sorted with runs that neither overlap nor touch. |
| `PageAllocators.PageAllocator.AllReturned` | IoTGateWay/src/slab.c:272-334 | When all pages are free the list is the single initial run, whatever the order of the frees. |
| `PageRuns.Canonical` | IoTGateWay/src/slab.c:272-322 | The set of free pages determines the list. |
| `PageRuns.GivenIs` | IoTGateWay/src/slab.c:284-317 | Giving pages back between two runs, joined left, right, both or neither, adds exactly those pages. |
| `PageRuns.FirstFit` | IoTGateWay/src/slab.c:247-266 | The first run that is long enough starts at the lowest place with that many free pages. |
| `SlabZones.ZoneIndex` | IoTGateWay/src/slab.c:401-459 | Computes the class number and chunk size of a request. |
| `SlabZones.ClassesAgree` | IoTGateWay/src/slab.c:401-459 | Requests share an index exactly if they share a chunk size; lower indices have smaller chunks. |
| `SlabZones.SizeOfClass` | IoTGateWay/src/slab.c:401-459 | The chunk size covers the request, is a multiple of eight, and can be told from the index, which is in range. |
| `SlabZones.ChunkSteps` | IoTGateWay/src/slab.c:401-459 | The chunk size is the smallest multiple of the step that covers the request: 8 bytes below 128, and a step twice as large with each doubling from there. |
| `SlabZones.ChunkIsLeast` | IoTGateWay/src/slab.c:401-459 | No class with smaller chunks covers the request. |
| `SlabZones.FirstChunkIs` | IoTGateWay/src/slab.c:628-638 | Chunks begin at the first offset behind the zone header that is aligned to the chunk size if that is a power of two, and to 8 bytes otherwise. |
| `SlabZones.RoomForTwo` | IoTGateWay/src/slab.c:628-646 | Every zone holds as many chunks as fit behind its header, and these are at least two, for all zone sizes and classes in use. |
| `SlabZones.TakeIsFresh` | IoTGateWay/src/slab.c:543-568 | A zone with free chunks hands out one that is not in use and keeps its count equal to never-used plus freed chunks. |
| `SlabZones.TakeAfterGive` | IoTGateWay/src/slab.c:556-568 | Chunks never used go first; after that the chunk given back last, and giving a chunk back and taking one restores the zone. |
| `SlabZones.CountsUsed` | IoTGateWay/src/slab.c:854-855 | A zone counts all chunks as free if and only if none is in use. |
| `Slabs.SlabHeap.constructor` | IoTGateWay/src/slab.c:344-395 | The page list, the usage table and the zone sizes of a new heap: the zones are doubled from 32 KB up to 128 KB while twice their size is below a 1024th of the heap. |
| `Slabs.SlabHeap.Malloc` | IoTGateWay/src/slab.c:478-667 | A chunk of the class of the request, not in use before, or the lowest run of whole pages that was free, and nothing else changes hands. A chunk comes from an active zone as long as one of the class has a free chunk, then from the zone set aside first in line, then from a new one; fails exactly when none of the three is possible. |
| `Slabs.SlabHeap.Free` | IoTGateWay/src/slab.c:771-904 | Exactly the named chunk or block is no longer in use. Zones are linked exactly while they have a free chunk. A zone whose last chunk comes back while another of its class has a free chunk is set aside, or its pages are released if two are set aside already; otherwise it stays. |
| `Slabs.SlabHeap.ChunksDisjoint` | IoTGateWay/src/slab.c:478-667 | Chunks in use, of any zones, never share a byte. |
| `Slabs.SlabHeap.LookUp` | IoTGateWay/src/slab.c:795-827 | The usage table leads from any chunk's address to its zone, and from a large block to its length. |
| `RingBlocks.RingBlockBuffer.Alloc` | IoTGateWay/components/drivers/src/ringblk_buf.c:133-226 | In a buffer in order the new block goes behind the last one, and to the start of the buffer only if the ring is empty, or if no block has wrapped and there is no room behind. A failure means that the descriptors are used up or that no position at all would keep ring order; a block with bytes leaves the buffer in order if and only if it fits into the buffer, which the code does not check on an empty list; a block of no bytes lets a later one overlap a block in use if and only if it fills up the gap in front of the first block. |
| `RingBlocks.RingBlockBuffer.GetBlock` | IoTGateWay/components/drivers/src/ringblk_buf.c:251-281 | The oldest filled block, or none exactly when none is filled. |
| `RingBlocks.RingBlockBuffer.PutBlock` | IoTGateWay/components/drivers/src/ringblk_buf.c:234-240 | The block becomes filled; order and list are kept. |
| `RingBlocks.RingBlockBuffer.FreeBlock` | IoTGateWay/components/drivers/src/ringblk_buf.c:320-336 | Any block may be freed in any order; the rest stays in address order up to one turn. |
| `RingBlocks.RingBlockBuffer.Disjoint` | IoTGateWay/components/drivers/src/ringblk_buf.c:133-226 | Blocks in use lie inside the buffer and share no byte. |
| `RingBlocks.EmptyBlockMisleads` | IoTGateWay/components/drivers/src/ringblk_buf.c:152-167 | The exact condition for a block of no bytes to make a later one overlap a block in use. |
| `RingBlocks.EmptyBlockRun` | IoTGateWay/components/drivers/src/ringblk_buf.c:133-226 | A run after which two blocks in use share bytes. |
| `RingBlocks.TooLarge` | IoTGateWay/components/drivers/src/ringblk_buf.c:213-219 | A block of twenty bytes is handed out of a buffer of ten. |
| `RingBlocks.RingBlockBuffer.Append` | IoTGateWay/include/rtservice.h:194-204 | Appending walks to the tail; the descriptor list and the statuses agree. |
| `RingBlocks.RingBlockBuffer.Remove` | IoTGateWay/include/rtservice.h:225-235 | Removing relinks the predecessor; the rest of the list is unchanged. |
| `RingBuffers.RingBuffer.DataLenIs` | IoTGateWay/components/drivers/src/ringbuffer.c:292-307 | Indices and mirror bits alone tell the length; full and empty are told apart by the mirrors. |
| `RingBuffers.RingBuffer.Put` | IoTGateWay/components/drivers/src/ringbuffer.c:49-90 | Appends the longest prefix that fits. |
| `RingBuffers.RingBuffer.Get` | IoTGateWay/components/drivers/src/ringbuffer.c:152-193 | Removes the oldest bytes, across the wrap. |
| `RingBuffers.RingBuffer.PutChar` | IoTGateWay/components/drivers/src/ringbuffer.c:199-221 | Appends one byte unless full. |
| `RingBuffers.RingBuffer.GetChar` | IoTGateWay/components/drivers/src/ringbuffer.c:264-286 | Removes the oldest byte unless empty. |
| `RingBuffers.RingBuffer.PutCharForce` | IoTGateWay/components/drivers/src/ringbuffer.c:229-258 | A full ring drops exactly its oldest byte. |
| `RingBuffers.RingBuffer.PutForce` | IoTGateWay/components/drivers/src/ringbuffer.c:98-146 | Keeps the newest bytes if and only if it is not the case that the write overflows, reaches the end of the buffer and finds both mirrors equal; in that case the ring ends up empty. |
| `RingBuffers.LosesAll` | IoTGateWay/components/drivers/src/ringbuffer.c:98-146 | Four bytes forced into a ring of four that holds one leave it empty. |
| `SerialFifos.SerialFifo.UpdatePutIndex` | IoTGateWay/components/drivers/serial/serial.c:425-465 | Both index branches give the wrapped position, full exactly when unread and arrived fill the buffer, and move the read position only on overflow. |
| `SerialFifos.SerialFifo.Arrive` | IoTGateWay/components/drivers/serial/serial.c:425-465 | After any transfer of at most the buffer size the newest bytes are unread, and the reported length is the smaller of buffer size and unread plus arrived. |
| `SerialFifos.SerialFifo.Receive` | IoTGateWay/components/drivers/serial/serial.c:500-523 | Reads the oldest unread bytes in arrival order across the wrap. |
| `LocalTimes.NormalizeKeepsInstant` | library/pytz-2020.1/pytz/tzinfo.py:203-256 | Normalizing keeps the instant, is idempotent, and leaves exactly the readings of their own instants as they are. |
| `LocalTimes.IndexIs` | library/pytz-2020.1/pytz/tzinfo.py:198-201 | The data in force at an instant are those of the last transition not after it, or the first ones. |
| `LocalTimes.CandidatesSound` | library/pytz-2020.1/pytz/tzinfo.py:320-330 | Every candidate is the reading of its instant and shows the local time asked for; two candidates are different instants. |
| `LocalTimes.FoundIff` | library/pytz-2020.1/pytz/tzinfo.py:320-330 | An instant that reads as the time is a candidate exactly if its offset applies a day before or a day after. |
| `LocalTimes.CandidatesComplete` | library/pytz-2020.1/pytz/tzinfo.py:320-330 | Every instant that reads as the time is a candidate exactly if the table of the zone has no stretch between the two days, with the offset of neither, that contains the instant its offset makes of the time. |
| `LocalTimes.CalmComplete` | library/pytz-2020.1/pytz/tzinfo.py:320-330 | So with at most one transition within a day either side nothing is missed. |
| `LocalTimes.MissedBetweenTransitions` | library/pytz-2020.1/pytz/tzinfo.py:320-330 | With two transitions that near, a time that exists is missed. |
| `LocalTimes.StrictLocalize` | library/pytz-2020.1/pytz/tzinfo.py:332-363 | A strict call fails as ambiguous exactly for times that occur twice and as non-existent exactly for times that never occur, if and only if no stretch is hidden or both offsets that are tried give a reading. What it finds is always a reading. |
| `LocalTimes.RoundTrip` | library/pytz-2020.1/pytz/tzinfo.py:317-394 | Localizing the local reading of an instant with its own flag gives the instant back exactly if, its offset being one of the two that are tried, every other candidate differs in the flag or lies later for a DST reading and earlier otherwise; or, its offset not being tried, if there is no candidate and the clock is wound to a stretch with the same data. |
| `LocalTimes.LocalizeWinds` | library/pytz-2020.1/pytz/tzinfo.py:338-355 | With a flag given, the answer is the time asked for with the offset picked at the first wound time that has a candidate. |
| `LocalTimes.WoundToIs` | library/pytz-2020.1/pytz/tzinfo.py:338-355 | The clock is wound by six hours at a time, and no further than to the first time that has a candidate. |
| `LocalTimes.AmbiguousChoice` | library/pytz-2020.1/pytz/tzinfo.py:357-394 | Of two candidates, if exactly one has a non-zero DST offset the flag asked for decides; otherwise the answer is the earlier instant if DST is asked for and the later one if not. |
| `LocalTimes.UniqueAnswer` | library/pytz-2020.1/pytz/tzinfo.py:332-333 | A single candidate is the answer whatever flag is given, and without one. |
| `LocalTimes.CalmRoundTrip` | library/pytz-2020.1/pytz/tzinfo.py:317-394 | So with at most one transition near it is enough that the readings of a repeated time differ in the flag. |
| `LocalTimes.LocalizeKeepsTime` | library/pytz-2020.1/pytz/tzinfo.py:338-355 | With a flag given, winding the clock always ends with an answer, and the answer carries the local time asked for. |
| `LocalTimes.WoundEnough` | library/pytz-2020.1/pytz/tzinfo.py:338-355 | Far enough before the first or behind the last transition there is a candidate, so the recursion ends. |
| `LocalTimes.LocalizeTime` | library/pytz-2020.1/pytz/tzinfo.py:317-394 | The loops and the recursion compute that answer. |
| `LocalTimes.PickOne` | library/pytz-2020.1/pytz/tzinfo.py:365-394 | Filtering by the flag, and the minimum or maximum over the instants, compute that choice. |

## Left out

- Hooks, debug output, magic numbers, object registration, SMP branches, signals, module support, and deleting or detaching objects while threads wait.
- The heap semaphores: each allocator call is one atomic step, and taking the lock is assumed to succeed.
- Machine wrap-around of sizes and counters other than the tick and the search bound of `mem.c`; header sizes are those of the 32-bit build.
- `rt_realloc` of `slab.c` and chunk contents: a zone model without bytes; where the data goes is shown for the two other heaps.
- Semaphores, `dataqueue.c`, completions, work queues, pipes: the wake-up argument is the same as for the mailbox.
- Timeouts measured in ticks: a thread timer may fire at any time, and a woken thread may or may not be willing to wait again.
- The soft-timer thread, which runs the same lists, and `rt_timer_control`; timeout functions are scripts of start and stop calls.
- `Timers.TimerList.Start`: the tick is read with interrupts enabled, and is taken as read at the end of the first section. The pointer that the search keeps into the row below is modelled as finding the same timer there by name.
- `Timers.TimerList.Check`: takes the tick as fixed while the loop runs. No listed timer may be overdue by more than `late` ticks, for any `late` below half a turn, and periods then end at 0x80000001 - `late`; beyond that the tick comparison itself is wrong (`CompareExact`). The timeout functions that run start only timers of at least one tick.
- `Mutexes.Mutex.Take`: one mutex only; nested and multiple mutexes, where a boosted thread is not re-sorted in other lists, are not modelled. An owner that takes the mutex again must hold it fewer than 255 times, since the 8-bit count is incremented unchecked.
- `Schedulers.Scheduler.Tick`: the timer check at the end of the tick is in the timer model; context switching itself is only the change of the current thread.
- `MemPools.MemPool.constructor`: requires room for at least one block, without which the code writes in front of the pool.
- `MemPools.MemPool.Alloc`: the owner pointer stored in a block handed out is not modelled; `Free` is told the pool.
- `RingBuffers.RingBuffer.PutForce`: requires a buffer of at least four bytes, since smaller ones are rounded down to none; the same holds for `PutCharForce`.
- `RingBlocks.RingBlockBuffer.Alloc`: the block queue functions, which take blocks off the list while in use, are not modelled.
- `SerialFifos.SerialFifo.Arrive`: each transfer is at most the buffer size, as the DMA engine is set up; the mode without a FIFO is not modelled.
- `LocalTimes.LocalizeTime`: the range limits of Python dates, pickling, `utcoffset`/`dst`/`tzname` look-ups and the zone data files are not modelled.
- The Python servers, database and broker glue, device drivers, USB, logging, the shell, C++ wrappers and string routines.
