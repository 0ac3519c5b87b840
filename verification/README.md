# What this project proves about the kernel

A small x86 kernel runs threads under a round-robin scheduler, hands out memory by pages and by
blocks, and keeps a file system on an ATA disk.  The modules here model its three stateful cores and
prove what every step of them keeps, what whole runs keep, and where the code as it stands does
something else.

| part | modules |
|---|---|
| threads, locks, queues | `Scheduler`, `RoundRobin`, `Sync`, `SyncRuns`, `Kernel`, `List`, `IoQueue`, `Ring`, `Ide` |
| memory | `Bitmap`, `BitSeq`, `Paging`, `PageAlloc`, `PageWords`, `Fork`, `PageRuns`, `PagePools`, `ForkPools`, `PageStale`, `PageMachine`, `Heap`, `HeapMachine`, `HeapRuns` |
| files | `Format`, `InodeTable`, `Directory`, `DirInsert`, `DirDelete`, `DirRead`, `DirHeads`, `DirEntries`, `DirHandle`, `DirSlots`, `FileGrowth`, `FileHandle`, `Paths`, `Tree`, `FsState`, `FileSystem`, `FsCalls`, `FsRuns`, `FsOutcomes`, `FsRemovals`, `FsLeakRun`, `FsDisk`, `FsMachine` |

`dafny verify dfyconfig.toml` checks everything.

How the code is represented:

- A failed `ASSERT`, and a `PANIC`, ends in a loop that is never left.  Such a step gives `Halted`
  (`Outcomes`); "no assertion fires" means that the step never does.
- What the C code does to structures and globals is written twice: as functions on a value of the whole
  state, which the theorems speak of, and as methods of a class with those fields, with the loops of the
  C code, each proved to compute its function (`Kernel.Machine`, `List.Queue`, `Ring.Buffer`,
  `PageMachine.Memory`, `HeapMachine.Allocator`, `DirHandle.Handle`, `FileHandle.Handle`,
  `InodeTable.Partition`, `FsMachine.Partition`).
- Threads are a step relation with a program counter per thread and any number of threads.  Code that runs
  with interrupts off is one step, split where it blocks.  One memory operation is one step.
- What `bitmap_scan` answers for a run of a virtual bitmap is an input of the page operations, so their
  theorems hold for any scan whose run lies inside the bitmap.  The one-bit scans of the pools in `palloc` are
  the shipped ones, which stop the machine on a full pool; `PagePools` says when that happens, and what would
  become of malloc_page if they answered -1.

Where a line does not do what the code around it needs, the line is kept, behind a parameter `shipped` or
`stops` where the rest of the model also needs the version that was meant; lemmas show inputs or runs on which
it goes wrong, and say exactly when it does not:

| line | what it does | exact condition |
|---|---|---|
| `workshop/lib/kernel/bitmap.c:22`, `:71` | indexes bytes with a bit number; tests one bit past the end | `Bitmap.ShippedScanRightIff`: right for all maps iff one bit is asked for; `Bitmap.ShippedRightOnIff`: right on a map iff the first run of the bits it reads is the first run of clear bits |
| `workshop/lib/kernel/bitmap.c:38` | stops on a full map before -1 can be returned | `Bitmap.ScanIsFirstFit`, `Bitmap.ScanOneIsFirstClear`; what that means for the file system is `FsCalls.HaltsIff`, for this scan (`stops`) and for one that returns -1; for pages `PagePools.MallocUserPagesIff` |
| `workshop/device/ioqueue.c:66-72`, `:96-102` | sleeps without looking at the ring again once the lock is taken | `IoQueue.NeedlessConsumerIff`, `IoQueue.NeedlessProducerIff`: a step puts a thread to sleep for nothing iff it had queued for the lock, gets it, and the ring has changed meanwhile; `IoQueue.RunNeedlessIff` for runs |
| `workshop/fs/inode.c:61` | keeps 8 bits of the inode number | `InodeTable.ShippedSyncWorksIff`: right iff the number is below 256; along runs `FsDisk.TableKeepsIff`; `FsDisk.NumberTooLarge`: the 256th file of a new partition meets it |
| `workshop/fs/dir.c:94` | compares a stored name of 16 characters, which has no terminating 0, with strcmp | `DirRead.SixteenFoundIff`: such a name is found iff the inode number is a multiple of 256 |
| `workshop/fs/dir.c:161-171` | does not load an existing index table | `DirInsert.InsertRefinesIff`: a successful insertion is right iff it does not put a second table in place of one; `FsLeakRun.ShippedLosesFile`: after 251 creates the next entry does |
| `workshop/fs/dir.c:205-229` | also with the table loaded, a hole at block 12 gets a second table | the same lemma, with `shipped` false; a failure there is `DirInsert.InsertFailsReplacing`; `FsLeakRun.CreateReplacesTable` is a run of creates and unlinks that ends in it |
| `workshop/fs/fs.c:176` | clears one bit too many of the block bitmap | `Format.BitmapRightIff`; below 8 blocks the root's own bit too, `Format.RootBitSetIff` |
| `workshop/fs/fs.c:234`, `:238` | skip exactly one character | `Paths.ShippedParseRightIff`: the names are right iff no empty component precedes a non-empty one |
| `workshop/fs/fs.c:349-352` | whatever follows a regular file in a path is ignored | `Tree.FoundPastFileIff`: something is found although the path leads nowhere iff it goes on behind a regular file; `FsRemovals.UnlinkThroughFile`: sys_unlink then removes the file |
| `workshop/fs/fs.c:747-751` | a failed mkdir keeps the new sector | `FsRuns.StepKeepsIff` |
| `workshop/fs/fs.c:878-893` | sys_rmdir looks at the size alone | `FsRemovals.RmdirOnlyDirsIff`: only empty directories are removed iff what is found is not a regular file of 48 bytes; `FsRemovals.RmdirTakesFile` is such a run |
| `workshop/fs/file.c:328` | stops when a file would have exactly 71680 bytes, which line 270 lets through | `FileGrowth.GrowOutcome` |
| `workshop/fs/file.c:330-472` | an append that runs out of sectors gives nothing back | `FileGrowth.GrowSpoils`, `FsRuns.StepKeepsIff`: harmful iff it runs out behind its first block |
| `workshop/fs/file.c:306-322` | the first block of an append that then fails is in the inode in memory and not synced | `FsDisk.TableKeepsIff`: only where the file is empty and one sector is left (`FsDisk.OneSectorLeft`) |
| `workshop/fs/file.c:478-505` | one chunk only, and a negative result | `FileGrowth.ShippedSizeRightIff`: the block count stays right iff fewer than 512 bytes go past the first chunk |
| `workshop/kernel/memory.c:226-231` | a NULL of palloc leaves virtual bits set and pages mapped | `PagePools.MallocOrNullKeepsIff`: harmful iff the user pool has fewer frames than pages are asked for |
| `workshop/kernel/memory.c:325-333` | addr_v2p answers for unmapped pages, so mfree_page frees what their entries last held | `PageAlloc.FreeUserPagesKeepsIff`: harmless iff nobody else has one of those frames; `PageStale.FreedTwiceRun` ends with two pages in one frame |

Other surprises that are proved about the code as it is: `search_file` returns an uninitialised inode
number for a path of several slashes (`Tree.SlashesFindJunk`); an empty name matches any cleared slot
(`DirRead.EmptyNameFindsFreeSlot`); with one producer and one consumer a consumer can still go to sleep
with a byte in the ring (`IoQueue.OnePairOversleeps`), though not as the keyboard uses the queue
(`IoQueue.KeyboardNeverNeedless`).  At `workshop/fs/file.c:392` the unset `block_idx` is read as the index
of the last block in use.

## Model

| member | source | states |
|---|---|---|
| Scheduler.ScheduleFindsSuccessor | workshop/thread/thread.c:185-226 | with the running thread switched out and even with nobody ready, schedule finds a thread to run (waking idle) and exactly one thread is running afterwards, in no queue |
| Scheduler.PopKeepsInTransit | workshop/thread/thread.c:210-222 | popping the first ready thread leaves the ready list without duplicates and equal to the ready threads |
| Scheduler.UnblockSafe | workshop/thread/thread.c:248-269 | thread_unblock stops the machine iff its argument is not blocked; otherwise that thread is ready, first in the list, and nothing else has changed |
| Scheduler.BlockSafe | workshop/thread/thread.c:229-245 | thread_block never fails an assertion and gives the processor to the first ready thread or else to idle, the caller being blocked and in no queue |
| Scheduler.YieldSafe | workshop/thread/thread.c:272-285 | the same for thread_yield, the caller going to the end of the ready list |
| Scheduler.TimerTickSafe | workshop/device/timer.c:43-69 | a timer interrupt keeps the scheduler invariant, ticks never exceeding the priority, and switches exactly when the quantum is used up |
| Scheduler.StartSafe | workshop/thread/thread.c:143-162 | a started thread is ready, last in the list, and the invariant holds |
| Scheduler.ScheduleQuanta | workshop/thread/thread.c:185-226 | the thread schedule finds RUNNING has afterwards as many ticks as its priority; every other thread, the one that runs now included, has the ticks it had, and all keep their priority |
| Scheduler.TickQuanta | workshop/device/timer.c:43-69 | a timer interrupt takes one tick from the running thread and nothing from anybody else; when there is none left the thread goes behind the others with its quantum full again |
| Scheduler.BlockQuanta | workshop/thread/thread.c:229-245 | thread_block changes nobody's ticks or priority |
| Scheduler.YieldQuanta | workshop/thread/thread.c:272-285 | neither does thread_yield |
| Scheduler.UnblockQuanta | workshop/thread/thread.c:248-269 | neither does thread_unblock |
| Scheduler.StartQuanta | workshop/thread/thread.c:143-162 | a new thread has as many ticks as its priority, the one it was started with, and the others are untouched |
| RoundRobin.ApplyHaltsOnlyOnBadUnblock | workshop/thread/thread.c:185-285 | of all scheduler operations only the unblocking of a thread that is not blocked stops the machine |
| RoundRobin.RunKeepsInv | workshop/thread/thread.c:31-42 | in every state of every run one thread is RUNNING and in no queue, and the READY threads are the ready list without duplicates, also while idle blocks and is woken |
| RoundRobin.BudgetStep | workshop/thread/thread.c:185-226 | one step without unblocking dispatches the waiting thread or shrinks its budget of timer interrupts |
| RoundRobin.BoundedWaiting | workshop/device/timer.c:43-69 | without thread_unblock, the thread at position k of the ready list runs after at most running.ticks+1 plus the sum of ticks+1 of those ahead of it timer interrupts |
| RoundRobin.PriorityStays | workshop/thread/thread.c:185-285 | in every run a thread has the priority it was started with |
| RoundRobin.QuantumLasts | workshop/device/timer.c:43-69 | in every run a thread that does not block or yield keeps the processor for as many timer interrupts as it has ticks, loses one with each, and with the next goes to the end of the ready list with ticks equal to its priority |
| Sync.ActKeeps | workshop/thread/sync.c:24-115 | whichever thread runs next and wherever it is interrupted, no assertion of sync.c, thread.c, ioq_wait or wakeup fails and the invariant is kept, if threads release only locks they hold and sleep in a queue's slot only with its lock |
| Sync.RunKeeps | workshop/thread/sync.c:6-21 | the invariant holds in every state of every run from the initialised semaphores and locks |
| Sync.MutualExclusion | workshop/thread/sync.c:80-115 | at most one thread is past sema_down and not yet past sema_up of a lock |
| Sync.UnguardedTestIsRight | workshop/thread/sync.c:83 | holder and holder_repeat_nr equal the caller and its nesting depth iff it holds the lock, although they are read with interrupts on |
| Sync.NoWakeupIsLost | workshop/thread/sync.c:24-77 | a raised semaphore with waiters has a popped, unblocked thread at its re-check, ready or running, also after another thread has barged in |
| Sync.BlockedInOnePlace | workshop/thread/thread.c:229-245 | a blocked thread is on exactly one semaphore's list, once, or in exactly one ioqueue slot, or is idle, only one of the three, and is neither ready nor running |
| Sync.ListedIsBlocked | workshop/thread/thread.c:248-269 | so thread_unblock's assertions hold for whatever sema_up takes from a list and wakeup from a slot |
| Sync.AcquireWhole | workshop/thread/sync.c:80-97 | a thread that called lock_acquire and is back holds the lock once more than before, with holder and holder_repeat_nr saying so, and nobody else does, whatever ran in between |
| Sync.ReleaseWhole | workshop/thread/sync.c:100-115 | after lock_release it holds the lock once less, and when that was the last time it is not the holder |
| Sync.ReleaseHaltsIffNotHeld | workshop/thread/sync.c:100-103 | lock_release fails its assertion iff the caller does not hold the lock |
| SyncRuns.SemaStep | workshop/thread/sync.c:24-77 | whichever thread runs: raising a semaphore takes its value from 0 to 1 and puts its first waiter in front of the ready list; a thread that tests it goes on iff the value is 1, which becomes 0, and else is blocked behind the other waiters; nothing else changes the semaphore |
| SyncRuns.ValueCounts | workshop/thread/sync.c:6-77 | over every run the value is what it was plus the times the semaphore was raised less the times a thread came out of sema_down |
| SyncRuns.WokenInOrder | workshop/thread/sync.c:33-69 | over every run a waiter is not woken as long as one that began to wait before it still waits |
| SyncRuns.StatementAdvances | workshop/thread/sync.c:24-115 | no statement of lock_acquire, lock_release or ioq_wait leaves a thread where it was unless it is then blocked |
| SyncRuns.CallIsShort | workshop/thread/sync.c:80-115 | over every run, whatever the others do, a call of lock_acquire or lock_release takes at most four statements of its thread, and one more for every time it is blocked |
| Kernel.Machine.Push | workshop/lib/kernel/list.c:34-38 | a thread's one link, if it is in no list, goes in front of a list, and the ready list and all wait lists stay well formed and apart |
| Kernel.Machine.Pop | workshop/lib/kernel/list.c:60-68 | the first thread of a list is taken out, after which its link is in no list |
| Kernel.Machine.ThreadUnblock | workshop/thread/thread.c:248-269 | on the linked ready list: no assertion fails iff the thread is blocked, and then it is ready and in front of the others |
| Kernel.Machine.Schedule | workshop/thread/thread.c:185-226 | on the linked list, schedule fails no assertion and leaves the scheduler invariant, one running thread in no queue; the thread it finds RUNNING is behind the ready list with a full quantum, and nobody else's quantum changes |
| Kernel.Machine.ThreadBlock | workshop/thread/thread.c:229-245 | the caller is blocked, the first thread of the ready list runs, or idle, nobody's ticks or priority change, and the invariant holds |
| Kernel.Machine.ThreadYield | workshop/thread/thread.c:272-285 | the ready list with the caller behind it is afterwards the running thread followed by the ready list; nobody's ticks or priority change |
| Kernel.Machine.IntrTimerHandler | workshop/device/timer.c:43-69 | with ticks left one is taken and nothing is switched; at 0 the caller goes behind the others with a full quantum and the first of them runs; nobody else's ticks change, and the invariant holds |
| Kernel.Machine.SemaDownPass | workshop/thread/sync.c:24-54 | under the whole invariant one pass of the loop fails no assertion and keeps it; at value 0 the caller is blocked and another thread runs, at 1 it has the semaphore |
| Kernel.Machine.Raise | workshop/thread/sync.c:57-77 | sema_up moves the first waiter's link from the semaphore's list to the front of the ready list and makes the value 1 |
| Kernel.Machine.LockAcquire | workshop/thread/sync.c:80-97 | one uninterrupted call: it has the lock iff the caller held it already or its semaphore was 1, and then once more, with the owner fields right; otherwise the caller is on the semaphore's list and another thread runs |
| Kernel.Machine.LockRelease | workshop/thread/sync.c:100-115 | fails its assertion iff the caller does not hold the lock; otherwise it is held once less, and the last time the semaphore is 1 and the first waiter heads the ready list |
| Kernel.Machine.IoqWait | workshop/device/ioqueue.c:39-46 | called with the queue's lock, it finds the slot free, puts the caller there and switches away |
| Kernel.Machine.Wakeup | workshop/device/ioqueue.c:49-56 | the thread in the slot is blocked; it is made ready, first in the list, and the slot is free |
| List.Queue.InsertBefore | workshop/lib/kernel/list.c:15-31 | the pointer writes insert the element at one place of the list's sequence and keep all links |
| List.Queue.Remove | workshop/lib/kernel/list.c:48-57 | removes exactly that element |
| List.Queue.Pop | workshop/lib/kernel/list.c:60-68 | removes and returns the first element |
| List.Queue.Find | workshop/lib/kernel/list.c:71-91 | answers whether the element is in the list |
| List.Queue.Len | workshop/lib/kernel/list.c:123-138 | counts the elements |
| List.InsertedDistinct | workshop/lib/kernel/list.c:15-31 | inserting an element that is not there keeps the elements distinct, which is why elem_find is asserted before every append |
| List.RemoveUndoesInsert | workshop/lib/kernel/list.c:48-57 | removing what was inserted gives the old list back |
| IoQueue.StepInv | workshop/device/ioqueue.c:39-113 | no step of a producer or consumer stops the machine, so the wait slot is NULL whenever a thread records itself in it, and the invariant is kept |
| IoQueue.NothingLostOrMadeUp | workshop/device/ioqueue.c:59-113 | over every interleaving, bytes consumed followed by the ring are the bytes produced, which IoQueue.PutsArrive says are those of the callers; at most 63 are in the ring, and a thread in a wait slot holds the queue's lock |
| IoQueue.StepBytes | workshop/device/ioqueue.c:59-113 | from any state of the invariant: a call of ioq_putchar comes back exactly when it finds the ring not full, and then its own byte is behind those in the ring; ioq_getchar exactly when it finds a byte, and then the first one has been taken; no other step moves a byte |
| IoQueue.PutsArrive | workshop/device/ioqueue.c:89-113 | in every run the bytes consumed, followed by those in the ring, are the bytes with which the calls of ioq_putchar that have come back were made, in that order |
| IoQueue.StepWakes | workshop/device/ioqueue.c:31-113 | what a step wakes: the first thread that waits for the lock when it is let go, and whoever is in the other slot when a byte has come or gone, and nobody else; a thread whose call is not over holds the lock and its slot if the lock was free, and otherwise is last among those that wait for it |
| IoQueue.NeedlessConsumerIff | workshop/device/ioqueue.c:66-72 | from any state of the invariant, a step leaves a thread newly asleep in the consumer slot with a byte in the ring iff it resumes that thread in sema_down with the lock free and the ring not empty |
| IoQueue.NeedlessProducerIff | workshop/device/ioqueue.c:96-102 | the same for a producer and a ring that is not full |
| IoQueue.RunNeedlessIff | workshop/device/ioqueue.c:59-113 | no state of a run has a thread asleep in a slot without reason iff the run has no such step |
| IoQueue.KeyboardNeverNeedless | workshop/device/keyboard.c:227-234 | when bytes are put only into a ring that is not full and one thread gets them, nobody ever sleeps without reason |
| IoQueue.TwoConsumersOversleep | workshop/device/ioqueue.c:66-72 | a run in which the second of two consumers goes to sleep although the ring holds a byte |
| IoQueue.OnePairOversleeps | workshop/device/ioqueue.c:59-113 | a run of one producer, which fills the ring and waits, and one consumer, which then goes to sleep with a byte in the ring |
| IoQueue.StoredBehind | workshop/device/ioqueue.c:104-105 | storing at head puts the byte behind the ring's contents, across the wrap-around |
| Ring.Buffer.Store | workshop/device/ioqueue.c:104-105 | the array and head after a store hold the old bytes followed by the new one |
| Ring.Buffer.Fetch | workshop/device/ioqueue.c:74-75 | the byte fetched is the oldest one and the rest stays |
| Ring.Buffer.IsFull | workshop/device/ioqueue.c:23-28 | full means that 63 bytes are in the ring |
| Ide.StepInv | workshop/device/ide.c:197-332 | the only assertion a requester can fail is the address check of a later chunk; sema_up's and sema_down's never fail |
| Ide.HandshakeHolds | workshop/device/ide.c:312-332 | over all interleavings with stray interrupts, each command is matched by at most one sema_up, and when the channel lock is free disk_done is 0 and no interrupt is expected |
| Ide.CommandsOfCall | workshop/device/ide.c:197-309 | in every run, between taking the channel for cnt sectors from lba on and giving it up, exactly (cnt + 255) / 256 commands are issued, by anybody, the k-th for the sectors from lba + 256 * k on, 256 of them or what is left |
| Ide.RunAdvances | workshop/device/ide.c:197-309 | a step of a requester always leads on: it is never woken to find disk_done 0 |
| Ide.CallIsShort | workshop/device/ide.c:197-309 | in every run a call is over after at most five steps of its thread for every 256 sectors, and one |
| Ide.AddressArrives | workshop/device/ide.c:100-121 | the four register bytes put together again are the address |
| Ide.CountArrives | workshop/device/ide.c:135-148 | a count that travels in 8 bits, 256 as 0, means the same number of sectors |
| Ide.Disk.IdeRead | workshop/device/ide.c:197-254 | the chunk loop, with the chunks of the step relation, returns sectors lba to lba+cnt-1 in order, and stops iff a chunk would start past max_lba |
| Ide.Disk.IdeWrite | workshop/device/ide.c:256-309 | the chunk loop replaces exactly those sectors by the data |
| Bitmap.ScanIsFirstFit | workshop/lib/kernel/bitmap.c:27-98 | the repaired scan returns the first run of cnt clear bits or -1, and stops the machine iff the map is full |
| Bitmap.ShippedScanRightIff | workshop/lib/kernel/bitmap.c:17-24 | the shipped scan is right on all maps that are not full iff cnt is 1 |
| Bitmap.ShippedRightOnIff | workshop/lib/kernel/bitmap.c:63-98 | on a map that is not full the shipped scan for two bits or more is right iff the first run of the bits it reads, bit i % 8 of byte i, is the first run of clear bits, or neither exists |
| Bitmap.ShippedScanWrong | workshop/lib/kernel/bitmap.c:71-94 | for every cnt of 2 or more a map on which the shipped scan returns a run through a set bit |
| Bitmap.ScanOneIsFirstClear | workshop/lib/kernel/bitmap.c:32-62 | asked for one bit, the shipped scan answers the first clear one and stops on a full map |
| Bitmap.BitmapScan | workshop/lib/kernel/bitmap.c:27-98 | the method with the three loops computes the scan function, shipped or repaired |
| Bitmap.BitmapSet | workshop/lib/kernel/bitmap.c:101-120 | exactly one bit of the byte array changes |
| Bitmap.ScanTest | workshop/lib/kernel/bitmap.c:17-24 | the test reads the bit asked for when repaired, and bit bit_idx % 8 of byte bit_idx as shipped |
| Paging.PtePtrReachesPte | workshop/kernel/memory.c:109-118 | through the self-entry, *pte_ptr is the page-table entry of the address, and faults iff there is no page table |
| Paging.PdePtrReachesPde | workshop/kernel/memory.c:121-127 | *pde_ptr is its directory entry |
| Paging.AddrV2pTranslates | workshop/kernel/memory.c:325-333 | for a mapped address addr_v2p is the processor's translation |
| Paging.StoreMapsOnePage | workshop/kernel/memory.c:163-171 | the entry written maps exactly one page and leaves the translation of every other page alone |
| Paging.NewDirectory | workshop/userprog/process.c:83-106 | in a new page directory no user address is mapped, kernel addresses mean the same, and the self-entry works |
| PageWords.AddRepresents | workshop/kernel/memory.c:150-202 | what page_table_add stores, in an existing page table or after storing a directory entry and clearing a new table, stands for the mapping step of PageAlloc: the words again translate every user page to the frame it is mapped to |
| PageWords.RemoveRepresents | workshop/kernel/memory.c:529-535 | so does clearing the present bit for its unmapping step, and the address stays in the entry |
| PageWords.HeldIsAddrV2p | workshop/kernel/memory.c:325-333 | for every user page addr_v2p reads the frame that the entry holds or last held, 0 from an entry never written, and faults without a page table |
| PageWords.MemsetClearsTable | workshop/kernel/memory.c:186-194 | with the directory entry stored, the page of pte_ptr is the new page table, so the memset clears that |
| PageWords.NewRepresents | workshop/userprog/process.c:83-106 | the words create_page_dir leaves stand for a process without pages |
| PageAlloc.MapOneUserInv | workshop/kernel/memory.c:150-202 | mapping a page, with a new cleared page table if there is none, keeps bitmaps, page tables and pools in step and touches no other page |
| PageAlloc.PallocLowest | workshop/kernel/memory.c:130-147 | palloc takes the lowest free frame of its pool |
| PageAlloc.MallocUserPagesInv | workshop/kernel/memory.c:205-241 | malloc_page gives each page of the run a frame of its own that was free, and changes no other mapping |
| PageAlloc.GetKernelPagesInv | workshop/kernel/memory.c:244-259 | the same for kernel pages, which are zeroed while every frame in use keeps its content |
| PageAlloc.GetAPageInv | workshop/kernel/memory.c:280-322 | get_a_page maps exactly the page asked for and sets its bit |
| PageAlloc.FreeUserPagesInv | workshop/kernel/memory.c:568-634 | freeing mapped pages fails no assertion, returns exactly their frames and clears exactly their bits |
| PageAlloc.FreeKernelPagesInv | workshop/kernel/memory.c:605-634 | the same for kernel pages |
| PageAlloc.FreeUserPagesKeepsIff | workshop/kernel/memory.c:568-603 | mfree_page of any user pages, mapped or not, unmaps them, clears their bits and gives back every frame their entries hold or last held; that keeps bitmaps, tables and pools in step iff no other page, page table or kernel page has one of these frames |
| PageAlloc.FreeKernelPagesKeepsIff | workshop/kernel/memory.c:605-634 | the same for kernel pages |
| PageStale.FreedTwiceShares | workshop/kernel/memory.c:568-603 | from any state in step: allocate a page, free it, allocate its neighbour, and freeing the first page again takes the neighbour's frame, which the next allocation maps a second time |
| PageStale.FreedTwiceRun | workshop/kernel/memory.c:568-603 | for any two pages with one page table there is a run from mem_init on, of allowed calls, that ends there |
| PagePools.MallocUserPagesIff | workshop/kernel/memory.c:205-241 | for a clear run from the scan, malloc_page goes through iff the user pool has a frame for every page and the kernel pool one for every page table that is missing; its assertions never stop it |
| PagePools.GetKernelPagesIff | workshop/kernel/memory.c:244-259 | get_kernel_pages goes through iff the kernel pool has a frame for every page, and takes exactly as many |
| PagePools.MallocOrNullKeepsIff | workshop/kernel/memory.c:222-241 | with a palloc that answers NULL, and frames for the page tables, malloc_page returns NULL iff the user pool is short of a frame, and exactly then bitmaps and tables are out of step afterwards |
| PageRuns.StepInv | workshop/kernel/memory.c:56-241 | every call keeps the invariant between virtual bitmaps, page tables and pools, frees of unmapped pages included whose entries name nobody else's frame |
| PageRuns.RunsKeepInv | workshop/kernel/memory.c:720-801 | the invariant holds in every state of every run from mem_pool_init on, forks and new processes included |
| PageRuns.InvMeans | workshop/kernel/memory.c:505-634 | a virtual bit is set iff its PTE is present, no frame is mapped twice in one space or in two, and a pool bit is set iff the frame is exactly one mapped page or one page table |
| PageRuns.FreeUndoesMalloc | workshop/kernel/memory.c:568-634 | freeing a run just allocated restores all mappings, bits and frames except those of new page tables |
| PageRuns.ExecuteInv | workshop/userprog/process.c:109-133 | a new process starts with nothing mapped and the invariant kept |
| ForkPools.ExecuteKernelPages | workshop/userprog/process.c:109-144 | from clear runs that do not overlap, process_execute goes through iff the kernel pool has 25 frames; it keeps exactly the pages of the PCB, the bitmap and the page directory, which had been free, leaves every other kernel page and process as it was, and the new process has a clear bitmap and no page |
| Fork.CopyOneInv | workshop/userprog/fork.c:64-76 | one page is copied to a fresh frame of the child with equal content, all else that was in use being unchanged apart from the buffer |
| Fork.CopyPagesInv | workshop/userprog/fork.c:45-88 | the loops copy exactly the pages whose bits are set and leave the parent's page directory active |
| Fork.ForkClones | workshop/userprog/fork.c:144-179 | after fork the child maps exactly the parent's pages, with equal contents, in frames that were free; every other process's mappings and contents are as before |
| ForkPools.ForkKernelPages | workshop/userprog/fork.c:144-207 | from clear runs that do not overlap, the kernel pages that a fork keeps are exactly those of the child's PCB, bitmap and page directory: their bits are set and their frames were free; the buffer is free again, and every other kernel page is mapped as before and holds what it held |
| ForkPools.ForkIff | workshop/userprog/fork.c:45-207 | a fork goes through iff the user pool has a frame for every set bit of the parent's bitmap and the kernel pool 26 and one for every page table that these pages need |
| PageMachine.Memory.PageTableAdd | workshop/kernel/memory.c:150-202 | the method is the mapping function |
| PageMachine.Memory.MallocUser | workshop/kernel/memory.c:205-241 | the loop over the pages is malloc_page's function |
| PageMachine.Memory.MallocKernel | workshop/kernel/memory.c:244-259 | the loop and the clearing are get_kernel_pages' function |
| PageMachine.Memory.MfreeUser | workshop/kernel/memory.c:568-603 | the loop is mfree_page's function for user pages |
| PageMachine.Memory.MfreeKernel | workshop/kernel/memory.c:605-632 | and for kernel pages |
| PageMachine.Memory.CopyBodyStack3 | workshop/userprog/fork.c:45-88 | the byte and bit loops copy the pages that the function over bits copies |
| Heap.BlockIsSlot | workshop/kernel/memory.c:357-368 | arena2block and block2arena are inverse, and blocks stay inside their page |
| Heap.MallocInv | workshop/kernel/memory.c:371-502 | sys_malloc fails no assertion, and returns a new live allocation of at least the size asked for, or NULL with nothing changed; Heap.MallocServesIff says which |
| Heap.MallocServesIff | workshop/kernel/memory.c:371-502 | it returns an address iff the size is above 0 and below the pool's, and malloc_page gave it pages or the list of the smallest block size that fits is not empty |
| Heap.LargePlace | workshop/kernel/memory.c:410-428 | above 1024 bytes the address is behind the header of the new pages, which are as many as hold header and size and not one more; no list changes |
| Heap.BlockPlace | workshop/kernel/memory.c:436-498 | otherwise it is the first block of the list of the smallest size that fits, which loses it; no other list and no arena comes or goes |
| Heap.PagePlace | workshop/kernel/memory.c:454-498 | if that list is empty it is the first block of the new page, and the list is the rest of the page's blocks in the order of their addresses |
| Heap.FreeInv | workshop/kernel/memory.c:637-699 | sys_free of a live allocation fails no assertion on counts and free lists and removes exactly it; its arena is dropped iff nothing else in it is live |
| Heap.FreedIsLast | workshop/kernel/memory.c:668-691 | a freed block is last in its list while its arena stays; when the arena goes, the list loses the blocks of that page and keeps the order of the rest; no other list changes |
| Heap.LiveDisjoint | workshop/kernel/memory.c:371-502 | live allocations do not overlap |
| Heap.LiveMissesHeaders | workshop/kernel/memory.c:40-48 | a live allocation overlaps no arena header |
| Heap.LiveMissesFree | workshop/kernel/memory.c:490-498 | a live allocation overlaps no free block |
| Heap.ArenaHasLive | workshop/kernel/memory.c:678-691 | no arena is kept without a live allocation in it |
| Heap.AllFreed | workshop/kernel/memory.c:637-699 | when everything is freed, all pages have gone back and the free lists are empty |
| HeapMachine.Allocator.Malloc | workshop/kernel/memory.c:371-502 | the method with its loops computes sys_malloc's function |
| HeapMachine.Allocator.Free | workshop/kernel/memory.c:637-699 | the method with its loops computes sys_free's function |
| HeapRuns.MallocKeeps | workshop/kernel/memory.c:371-502 | over real pages, sys_malloc stops only where malloc_page does; the pages it gets belong to no arena, and afterwards every page of every arena of every heap is mapped and all heap invariants hold |
| HeapRuns.MallocServedIff | workshop/kernel/memory.c:371-502 | in the whole machine: an address comes back iff 0 < size < pool and malloc_page's scan had pages or the list of the smallest size that fits has a block, in which case no page is taken; then its heap has one live allocation more, and with NULL everything is as it was |
| HeapRuns.NewPagesAreZero | workshop/kernel/memory.c:410-464 | the pages sys_malloc gets hold zeros, and no frame that was in use is written |
| HeapRuns.FreeKeeps | workshop/kernel/memory.c:637-699 | sys_free of a live address, by the kernel or a process, fails no assertion, mfree_page's included, since the arena's pages are mapped when they go back; every other arena keeps its pages |
| HeapRuns.RunsKeepWorld | workshop/kernel/memory.c:336-354 | so the heap invariants (free lists without duplicates, cnt equal to the free blocks and below blocks_per_arena, blocks free iff not live) and the mapping of all arenas hold in every state of every run of sys_malloc, sys_free and process switches |
| Format.PlanFits | workshop/fs/fs.c:91-134 | the regions of a partition follow each other without overlap, the bitmaps and the inode table have room, and every block with a bit lies inside the partition |
| Format.BitmapRightIff | workshop/fs/fs.c:165-182 | the block bitmap that is written is right iff its last sector is full of blocks |
| Format.OneBitTooManyFree | workshop/fs/fs.c:166-180 | otherwise exactly the bit one past the last block is left free |
| Format.ExtraBlockOutsideIff | workshop/fs/fs.c:105-113 | when that bit's sector lies outside the partition |
| Format.RootBitSetIff | workshop/fs/fs.c:164-180 | the root directory's bit is set iff there are at least 8 blocks |
| InodeTable.DecodeEncode | workshop/fs/inode.c:102-166 | the 76 bytes of an inode read back give the inode |
| InodeTable.PatchedSectors | workshop/fs/inode.c:74-97 | reading one or two sectors, patching them and writing them back changes exactly the slot |
| InodeTable.SyncThenLoad | workshop/fs/inode.c:58-99 | with the full number, a later load returns the synced fields and every other slot's bytes are unchanged |
| InodeTable.ShippedSyncWorksIff | workshop/fs/inode.c:61 | the shipped inode_sync does that iff the number is below 256 |
| InodeTable.ShippedSyncLosesInode | workshop/fs/inode.c:61 | for every larger number a disk and inode for which it does not |
| InodeTable.DeleteClearsSlot | workshop/fs/inode.c:195-229 | inode_delete zeroes that slot and no other |
| InodeTable.Partition.InodeSync | workshop/fs/inode.c:58-99 | the method on the disk's bytes is the sync function |
| InodeTable.Partition.InodeDelete | workshop/fs/inode.c:195-229 | the method on the disk's bytes clears the slot |
| InodeTable.Partition.InodeOpen | workshop/fs/inode.c:102-166 | a listed inode is shared and its count goes up; on a miss it is read from its slot |
| InodeTable.OpensCounted | workshop/fs/inode.c:102-192 | along any run of opens and closes an inode is in the list iff it was opened more often than closed, and i_open_cnts is the difference |
| InodeTable.CloseUndoesOpen | workshop/fs/inode.c:169-192 | a close undoes an open |
| DirInsert.InsertRefines | workshop/fs/dir.c:148-273 | unless it would replace an index table, sync_dir_entry adds exactly one live entry, takes exactly the sectors that became used, all free before, keeps i_size equal to 24 times the live entries and touches nobody else's sector; when it fails nothing has changed |
| DirInsert.InsertRefinesIff | workshop/fs/dir.c:161-229 | a successful insertion does so iff it does not replace an index table, shipped or with the table loaded |
| DirInsert.InsertOkIff | workshop/fs/dir.c:175-273 | sync_dir_entry succeeds iff some block has an empty slot or is a gap, and the free sectors suffice if the first such block is a gap: one, or two at block 12 |
| DirInsert.AllocLowest | workshop/fs/file.c:90-102 | of the free sectors the lowest is taken |
| DirInsert.InsertFailsReplacing | workshop/fs/dir.c:205-221 | where it would replace the table it fails iff fewer than two sectors are free; with one free the old table is dropped from the inode, with none nothing changes |
| DirInsert.ReplacedTableLeaks | workshop/fs/dir.c:205-229 | replacing the table leaves the old one marked used and referred to by nobody |
| DirInsert.ShippedInsertLosesEntries | workshop/fs/dir.c:161-171 | as shipped, the entries behind the old index table are lost |
| DirInsert.InsertKeepsDots | workshop/fs/dir.c:148-273 | "." and ".." stay in the first sector |
| DirDelete.FoundIffNamed | workshop/fs/dir.c:305-361 | the block search finds an entry iff a live entry names the inode |
| DirDelete.DeleteRefines | workshop/fs/dir.c:276-437 | delete_dir_entry removes exactly the entry for the inode, gives back exactly the sectors and the index table that became empty, keeps i_size, and fails no assertion; when there is no such entry nothing changes |
| DirDelete.LastIndirect | workshop/fs/dir.c:382-395 | the count of indirect blocks says whether another one stays |
| DirDelete.DeleteKeepsDots | workshop/fs/dir.c:366 | the first sector is never given back |
| DirRead.SearchFindsLive | workshop/fs/dir.c:34-117 | a non-empty name is found iff a live entry carries it |
| DirRead.EmptyNameFindsFreeSlot | workshop/fs/dir.c:94 | the empty name finds a cleared slot |
| DirRead.FoundUnderItsNameIff | workshop/fs/dir.c:94 | an entry is found under the name it was given iff that name is shorter than 16 characters or the inode number's lowest byte is 0 |
| DirRead.SixteenFoundIff | workshop/fs/dir.c:94 | for a name of 16 characters: iff the inode number is a multiple of 256 |
| DirRead.ReadIndexes | workshop/fs/dir.c:440-515 | the k-th dir_read returns the k-th live entry in block order, then NULL, and its assertion never fires |
| DirRead.ReadsListDirectory | workshop/fs/dir.c:440-515 | from position 0, repeated dir_read lists every live entry exactly once, across gaps and both block levels, then NULL |
| DirRead.OnlyDotsOneSector | workshop/fs/dir.c:527-537 | a directory of "." and ".." alone has one sector, so dir_remove's assertion holds |
| DirHeads.InsertKeepsHeads | workshop/fs/fs.c:905-921 | insertion leaves "." and ".." in slots 0 and 1 of the first sector, where the parent is looked up |
| DirHeads.DeleteKeepsHeads | workshop/fs/fs.c:905-921 | so does deletion |
| DirEntries.SearchIsLookup | workshop/fs/dir.c:34-117 | search_dir_entry is lookup in the map from names to children, with "." and ".." |
| DirEntries.InsertAddsKid | workshop/fs/dir.c:148-273 | insertion adds one child to that map |
| DirEntries.DeleteRemovesKid | workshop/fs/dir.c:276-437 | deletion removes that child |
| DirEntries.EmptyIffNoKids | workshop/fs/dir.c:518-524 | the size test of dir_is_empty means that there are no children |
| DirEntries.NewDirRep | workshop/fs/fs.c:706-733 | the sector that mkdir writes is a directory without children |
| DirHandle.Handle.SyncDirEntry | workshop/fs/dir.c:148-273 | the method with its loops computes the insertion function |
| DirHandle.Handle.DeleteDirEntry | workshop/fs/dir.c:276-437 | the method with its loops computes the deletion function |
| DirHandle.Handle.SearchDirEntry | workshop/fs/dir.c:34-117 | the method with its loops computes the search function |
| DirHandle.Handle.DirRead | workshop/fs/dir.c:440-515 | the method with its loops computes one dir_read |
| DirSlots.InsertFillsFirst | workshop/fs/dir.c:175-273 | seen as 140 times 21 slots, a directory gets the new entry in its first free slot, a gap counting as 21 free ones, and no other slot changes |
| DirSlots.DeleteClearsOne | workshop/fs/dir.c:276-437 | deletion clears the one slot that names the inode and no other, whether its sector goes or stays |
| FileGrowth.FillTakes | workshop/fs/file.c:364-386 | the allocation loop puts distinct sectors, free before, at the new indexes and nothing else |
| FileGrowth.GrowKeeps | workshop/fs/file.c:268-472 | a file_write leaves exactly i_size/512+1 data blocks, those from before in their places and the new ones fresh, and an index block iff there are more than 12; it stops the machine iff the file would have 71680 bytes |
| FileGrowth.GrowOutcome | workshop/fs/file.c:268-472 | file_write stops the machine iff the file would have 71680 bytes and its first block is there or can be had, and otherwise succeeds iff it stays below and the free sectors cover the new blocks and the index block |
| FileGrowth.GrowSpoils | workshop/fs/file.c:330-472 | running out behind the first block leaves an inode that no longer fits its size, or sectors marked used that no inode has |
| FileGrowth.AppendsKeep | workshop/fs/file.c:305-472 | so does any sequence of successful appends |
| FileGrowth.ShippedSizeRightIff | workshop/fs/file.c:478-505 | with the one chunk that the shipped loop writes, the block count matches i_size iff the write ends before the sector after the next |
| FileGrowth.ReleaseGivesBlocks | workshop/fs/inode.c:232-277 | inode_release returns exactly the inode's blocks and index block, and fails no assertion |
| FileGrowth.LifeOfAFile | workshop/fs/inode.c:232-290 | a file created, appended to and deleted leaves the block bitmap as it was |
| FileHandle.Handle.Extend | workshop/fs/file.c:330-472 | the three situations with their loops compute the growth function |
| FileHandle.Handle.GrowBy | workshop/fs/file.c:268-472 | guard, first block and growth compute the whole growth function |
| FileHandle.Handle.WriteLoop | workshop/fs/file.c:478-505 | as meant, the loop appends all the bytes, keeps those before and every other sector |
| FileHandle.Handle.WriteLoopShipped | workshop/fs/file.c:478-505 | as shipped, it appends the first chunk only and returns minus its length |
| FileHandle.Handle.InodeRelease | workshop/fs/inode.c:232-277 | the method with its loop computes the release function |
| Paths.PathParse | workshop/fs/fs.c:232-257 | the pointer loops return the next component and the rest of the string |
| Paths.PathDepthCnt | workshop/fs/fs.c:260-284 | the depth is the number of names |
| Paths.NamesIntended | workshop/fs/fs.c:232-257 | with runs of slashes skipped, the names are the non-empty pieces between slashes |
| Paths.NamesShipped | workshop/fs/fs.c:232-257 | as shipped, they are the pieces before the first empty one |
| Paths.ShippedParseRightIff | workshop/fs/fs.c:234-238 | both agree iff no empty piece precedes a non-empty one |
| Paths.ShippedDropsBehindDoubleSlash | workshop/fs/fs.c:238 | "/a//b" loses its second component |
| Paths.NamesOfRender | workshop/fs/fs.c:232-257 | printing components and parsing them again gives them back |
| Paths.WashPath | workshop/shell/buildin_cmd.c:14-69 | the buffer that is appended to and truncated holds the stack fold of the components over "." and ".." |
| Paths.WashIdempotent | workshop/shell/buildin_cmd.c:14-69 | washing a washed path changes nothing |
| Paths.NamesOfWash | workshop/shell/buildin_cmd.c:14-69 | the names of a washed path are the folded components, none of them "." or ".." |
| Paths.MakeClearAbsPath | workshop/shell/buildin_cmd.c:72-91 | a relative path is put behind the working directory and washed |
| Paths.RelativePathFolds | workshop/shell/buildin_cmd.c:72-91 | which folds its components on top of the working directory's |
| Tree.AddFileKeeps | workshop/fs/file.c:106-206 | adding a file keeps the directory tree a tree |
| Tree.AddDirKeeps | workshop/fs/fs.c:654-774 | so does adding a directory |
| Tree.CutKeeps | workshop/fs/dir.c:527-551 | so does cutting off a file or an empty directory |
| Tree.InUseIffReachable | workshop/fs/fs.c:287-377 | an inode is in use iff plain names lead to it from the root |
| Tree.PathIsUnique | workshop/fs/fs.c:980-1038 | only one list of plain names leads to a directory |
| Tree.SearchIsWalk | workshop/fs/fs.c:287-377 | search_file on a path whose components resolve returns where they lead |
| Tree.WashedSearchAgrees | workshop/fs/fs.c:287-377 | and the same inode for the path and for its washed form |
| Tree.FileHidesTheRest | workshop/fs/fs.c:349-352 | search_file stops at a regular file and answers the same whatever follows |
| Tree.FoundPastFileIff | workshop/fs/fs.c:349-352 | something is found although the path leads nowhere iff a proper prefix of it leads to a regular file |
| Tree.SlashesFindJunk | workshop/fs/fs.c:366-376 | a path of slashes alone, other than "/", returns what dir_e held |
| Tree.CwdRoundTrip | workshop/fs/fs.c:980-1038 | the path of a directory is the only washed path that search_file takes back to it |
| FsState.RehousedRep | workshop/fs/dir.c:184-246 | a change of one inode's blocks leaves every other inode and its sectors as they were |
| FsState.DroppedRep | workshop/fs/inode.c:232-290 | releasing an inode leaves all others as they were and keeps the block bitmap exact |
| FileSystem.SearchAgrees | workshop/fs/fs.c:287-377 | search_file over the sectors is search_file over the tree they stand for |
| FileSystem.SearchParent | workshop/fs/fs.c:287-377 | on plain names, what is found is a child of the reported parent, and a missing last name is missing from it |
| FileSystem.CreateKeeps | workshop/fs/file.c:106-206 | a successful file_create adds one file to the tree and keeps bitmaps, inodes and sectors in step |
| FileSystem.MakeDirKeeps | workshop/fs/fs.c:654-774 | a successful sys_mkdir adds one empty directory |
| FileSystem.RemoveKeeps | workshop/fs/dir.c:527-551 | delete_dir_entry and inode_release fail no assertion and cut off exactly that child |
| FsRuns.FormattedRep | workshop/fs/fs.c:164-221 | what partition_format leaves, with the bitmap Format computes, is the tree of the root alone, from 8 blocks on |
| FsRuns.BitmapIsPadded | workshop/fs/fs.c:165-180 | the bitmap written is the root's bit, clear bits, one too many unless its last sector is full, and then ones to the end of its sectors |
| FsRuns.PaddingNeverTaken | workshop/fs/fs.c:59 | the mounted bitmap's ones at the end are never handed out and do not change what is |
| FsCalls.HaltsIff | workshop/fs/fs.c:382-902 | for either scan: a call stops the machine iff the root is to be removed, an append makes a file of 71680 bytes and has its first block, or, with the shipped scan, a bitmap is full where an inode or a sector is needed, counted before the call |
| FsRuns.StepKeepsIff | workshop/fs/fs.c:382-902 | for either scan: any other call keeps bitmaps, inodes and tree in step iff it is no insertion at block 12 of a directory with an index table, no mkdir whose entry finds no place, and no append that runs out behind its first block, all read off the state before the call |
| FsRuns.RunsAreSound | workshop/fs/fs.c:382-902 | for either scan: every state of every run of create, mkdir, unlink, rmdir and append from a formatted partition, without such calls, is a tree with exact bitmaps |
| FsRuns.SoundMeans | workshop/fs/fs.c:589-902 | an inode bit is set iff the inode is reachable from the root, every other inode is named by exactly one entry and a directory's ".." names that parent, and a block's bit is set iff exactly one inode refers to it |
| FsLeakRun.CreateReplacesTable | workshop/fs/dir.c:205-229 | on any formatted partition with room, 272 creates and 21 unlinks in the root, all sound and none leaking, lead to a state in which the next create succeeds and leaves the root's index table marked used and owned by no inode |
| FsLeakRun.ShippedLosesFile | workshop/fs/dir.c:161-171 | after 251 creates the insertion without the table loaded succeeds and the directory has no more entries than before |
| FsDisk.TableKeepsIff | workshop/fs/inode.c:58-99 | after any call that neither stops nor leaks, every inode's slot on disk holds the inode as it is in memory and the other slots are zero, iff the call is no append that fails with its first block taken and, with inode_sync as shipped, syncs no inode from number 256 on |
| FsDisk.RunsKeepTable | workshop/fs/inode.c:102-166 | so every state of a run without such calls is sound and its inode table right, with the shipped inode_sync as long as the run takes no inode number from 256 on |
| FsDisk.NumberTooLarge | workshop/fs/inode.c:61 | create 255 files, and for the next one, inode 256, no table that was right stays right with the shipped inode_sync, and every one does with the number kept whole |
| FsDisk.OneSectorLeft | workshop/fs/file.c:306-322 | writing 512 bytes or more to an empty file with one sector left fails and leaves that sector in the inode |
| FsRemovals.RmdirOnlyDirsIff | workshop/fs/fs.c:865-902 | a legal sys_rmdir does not stop, and removes nothing but an empty directory iff what it finds is not a regular file of 48 bytes |
| FsRemovals.RmdirTakesFile | workshop/fs/fs.c:878-893 | on a fresh partition: create a file, write 48 bytes, and sys_rmdir removes it |
| FsRemovals.UnlinkThroughFile | workshop/fs/fs.c:589-651 | on a path that goes on behind a regular file, sys_unlink removes the file and sys_rmdir does what it does on the file's own path |
| FsRuns.AppendKeeps | workshop/fs/file.c:268-511 | a successful append changes nothing but the file's own blocks |
| FsOutcomes.CreatableIff | workshop/fs/fs.c:382-445 | search_file misses the last name alone iff the names before it lead to a directory without that name, and that directory is the parent it reports |
| FsOutcomes.UnlinkOutcome | workshop/fs/fs.c:589-651 | sys_unlink succeeds iff the path, or a proper prefix of it, leads to a regular file; then exactly that name is cut off the tree, with its inode, and no inode but its directory's is different; in every other case that does not stop it fails with the partition unchanged |
| FsOutcomes.RmdirOutcome | workshop/fs/fs.c:865-902 | sys_rmdir succeeds iff the path leads to a directory without children, or it or a proper prefix of it to a regular file of 48 bytes; then exactly that name is cut off, and otherwise nothing changes |
| FsOutcomes.CreateOutcomeIff | workshop/fs/fs.c:397-445 | sys_open with O_CREAT succeeds iff the names before the last lead to a directory without that name, an inode is left and the directory has or can get a place for the entry; then, unless an index table is replaced, an empty file is there under that name, with the lowest free inode number, and no inode but the directory's is different; a failure changes nothing |
| FsOutcomes.MkdirOutcomeIff | workshop/fs/fs.c:654-774 | the same for sys_mkdir and a directory without children, which needs one more free sector; unless it loses that sector or replaces an index table |
| FsOutcomes.AppendOutcomeIff | workshop/fs/file.c:268-511 | opening a file and writing count bytes succeeds iff the path leads to a regular file, the size stays below 71680 and the free sectors cover the need; then that file is longer by count, its old blocks are in their places, and the tree, the inode bitmap and every other inode and its blocks are as before |
| FsMachine.ChildNameIs | workshop/fs/fs.c:924-977 | the first slot of the parent with the child's number is the child's entry |
| FsMachine.Partition.SearchFile | workshop/fs/fs.c:287-377 | the loop over the path string computes the search over the sectors |
| FsMachine.Partition.FileCreate | workshop/fs/file.c:106-206 | the method with its rollback computes the creation function |
| FsMachine.Partition.MakeDirectory | workshop/fs/fs.c:690-774 | the method with its rollback computes the mkdir function |
| FsMachine.Partition.RemoveEntry | workshop/fs/dir.c:546-550 | the method computes the removal function |
| FsMachine.Partition.SysOpenCreate | workshop/fs/fs.c:397-445 | on a washed path, the call with its depth test computes the creation that the runs speak of, whose outcome is FsOutcomes.CreateOutcomeIff |
| FsMachine.Partition.SysMkdir | workshop/fs/fs.c:654-774 | the same for sys_mkdir |
| FsMachine.Partition.SysAppend | workshop/fs/file.c:268-472 | opening a file and growing it on a washed path is the append that the runs speak of |
| FsMachine.Partition.SysUnlink | workshop/fs/fs.c:589-651 | the same for sys_unlink, whose outcome is FsOutcomes.UnlinkOutcome |
| FsMachine.Partition.SysRmdir | workshop/fs/fs.c:865-902 | the same for sys_rmdir with dir_is_empty and dir_remove |
| FsMachine.Partition.SysGetcwd | workshop/fs/fs.c:980-1038 | sys_getcwd ends, and its reversed and reassembled string is the path of the directory |
| FsMachine.Partition.Reassemble | workshop/fs/fs.c:1027-1036 | taking the string apart from the last slash puts the names into order |

## Left out

- The kernel's hardware side: ports, PIC, IDT, GDT, TSS, register layouts, switch_to, busy_wait timing, boot loader and print assembly.  switch_to is the change of the running thread, CR3 the active space.
- file_read (`workshop/fs/file.c:514-638`), which misses its intent in several places; file descriptor tables, write_deny, lseek, stat and open counts across close.
- elapsed_ticks, stack_magic, the all-threads list and the PCB's other fields; TASK_WAITING and TASK_HANGING are blocked threads.
- The child's use of heap blocks inherited through fork: its descriptors are reset while copied arenas still point at the parent's.
- The allocation failures of sys_malloc inside file-system calls, and the disk failing.
- Path buffers of 512 bytes and names of more than 16 characters running over their buffers; strings here have no bound.  The theorems about trees and runs are for names that path_parse's buffer of 16 bytes holds with their terminating 0.
- The order in which bitmaps, inodes and sectors reach the disk, and the wrong bitmap or offset at `workshop/fs/file.c:656` and `:660`: the bitmaps are those in memory.
- The data of regular files is modelled beside the block addresses, in FileHandle, and not in the runs of FsRuns.
- Keyboard, console, shell, printf and the other string helpers; partition_scan and mounting.
- Bitmap.Window: what lies behind a bitmap, which the shipped scan reads, is part of the memory window given to it.
- PageRuns.StepInv: assumes that bitmap_scan's run lies inside the virtual bitmap, because the shipped scan for several bits can end one bit past it and bitmap_set then writes outside.
- PagePools.MallocOrNullKeepsIff: assumes frames for the page tables, because with a NULL there page_table_add would enter physical page 0 as a page table and clear it.
- FsRuns.RunsAreSound: is about the inodes as they are in memory while they stay open; what of them reaches the inode table is in FsDisk.
- Ide.HandshakeHolds: lock_acquire and lock_release of the channel are one step each, because Sync proves what lies between them; requests and interrupts interleave everywhere else.
