# Operating-system laboratory programs, modelled in Dafny

A Dafny model of the algorithms in a collection of operating-systems exercises written in C, with proofs of
what they promise. Every size that the programs fix with a `#define` (threads, pages, frames, processes, heap
slots, cylinders, buffer slots) is a parameter here, so each statement holds for all of them. Code that changes
things in place is written as methods over arrays, fields and linked nodes, each proved against a function of the
old state; the statements over whole runs are then lemmas about those functions.

| module | what it models |
|---|---|
| `FilterLock`, `FilterFairness` | the N-thread Peterson filter lock: one shared read or write per step, every interleaving a schedule; safety, and progress under every fair schedule |
| `BoundedBuffer`, `BufferSchedules`, `BufferTermination` | producers and consumers on a circular buffer with three semaphores, one shared access per step; what every schedule keeps, schedules built for every configuration, and how every fair run ends |
| `FirstFit`, `PageAllocator` | the first-fit page allocator: the free list as a value, and the page descriptors and intrusive ring that carry it |
| `PageTables` | two-level page tables, page reference counts and the TLB, against a map from virtual page to mapping |
| `HeapLinks`, `StudentHeap` | a min-heap and a doubly linked list that share one array, and where each entry goes |
| `Matrices`, `Banker` | the banker's safety check and request handling |
| `Frames`, `Lru`, `LruStack`, `LruMatrix` | LRU page replacement: what it means, by a linked stack, and by a bit matrix |
| `Fifo`, `SecondChance`, `ClockQueue` | FIFO and the clock algorithm, the latter on its ring of linked nodes |
| `Division`, `Printing`, `Parsing`, `RoundTrip`, `Numerals` | 64-by-32-bit division, number printing into a bounded buffer, `strtol`, the two together, and the laws of both |
| `DiskArm`, `Elevator` | SSTF, SCAN and LOOK disk-arm scheduling |
| `Basics`, `Cyclic` | definitions shared by the above |

The concurrent programs are transition systems: `FilterLock.Next` and `BoundedBuffer.Next` perform the next shared
access of one thread, `Run` follows a schedule, and the lemmas speak of every schedule. Memory is sequentially
consistent. A thread that fails to start is a thread that is never scheduled. The consumer's loop test reads
`consume_num`, `item_num` and `END_FLAG` in that order, one step each.

The hardware side of `PageTables` follows sections 4.3 (32-bit paging) and 4.10 (cached translations) of the Intel
Software Developer's Manual, Volume 3A: at any moment the processor may cache any translation of the current
directory, or drop any (`Paging.HardwareFill`).

## Where the code and what is said of it differ

The model follows the code. Each difference is a proved statement.

- The allocator's comment keeps the free list in address order (default_pmm.c:86-89); a split puts the remainder
  first (line 174). `FirstFit.AllocByAddressIff` says when the order survives, `RemainderServedNext` what the
  reordering does to the next request, `OrderIsLost` a run that loses it. Maximal coalescing holds in any order.
- The entry `page_insert` writes for a page names that page exactly when the address bits of `perm` lie among the
  page's own: `PageTables.MadePteIff`.
- The banker grants negative requests. Conservation survives them; `Banker.GrantKeepsSignsIff` says which keep every
  quantity non-negative, `NegativeRequestIsGranted` shows one that does not. Its greedy check is complete where the
  old state is safe with non-negative allocations (`AcceptsFromSafe`) or the pretended allocations are non-negative
  (`AcceptsIffSafe`); `GreedyMissesOrder` is a run from non-negative claims that leads outside, to a safe request it refuses.
- The buffer programs "work properly" (alg.18-6-syn-pc-con-6.c:3): numbering, slots and order do. But some schedule
  leaves producers waiting forever exactly when there are at least two of them and at least as many items as slots
  (`BufferSchedules.StuckReachableIff`), and a run can end with exactly the numbers of items left that fit in the
  buffer and are made at all (`LeftBehindIff`), so with one item left in every configuration (`ItemLeftBehind`). Every fair run does come to
  its end or gets stuck in that one way (`BufferTermination.EveryFairRunEnds`).
- `printnum` allows base 1 (printfmt.c:32); for a number of at least the base its recursion gets a smaller number
  exactly when the base is above 1 (`Printing.QuotientShrinksIff`).
- The '-' flag is to pad on the right (printfmt.c:139); numbers are padded on the left, with dashes.
  `RoundTrip.DecimalReadsBackIff` says when what was printed is read back.
- `strtol` is said to take a "0X" prefix (string.c:199); `RoundTrip.PrefixReadIff` shows that reading then stops after
  the '0', and that the whole is read exactly with a small 'x'.
- The fault path of `LRU_stack` goes through the successor of the bottom node (page_replacement.c:219-220), which is
  null exactly when there is one frame (`LruStack.PageStack.BottomHasNextIff`): the first fault then follows a null
  pointer, so `LruStack.Run` requires two frames.
- `LOOK` adds the whole span of the requests when the head starts above them all (HDD_scheduling.c:317-319):
  `Elevator.Look` states the printed total exactly.

## Model

| member | source | states |
|---|---|---|
| `FilterLock.SomeoneWaits` | Labweek14/alg.15-1-peterson-counter.c:29-42 | if two live threads are past a room, the thread named by `waiting` of that room is still held in it |
| `FilterLock.RoomBound` | Labweek14/alg.15-1-peterson-counter.c:26-42 | at most n-1-r live threads are past the wait loop of room r |
| `FilterLock.CriticalIsAlone` | Labweek14/alg.15-1-peterson-counter.c:43-54 | two threads in the critical section are the same thread |
| `FilterLock.StepInv` | Labweek14/alg.15-1-peterson-counter.c:18-58 | every single shared access of any thread, in the middle of its scan too, keeps the invariant |
| `FilterLock.InitInv` | Labweek14/alg.15-1-peterson-counter.c:71-90 | the initial arrays satisfy the invariant |
| `FilterLock.MutualExclusion` | Labweek14/alg.15-1-peterson-counter.c:18-58 | after every schedule: all room bounds, one thread in the critical section, counter 0 or 1, the kill branch never taken |
| `FilterLock.SoloPass` | Labweek14/alg.15-1-peterson-counter.c:31-38 | a thread that was displaced, or that sees the room empty, gets out of its wait loop on its own steps alone |
| `FilterLock.SomeoneAdvances` | Labweek14/alg.15-1-peterson-counter.c:29-42 | while any thread is live, some schedule completes a stage and lowers the sum of the stages left |
| `FilterLock.NeverStuck` | Labweek14/alg.15-1-peterson-counter.c:18-58 | from every reachable state some finite continuation lets every thread through and out |
| `FilterFairness.FreeDrops` | Labweek14/alg.15-1-peterson-counter.c:31-38 | under any interleaving a thread that is free to pass, scheduled often enough, leaves its room unless some thread completes a stage first |
| `FilterFairness.EveryFairRunFinishes` | Labweek14/alg.15-1-peterson-counter.c:18-58 | after any schedule of the started threads, every continuation of so many rounds, each naming every started thread, finishes all of them; threads that never start hold nobody up |
| `BoundedBuffer.TokensStep` | Labweek15/alg.18-7-syn-pc-producer-6.c:27-46 | each step conserves the mutex, the empty slots (free, in hand, or holding an item) and the stock tokens |
| `BoundedBuffer.BufferedStep` | Labweek15/alg.18-8-syn-pc-consumer-6.c:27-40 | each step keeps every written, unconsumed item in its own slot and the taken items a prefix of the made ones |
| `BoundedBuffer.StepKeeps` | Labweek15/alg.18-7-syn-pc-producer-6.c:27-84 | every step of any thread or of the joining main thread keeps the whole invariant |
| `BoundedBuffer.InitHolds` | Labweek15/alg.18-6-syn-pc-con-6.c:95-121 | the initial shared memory and semaphores satisfy it, whatever the slots held before |
| `BoundedBuffer.TakenInOrder` | Labweek15/alg.18-8-syn-pc-consumer-6.c:27-40 | under every interleaving items are taken once each, in the order 1, 2, 3, ..., with the number and producer they were made with |
| `BoundedBuffer.ItemsStayInSlots` | Labweek15/alg.18-7-syn-pc-producer-6.c:31-41 | at most BUFFER_SIZE items are outstanding; item k stays in slot k mod BUFFER_SIZE until it is consumed, whatever the threads are doing, the newest item from when it is written |
| `BoundedBuffer.NeverEmptyHanded` | Labweek15/alg.18-8-syn-pc-consumer-6.c:28-30 | until the extra posts a consumer that has both semaphores finds an item |
| `BoundedBuffer.LeavesWhenDrained` | Labweek15/alg.18-8-syn-pc-consumer-6.c:27 | a consumer leaves only when all items are made, and if it last read the full count, all are consumed |
| `BoundedBuffer.StuckIff` | Labweek15/alg.18-7-syn-pc-producer-6.c:27-29 | in a reached state no thread can move though some have not returned exactly when every consumer has left and a producer waits on a full buffer |
| `BoundedBuffer.AllConsumedIff` | Labweek15/alg.18-8-syn-pc-consumer-6.c:27-41 | in a reached state where all have returned, every item was consumed exactly if some consumer's last loop test read the full item count |
| `BufferSchedules.StuckReachableIff` | Labweek15/alg.18-7-syn-pc-producer-6.c:27-29 | from the numbers the console reads: some schedule gets the system stuck exactly with two producers or more and no more slots than items |
| `BufferSchedules.LeftBehindIff` | Labweek15/alg.18-8-syn-pc-consumer-6.c:27 | a run can end, all threads returned and all posts made, with that many items unconsumed exactly when they fit in the buffer and are made at all |
| `BufferSchedules.ItemLeftBehind` | Labweek15/alg.18-8-syn-pc-consumer-6.c:27 | so in every configuration some run ends with an item left behind |
| `BufferTermination.MovesBounded` | Labweek15/alg.18-7-syn-pc-producer-6.c:27-84 | over every schedule, fair or not, the steps that change something number at most 22 for an item, 8 for a producer and 13 for a consumer, less one |
| `BufferTermination.AtRestIff` | Labweek15/alg.18-8-syn-pc-consumer-6.c:27-41 | nobody can move exactly when all have returned and all posts are made, or the system is stuck |
| `BufferTermination.EveryFairRunEnds` | Labweek15/alg.18-7-syn-pc-producer-6.c:27-84 | after any schedule, so many rounds, each naming every thread, bring the run to its end or to the stuck state, and to its end with one producer or more slots than items |
| `FirstFit.OneBlock` | Labweek11/lab2/kern/mm/default_pmm.c:185-245 | with disjoint, coalesced blocks, consecutive free pages lie in one block |
| `FirstFit.AllocFailsIff` | Labweek11/lab2/kern/mm/default_pmm.c:141-183 | an allocation fails exactly when no n consecutive pages are free |
| `FirstFit.BigRequestFails` | Labweek11/lab2/kern/mm/default_pmm.c:144-147 | the early return on the page count refuses nothing that the walk would grant |
| `FirstFit.AllocIsFirstFit` | Labweek11/lab2/kern/mm/default_pmm.c:150-158 | the block chosen is the first in list order that is large enough, and only that one |
| `FirstFit.AllocCovers` | Labweek11/lab2/kern/mm/default_pmm.c:159-182 | exactly the n granted pages leave the free list |
| `FirstFit.AllocOrder` | Labweek11/lab2/kern/mm/default_pmm.c:159-175 | one block leaves the list, its remainder, if any, comes first, and the others keep their order |
| `FirstFit.CarveKeeps` | Labweek11/lab2/kern/mm/default_pmm.c:168-179 | a split keeps blocks disjoint and coalesced and takes n from their total |
| `FirstFit.JoinCovers` | Labweek11/lab2/kern/mm/default_pmm.c:203-221 | the joining pass neither loses nor gains a page |
| `FirstFit.JoinCoalesced` | Labweek11/lab2/kern/mm/default_pmm.c:203-221 | after one pass nothing left in the list touches the grown block, whatever the list order |
| `FirstFit.FreeCovers` | Labweek11/lab2/kern/mm/default_pmm.c:185-245 | a free adds exactly the freed pages |
| `FirstFit.FreeKeeps` | Labweek11/lab2/kern/mm/default_pmm.c:185-245 | a free keeps the blocks disjoint and adds its size to their total |
| `FirstFit.FreeCoalesced` | Labweek11/lab2/kern/mm/default_pmm.c:185-245 | a free leaves no two blocks touching if none touched before |
| `FirstFit.FreeOrder` | Labweek11/lab2/kern/mm/default_pmm.c:203-244 | in a list of any order the freed block, grown to the free pages it touches, stands before the first remaining block after it in memory, or last, and the remaining ones keep their order |
| `FirstFit.AppendKeeps` | Labweek11/lab2/kern/mm/default_pmm.c:109-138 | a new region keeps the blocks disjoint, and coalesced if it touches none of them |
| `FirstFit.FreeByAddress` | Labweek11/lab2/kern/mm/default_pmm.c:223-244 | a free keeps an address-ordered list address-ordered |
| `FirstFit.AllocByAddressIff` | Labweek11/lab2/kern/mm/default_pmm.c:86-89 | an allocation keeps address order exactly when it takes the first block or leaves no remainder |
| `FirstFit.OrderIsLost` | Labweek11/lab2/kern/mm/default_pmm.c:168-175 | a legal run from one free block that ends with the list out of address order |
| `FirstFit.RemainderServedNext` | Labweek11/lab2/kern/mm/default_pmm.c:168-175 | a remainder is what the next request that fits in it gets |
| `FirstFit.RunSound` | Labweek11/lab2/kern/mm/default_pmm.c:140-245 | over every run of allocations and legal frees each page is free or lent, never both, blocks stay disjoint and maximal, and free plus lent pages are conserved |
| `FirstFit.AllFreeIsOneBlock` | Labweek11/lab2/kern/mm/default_pmm.c:185-245 | freeing everything in any order leaves one block covering the region |
| `PageAllocator.FreeArea.ListAdd` | Labweek11/lab2/libs/list.h:141-146 | the ring stays well linked with the entry between its two neighbours |
| `PageAllocator.FreeArea.ListDel` | Labweek11/lab2/libs/list.h:154-158 | the ring stays well linked without the entry, which keeps its own successor so that a walk on it goes on |
| `PageAllocator.FreeArea.constructor` | Labweek11/lab2/kern/mm/default_pmm.c:101-107 | an empty ring and no free page over pages that are all reserved |
| `PageAllocator.FreeArea.FindFit` | Labweek11/lab2/kern/mm/default_pmm.c:148-158 | the walk finds the block that first fit names, or none |
| `PageAllocator.CarvedDescribed` | Labweek11/lab2/kern/mm/default_pmm.c:159-182 | after a split the head marks, sizes and counts of the descriptors still describe the list |
| `PageAllocator.FreeArea.AllocPages` | Labweek11/lab2/kern/mm/default_pmm.c:140-183 | on descriptors and ring the result and the new list are those of the abstract first fit, nr_free is their sum, the granted pages are unmarked and usable |
| `PageAllocator.FreeArea.Absorb` | Labweek11/lab2/kern/mm/default_pmm.c:203-221 | one pass over a list that is being deleted from joins exactly what the abstract pass joins |
| `PageAllocator.FreeArea.FindPlace` | Labweek11/lab2/kern/mm/default_pmm.c:223-238 | the second walk stops at the first block after the freed one |
| `PageAllocator.FreedDescribed` | Labweek11/lab2/kern/mm/default_pmm.c:185-245 | after a free exactly the listed heads are marked, their sizes right, the freed pages' counts zero and all others as they were |
| `PageAllocator.FreeArea.FreePages` | Labweek11/lab2/kern/mm/default_pmm.c:185-245 | the list becomes the abstract free of the old one, nr_free grows by n |
| `PageAllocator.FreeArea.InitMemmap` | Labweek11/lab2/kern/mm/default_pmm.c:109-138 | a reserved region becomes one block at the end of the list |
| `PageTables.AddressParts` | Labweek11/lab2/kern/mm/mmu.h:203-215 | putting an address together from its directory, table and offset parts gives it back |
| `PageTables.AddressOfParts` | Labweek11/lab2/kern/mm/mmu.h:203-215 | the parts of a composed address are the ones it was composed of |
| `PageTables.SameIndices` | Labweek11/lab2/kern/mm/mmu.h:203-209 | two page numbers share directory and table index exactly when they are equal |
| `PageTables.MadePteIff` | Labweek11/lab2/kern/mm/pmm.c:465 | the entry written for a page names that page exactly when the address bits of `perm` are among the page's own |
| `PageTables.MadeFlags` | Labweek11/lab2/kern/mm/pmm.c:465 | it is present, with the flags of `perm` |
| `PageTables.RightsOfFull` | Labweek11/lab2/kern/mm/pmm.c:374 | under a directory entry whose flags are present, writable and user, the rights of a translation are those of its table entry |
| `PageTables.WalkAfterWrite` | Labweek11/lab2/kern/mm/pmm.c:465 | writing one table entry changes the hardware walk of exactly one page number of one directory |
| `PageTables.WriteEntry` | Labweek11/lab2/kern/mm/pmm.c:395-430 | so the tables refine the map with that one key updated or erased |
| `PageTables.AddTable` | Labweek11/lab2/kern/mm/pmm.c:363-375 | hanging in a cleared table changes no translation |
| `PageTables.AddTableCounted` | Labweek11/lab2/kern/mm/pmm.c:371-374 | the new table is named by exactly the one entry written, with a count of 1, and the counts of the other tables stay right |
| `PageTables.WriteCounted` | Labweek11/lab2/kern/mm/pmm.c:449-468 | writing a table entry leaves the count of every table the number of directory entries that name it |
| `PageTables.TableCountIsOne` | Labweek11/lab2/kern/mm/pmm.c:526 | so the reference count of every table in use is 1 |
| `PageTables.ErasedOk` | Labweek11/lab2/kern/mm/pmm.c:418-429 | after erasing one translation every count is again the number of entries naming the page, and exactly the pages that lost their last one are free |
| `PageTables.InsertedOk` | Labweek11/lab2/kern/mm/pmm.c:449-468 | the same after inserting one, for a new page, the same page again, or another page at that address |
| `PageTables.Paging.GetPte` | Labweek11/lab2/kern/mm/pmm.c:327-377 | no translation changes; the slot is the one the hardware walks, under an entry with exactly the flags present, writable and user, in a table with a count of 1; a new table is a free page, cleared, and nothing else is written; it fails only without a table when none is asked for or no page is free |
| `PageTables.Paging.PageRemovePte` | Labweek11/lab2/kern/mm/pmm.c:395-430 | one reference less, the page freed at zero, one translation erased, no stale cached translation left |
| `PageTables.Paging.PageRemove` | Labweek11/lab2/kern/mm/pmm.c:433-439 | the address space loses exactly one key, and its page is freed exactly when nothing names it any more |
| `PageTables.Paging.GetPage` | Labweek11/lab2/kern/mm/pmm.c:380-390 | the page the address space maps the address to, and nothing changes |
| `PageTables.Paging.MapAt` | Labweek11/lab2/kern/mm/pmm.c:454-466 | once the slot is found: one key set, what was mapped there released, every count right again, those of the tables too |
| `PageTables.Paging.PageInsert` | Labweek11/lab2/kern/mm/pmm.c:449-468 | the address space gets exactly one key set to the page with the rights asked for; a failed insert changes nothing; counts, free pages and cached translations agree with the tables |
| `PageTables.Paging.TlbInvalidate` | Labweek11/lab2/kern/mm/pmm.c:472-477 | no cached translation of the current directory contradicts the tables |
| `HeapLinks.SwapRenames` | Labweek7/SLList_MinHeap.c:199-234 | swapping two slots renames them in every link, also when the nodes are adjacent, share a neighbour or include the head |
| `HeapLinks.SwapKeepsList` | Labweek7/SLList_MinHeap.c:199-234 | the entries read from the head are the same in the same order, and the links stay mutually inverse |
| `HeapLinks.SwapEntries` | Labweek7/SLList_MinHeap.c:199-234 | in the array exactly the two entries change places |
| `HeapLinks.LinkFront` | Labweek7/SLList_MinHeap.c:165-179 | the new node comes first and the rest of the list is as before |
| `HeapLinks.Unlink` | Labweek7/SLList_MinHeap.c:336-341 | exactly one entry leaves the list, the others keep their order |
| `HeapLinks.ListIsArray` | Labweek7/SLList_MinHeap.c:237-342 | the linked list and the heap's part of the array hold the same multiset |
| `HeapLinks.SinkStep` | Labweek7/SLList_MinHeap.c:241-256 | one exchange with the smaller child moves the only defect of the heap one level down |
| `HeapLinks.RiseStep` | Labweek7/SLList_MinHeap.c:270-281 | one exchange with the parent moves it one level up |
| `HeapLinks.RisenPath` | Labweek7/SLList_MinHeap.c:270-281 | a pushed entry stops below the first ancestor that is not larger; each larger one it passed moves one down, and nothing else moves |
| `HeapLinks.SunkPath` | Labweek7/SLList_MinHeap.c:241-256 | a sinking entry passes, from the top, each smaller child, the left one of two with the same id, while that is smaller than itself; each moves one up, and nothing else moves |
| `HeapLinks.SunkHeap` | Labweek7/SLList_MinHeap.c:241-256 | sinking the only defect leaves heap order |
| `HeapLinks.RisenHeap` | Labweek7/SLList_MinHeap.c:270-281 | so does rising |
| `HeapLinks.HeapifiedHeap` | Labweek7/SLList_MinHeap.c:237-257 | sinking the entries of the upper half, the last first, makes a heap of any array |
| `HeapLinks.RootIsLeast` | Labweek7/SLList_MinHeap.c:345-347 | in a heap no id is below the root's |
| `StudentHeap.MinHeap.SwapHeapNode` | Labweek7/SLList_MinHeap.c:199-234 | list contents unchanged, the two entries exchanged, the head index follows a moved first node |
| `StudentHeap.MinHeap.InsertListAtHead` | Labweek7/SLList_MinHeap.c:165-179 | the entry is put in front of the list |
| `StudentHeap.MinHeap.InitialHeap` | Labweek7/SLList_MinHeap.c:237-257 | any array becomes a heap, each entry where sinking the upper half puts it, and the list does not change |
| `StudentHeap.MinHeap.PushHeap` | Labweek7/SLList_MinHeap.c:260-307 | the entry comes first in the list, everything else keeps its order, and the array is a heap again, with the entry where rising puts it |
| `StudentHeap.MinHeap.PopHeap` | Labweek7/SLList_MinHeap.c:310-342 | exactly the root's entry, a least one, leaves list and heap, and the last entry sinks from its place |
| `StudentHeap.MinHeap.ModifyIdByIndex` | Labweek7/SLList_MinHeap.c:445-453 | the entry of that slot gets the new id, in its place in the list, and the array becomes a heap, whether or not it was one |
| `StudentHeap.MinHeap.FindsAny` | Labweek7/SLList_MinHeap.c:355-409 | the recursive search fails exactly when no entry of the list is wanted |
| `StudentHeap.MinHeap.FindHeapIff` | Labweek7/SLList_MinHeap.c:355-409 | the slot found is the one wanted slot that comes first when each node is visited before its left and then its right subtree |
| `StudentHeap.MinHeap.ModifyId` | Labweek7/SLList_MinHeap.c:412-420 | the entry in the slot found gets the new id and the array becomes a heap; with none, nothing happens |
| `StudentHeap.MinHeap.Drain` | Labweek7/SLList_MinHeap.c:310-352 | topHeap and popHeap until the heap is empty yield every entry once, in ascending order of ids |
| `StudentHeap.DrainsSorted` | Labweek7/SLList_MinHeap.c:310-352 | any chain of least-first removals down to the empty list is ascending and complete |
| `Banker.ReturnedMore` | Labweek15/alg.17-1-bankers-5.c:56-97 | if none of them held anything negative, more finished processes have returned more of every resource |
| `Banker.SomeoneCanFinish` | Labweek15/alg.17-1-bankers-5.c:56-97 | if some order finishes all, then whatever greedy choices were made among processes holding nothing negative, some unfinished process can finish |
| `Banker.AcceptedIsSafe` | Labweek15/alg.17-1-bankers-5.c:56-107 | a choice that gets through is a safe order, for every state |
| `Banker.ChosenIff` | Labweek15/alg.17-1-bankers-5.c:56-97 | the sequence is the one that takes, each time, the first unfinished process that can finish, until none can |
| `Banker.AcceptsIffSafe` | Labweek15/alg.17-1-bankers-5.c:56-107 | with non-negative allocations the greedy choice gets through exactly when a safe order exists |
| `Banker.AcceptsFromSafe` | Labweek15/alg.17-1-bankers-5.c:56-107 | the same for a request of any signs made in a safe state with non-negative allocations |
| `Banker.GreedyMissesOrder` | Labweek15/alg.17-1-bankers-5.c:56-107 | completeness is not kept by every run: from non-negative claims with nothing allocated, two granted turns lead to a state in which a request within need and available and to a safe state is refused |
| `Banker.ExtendOrder` | Labweek15/alg.17-1-bankers-5.c:73-92 | adding a process that fits keeps the order feasible and the work vector right |
| `Banker.Bank.SafeCheck` | Labweek15/alg.17-1-bankers-5.c:49-114 | for every state and request, the sequence is the greedy choice and the answer whether it got through; a safe order if so, and exactly when one exists where the old state is safe with non-negative allocations or the pretended allocations are non-negative |
| `Banker.Bank.ResourceRequest` | Labweek15/alg.17-1-bankers-5.c:117-150 | for every state and request, the new state is that of one turn; granted exactly when within need, within available and accepted by the check, which from a safe non-negative state means safe afterwards; a refused request changes nothing |
| `Banker.Bank.constructor` | Labweek15/alg.17-1-bankers-5.c:158-166 | the initial state conserves claims and resources |
| `Banker.TurnConserves` | Labweek15/alg.17-1-bankers-5.c:135-148 | every turn of the program, with a request of any signs, keeps allocation plus need equal to the claim and available plus allocations equal to the resources |
| `Banker.HeldIsGranted` | Labweek15/alg.17-1-bankers-5.c:139-148 | over every run a process holds what it held at first and what it was granted since |
| `Banker.GrantKeepsSignsIff` | Labweek15/alg.17-1-bankers-5.c:117-150 | a granted request keeps every quantity non-negative exactly when it takes back no more than is held |
| `Banker.NegativeRequestIsGranted` | Labweek15/alg.17-1-bankers-5.c:119-133 | from a safe non-negative state, a request that the program grants and that takes a quantity below zero |
| `Banker.RunKeeps` | Labweek15/alg.17-1-bankers-5.c:117-150 | from a safe state every run of non-negative requests conserves, stays non-negative and stays safe |
| `Lru.ReflectsAlways` | Labweek17/page_replacement.c:171-238 | after every string the frames hold the most recent pages in recency order, unused frames following in index order |
| `Lru.FramesChange` | Labweek17/page_replacement.c:182-233 | a page stays in its frame while resident: a hit changes no frame, a fault only that of the least recent page, or the first unused one |
| `Lru.Residents` | Labweek17/page_replacement.c:182-233 | the resident pages are the F most recently used distinct ones, all of them if fewer |
| `Lru.ResidentIff` | Labweek17/page_replacement.c:182-233 | a page is resident exactly when it was used and fewer than F distinct pages were since |
| `Lru.Inclusion` | Labweek17/page_replacement.c:182-233 | the residents with fewer frames are among those with more |
| `Lru.MoreFramesFewerFaults` | Labweek17/page_replacement.c:182-233 | more frames never cost a fault |
| `LruStack.PageStack.BottomHasNextIff` | Labweek17/page_replacement.c:127-138 | the bottom node of a stack has no successor exactly when there is one frame |
| `LruStack.PageStack.MoveToTop` | Labweek17/page_replacement.c:190-206 | the doubly linked stack stays well linked with one node moved to its top |
| `LruStack.PageStack.Reference` | Labweek17/page_replacement.c:182-233 | one reference on nodes and frame table is one step of LRU |
| `LruStack.Run` | Labweek17/page_replacement.c:171-238 | the frames and faults it prints are those of LRU, for every reference string and at least two frames |
| `LruMatrix.OnesOfFrame` | Labweek17/page_replacement.c:241-254 | the ones in a used frame's row count the frames used no later than it |
| `LruMatrix.LeastIsBottom` | Labweek17/page_replacement.c:257-273 | the first row with the fewest ones is the least recently used frame, or the first unused one |
| `LruMatrix.FindLeastRow` | Labweek17/page_replacement.c:257-273 | the first of the rows with the fewest ones |
| `LruMatrix.Run` | Labweek17/page_replacement.c:287-334 | the frames and faults it prints are those of LRU, hence the same as the stack's |
| `Fifo.FramesAreLatestLoads` | Labweek17/page_replacement.c:80-114 | the frame d+1 places behind the victim index holds the load made d loads before the latest |
| `Fifo.NextIs` | Labweek17/page_replacement.c:103-107 | the victim index is the number of loads so far, modulo F |
| `Fifo.VictimIsOldest` | Labweek17/page_replacement.c:103-107 | a fault throws out the page loaded F loads ago, and before F loads takes an empty frame |
| `Fifo.NeverTwice` | Labweek17/page_replacement.c:92-107 | no page is ever in two frames |
| `Fifo.Run` | Labweek17/page_replacement.c:80-114 | frames and faults printed for every string are those of the FIFO function |
| `SecondChance.VictimIsFirstClear` | Labweek17/page_replacement.c:435-439 | the victim is the first zero-bit frame from the pointer, or the pointer's own frame if all bits are set |
| `SecondChance.SetBitLosesIff` | Labweek17/page_replacement.c:435-439 | a page whose bit is set is thrown out by the next fault exactly when the pointer is on it and all bits are set |
| `SecondChance.BitsAfterLoad` | Labweek17/page_replacement.c:435-446 | a fault clears the bits swept over, sets the victim's and leaves the others |
| `SecondChance.BitSetIff` | Labweek17/page_replacement.c:412-447 | over every string, a frame's bit is set exactly when its page was loaded or referenced since the hand last passed over that frame |
| `SecondChance.HandIs` | Labweek17/page_replacement.c:435-446 | over every string, the hand stands at the sum over all faults of the frames swept and one, modulo F; a hit does not move it |
| `SecondChance.FrameHoldsLastLoad` | Labweek17/page_replacement.c:412-447 | over every string, a frame holds the page last loaded into it, and none before the first |
| `SecondChance.SweepsAreEarned` | Labweek17/page_replacement.c:412-447 | over a whole string the sweeps pass over at most as many frames as there were references, less the bits still set |
| `SecondChance.NeverTwice` | Labweek17/page_replacement.c:412-447 | no page is ever in two frames |
| `SecondChance.WithoutHitsIsFifo` | Labweek17/page_replacement.c:401-456 | on a string without a hit under either algorithm second chance prints what FIFO prints |
| `ClockQueue.PageQueue.constructor` | Labweek17/page_replacement.c:347-358 | a circle of F empty nodes in frame order with the pointer on the first |
| `ClockQueue.PageQueue.Sweep` | Labweek17/page_replacement.c:435-439 | the sweep ends within one revolution and one look, at the victim, with exactly the bits before it cleared |
| `ClockQueue.Reference` | Labweek17/page_replacement.c:412-447 | one reference on ring and frame table is one step of the algorithm, and both hold the same pages afterwards |
| `ClockQueue.Run` | Labweek17/page_replacement.c:401-456 | frames and faults printed for every string are those of second chance |
| `Division.Divl` | Labweek11/lab2/libs/x86.h:14-15 | with the upper word below the divisor the quotient fits in 32 bits, and otherwise the instruction may not be used |
| `Division.DoDiv` | Labweek11/lab2/libs/x86.h:6-19 | the exact 64-bit quotient and remainder, the second division always within 32 bits |
| `Printing.SprintBuf.Put` | Labweek11/lab2/libs/printfmt.c:290-296 | every character is counted and the buffer holds the longest prefix that leaves room for the NUL |
| `Printing.SprintBuf.PrintNum` | Labweek11/lab2/libs/printfmt.c:36-52 | padding then digits, max(width, number of digits) characters in all |
| `Printing.SprintBuf.PrintDecimal` | Labweek11/lab2/libs/printfmt.c:226-233 | the sign first, then the padded magnitude, for every 64-bit number |
| `Numerals.DigitsIff` | Labweek11/lab2/libs/printfmt.c:36-52 | the digits printed are the one spelling of the number: of the base, small letters, no leading zero |
| `Numerals.PrintedText` | Labweek11/lab2/libs/printfmt.c:36-52 | in every base and width: padding that just fills the width, then that spelling |
| `Numerals.DecimalText` | Labweek11/lab2/libs/printfmt.c:226-233 | for every integer: a '-' first exactly if it is negative, then the padding, then the spelling of the magnitude |
| `Printing.SnprintfDecimal` | Labweek11/lab2/libs/printfmt.c:328-340 | the count of the untruncated text, the part of it that fits, a final NUL, nothing written past the size, and -E_INVAL without a buffer or room |
| `Parsing.LongStep` | Labweek11/lab2/libs/string.c:251 | wrapping to 32 bits at every digit is wrapping once |
| `Parsing.ReadDigits` | Labweek11/lab2/libs/string.c:233-253 | the longest run of digits of the base, valued and wrapped |
| `Parsing.Strtol` | Labweek11/lab2/libs/string.c:203-259 | value and end of blanks, sign, prefix and digits, in every base and on every string |
| `Numerals.BaseAccepts` | Labweek11/lab2/libs/string.c:233-250 | a base from 2 to 36 accepts exactly the first so many of 0-9a-z, small or capital, worth their positions |
| `Numerals.DigitAppended` | Labweek11/lab2/libs/string.c:251 | in every base one digit more gives the value so far times the base plus the digit, wrapped |
| `Numerals.TailIgnored` | Labweek11/lab2/libs/string.c:245-250 | what follows the digits changes nothing |
| `Numerals.BlankInFront` | Labweek11/lab2/libs/string.c:208-211 | before every string, a space or tab changes only the end |
| `Numerals.SignInFront` | Labweek11/lab2/libs/string.c:213-219 | before every string without a leading blank or sign, '+' changes only the end and '-' negates |
| `Numerals.SignOnce` | Labweek11/lab2/libs/string.c:208-219 | after a sign neither a blank nor a second sign is taken |
| `Numerals.BaseZeroIs` | Labweek11/lab2/libs/string.c:221-230 | for every string, base 0 is base 16 before "0x", base 8 before any other '0' and base 10 otherwise |
| `Numerals.BaseZeroReadsBack` | Labweek11/lab2/libs/string.c:221-230 | printed octal digits after a '0', hexadecimal ones after "0x" and decimal ones alone read back in base 0 |
| `Numerals.UpperReadsAlike` | Labweek11/lab2/libs/string.c:242-244 | every string reads the same with its letters made capital, unless a small 'x' is lost in base 0 or 16 |
| `RoundTrip.DigitsWriteNumber` | Labweek11/lab2/libs/printfmt.c:36-52 | the digits printed are digits of the base, write the number, and have no leading zero |
| `Printing.QuotientShrinksIff` | Labweek11/lab2/libs/printfmt.c:28-44 | the recursive call gets a smaller number exactly when the base is above 1 |
| `RoundTrip.PrefixReadIff` | Labweek11/lab2/libs/string.c:221-230 | of '0', an x of either case and hexadecimal digits, all is read exactly when the x is small; otherwise the value is 0 and reading stops after the '0' |
| `RoundTrip.PrintedReadsBack` | Labweek11/lab2/libs/string.c:203-259 | padded with spaces or zeros, in bases 2 to 16, a number is read back wrapped, so as itself exactly below 2^31 |
| `RoundTrip.DecimalReadsBackIff` | Labweek11/lab2/libs/printfmt.c:226-233 | for each padding a %d conversion can ask for, exactly which 32-bit numbers come back |
| `DiskArm.SetCylinders` | Labweek18/HDD_scheduling.c:498-504 | the array counts the requests of each cylinder |
| `DiskArm.FindNearest` | Labweek18/HDD_scheduling.c:473-495 | a pending cylinder none is nearer than, the lower of two as near, and -1 exactly when none is pending |
| `DiskArm.Sstf` | Labweek18/HDD_scheduling.c:75-107 | every request once, each time a nearest pending one, and the total is the distance travelled |
| `DiskArm.Sweep` | Labweek18/HDD_scheduling.c:128-147 | every request between the head and the bound is served in the order it lies, no other, and the distance is exact |
| `Elevator.Scan` | Labweek18/HDD_scheduling.c:110-189 | every request once, those ahead nearest first and then the rest on the way back, with the total in closed form, which is the distance through the stops and the end of the disk |
| `Elevator.Look` | Labweek18/HDD_scheduling.c:280-376 | the same order; the printed total is the distance travelled, plus the span of the requests when the head starts above them all |
| `Elevator.SameOrder` | Labweek18/HDD_scheduling.c:110-189 | the elevator's order is unique, so SCAN and LOOK serve alike |
| `Elevator.LookWithinScan` | Labweek18/HDD_scheduling.c:280-376 | LOOK's total is never above SCAN's unless the head starts above every request, and then exactly if: towards 0, the span is at most the least request; away from 0, the span plus twice the head's position is at most twice the last cylinder |

## Left out

- Printing, prompts, random input, `sleep`, process and shared-memory set-up: the models start from the values these deliver.
- Weak memory: the filter lock is modelled under sequential consistency, as its author assumes.
- Bounded buffer: only one order of the operands of the consumer's loop test is modelled; a thread that fails to start stays at its first step, so the joining main thread then never posts.
- PageAllocator.FreeArea.AllocPages: does not model the 32-bit wrap of `nr_free` and sizes, since a physical memory holds fewer pages; ring entries are page numbers, with the list head as one more, instead of addresses.
- `boot_map_segment` and the self-mapped directory slot of pmm.c: they write entries without reference counts, so they are outside the counted address spaces of `PageTables`.
- Accessed and dirty bits, large pages, and the paging-structure caches beside the TLB.
- PageTables.Paging.PageInsert: requires a page that is neither a table nor free, and a `perm` whose address bits are among the page's own; with others the entry names another page (`MadePteIff`), whose count then is not kept.
- StudentHeap.MinHeap.PushHeap: requires a free slot, as nothing in the source guards a full array; the 20-byte bound of `name` is not modelled, and names are compared as values.
- The heap's `flag` field: it is cleared on the list head rather than the root and never read.
- `modifyName`, `modifyIdAndName` and their index forms: names take no part in the heap's order, and ids change as in `modifyId`.
- LruMatrix.Run: requires that page -1 is not referenced, since -1 marks an empty frame; one frame is allowed here and not in `LruStack.Run`.
- `free_PageStack` and `free_PageQueue`: memory release.
- Conversions other than numbers, parsing of the format string, and `long long` arguments to `strtol`; signed overflow of a long is taken to wrap.
- FCFS, C_SCAN and C_LOOK: FCFS serves in the order given, the other two repeat the sweep of SCAN and LOOK.
- Initial requests or heads outside the cylinders: the source then indexes outside its array.
