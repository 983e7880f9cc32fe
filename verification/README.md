# Three systems programs: paging, map-reduce, user-level threads

This project models three components of the repository and proves what each of them is for.

**Paging (ex4).** A radix tree of page tables lives in the frames of RAM; pages that do not fit are
in a swap map. `PagedMemory` holds RAM as an array of frames and the swap map, and has the methods
of `VirtualMemory.cpp` and `PhysicalMemory.cpp` with their loops. `Geometry` keeps the three width
macros symbolic. The tree itself is known to proofs only: a list that gives, for each frame in the
tree, the digits that lead to it and the frame of its parent table. The main result is that the
library answers every sequence of reads and writes like a flat array of words, through any number
of evictions and restores.

The evict path does not do this as it is written, so the class has a constant `repaired`:

- `repaired == false` is the source as written. `evict` zeroes the victim's frame before it saves
  it, and then runs a loop over the ancestors that writes to an address equal to a table's frame
  number. The call is followed up to its first eviction, which always loses a page; `lost` reports
  that. A call evicts exactly when its page and the pages that hold a non-zero word, with all
  tables on the way to them, are more than RAM has frames (`FrameDemand.Fits`, a condition on the
  flat memory and the address alone). So a run is transparent as written exactly when every access
  fits when it is made; it always is when the pages it touches fit together.
- `repaired == true` saves the frame first, then zeroes it, and leaves the ancestor loop out. An
  emptied table stays linked until `findFreeTable` reclaims it.

`FaultStep.ServedExact` states exactly when one round of the fault loop keeps every page, and
`PagingExamples` shows the two defects: one on a new memory, one on a sound full RAM.

**Map-reduce (ex3).** Threads drain an input vector under a mutex, meet at a barrier, thread 0
groups the emitted pairs by key, they meet again and drain the groups. `Barrier` and `MapReduce` are
step machines with one program counter per thread, for any number of threads and any interleaving;
a step is one thread's action between two points where another thread may run. `MapReduceJob` has
the objects whose fields the source changes, with one method per atomic action, each proved against
the step machine, and `RunJob`, which drives a whole job under an arbitrary scheduler. The barrier
is the source's own algorithm, with its mutex and wait set, not a library barrier. Its wait is
guarded by `if`, so its safety needs the hypothesis that `pthread_cond_wait` never wakes without a
broadcast (IEEE Std 1003.1 permits such wake-ups); the three `SpuriousWake` lemmas say when one of
them breaks safety and when it does not.

`getJobState` holds the mutex but reads the stage twice, and threads write the stage without the
mutex, so a report can pair the percentage of one stage with the name of the next. Reported progress
therefore does go back: `MapReduceReports` gives a run of every job in which it does, and states
exactly when a report is in order with the next one and with any later one.

**Threads (ex2).** A table of threads, a queue of thread objects that may hold duplicates and entries
of threads that are gone, a mutex owner and a list of its waiters. `Scheduler` gives each library call
and each timer tick as one atomic step on a state in which threads have an identity; `UThreads` has
the objects and methods of `uthreads.cpp` with their loops, each proved against its step.
The other `Scheduler` modules hold what is true of every step and every run; `SchedulerExact` says,
entry by entry and in order, what a step makes of the queue, the waiters and every status. The ready
scan dereferences the end
of the queue when it finds nothing to run; the model answers `None` there and states exactly when
that happens. An entry of a dead thread whose id was given out again runs the new thread, even a
BLOCKED one; `SchedulerStale` states exactly when. The field `parked` is history: it records that a
thread was last blocked by the mutex.

Where the code and its comments disagree, the model follows the code: `uthread_mutex_unlock` makes
every waiter READY, not one (ex2/uthreads.cpp:456); `uthread_resume` is not without effect on a READY
or RUNNING thread (ex2/uthreads.cpp:230-231), nor does it spare a thread that waits for the mutex;
`uthread_terminate` leaves the queue and waiter entries of the thread behind (ex2/uthreads.cpp:157-158).

## Model

| member | source | states |
|---|---|---|
| Geometry.FoldOfDigits | ex4/VirtualMemory.cpp:80-96 | Folding `convert` over the digits of a page number gives the page number back, for every page the digits can hold, with a narrower root digit too. |
| Geometry.DigitsOfFold | ex4/VirtualMemory.cpp:31-33 | Every in-range digit string is the path of a page in range, and of that page only. |
| Geometry.FoldOrder | ex4/VirtualMemory.cpp:210 | The page number a path folds to grows with the first digit in which two paths differ. |
| Geometry.AliasOfPage | ex4/VirtualMemory.cpp:83-88 | The path of an out-of-range page number is that of exactly one page in range; the two are equal iff the number was in range. |
| Geometry.LastConvertStaysInFrame | ex4/VirtualMemory.cpp:416 | The final address computation at depth TABLES_DEPTH - 1 never makes words of different frames collide iff a single-level root table is as wide as a page. |
| Geometry.CountIsPow2 | ex4/VirtualMemory.cpp:28-36 | The number of paths of length d is two to the number of bits their digits take. |
| Geometry.WidthsGiveGeometry | ex4/MemoryConstants.h:62-80 | For any three widths the sizes are those of the macros, and the geometry is usable iff RAM holds one path with its page and a single level has full width. |
| PageTree.PathsUnique | ex4/VirtualMemory.cpp:293-322 | In a well-formed tree no two frames are reached by the same digits, so each frame has one parent slot. |
| PageTree.WalkReaches | ex4/VirtualMemory.cpp:296-319 | Walking from the root along a frame's digits ends at that frame. |
| PageTree.WalkMissing | ex4/VirtualMemory.cpp:311-318 | A walk stops at a missing link iff no frame of the tree has that path; otherwise it ends at the frame that has it. |
| PageTree.ContentsOf | ex4/VirtualMemory.cpp:346-393 | A page's words are in its frame if it is mapped, else in the swap map if it is there, else zero. |
| FrameSearch.FreeSlotFound | ex4/VirtualMemory.cpp:147-167 | A frame that the search reports is an all-zero, non-root frame of the tree, is not the table being filled, and hangs from exactly the slot that is reported. |
| FrameSearch.FreeSlotExact | ex4/VirtualMemory.cpp:147-167 | With the marker set, the search finds nothing iff every frame of the tree but the root and the table being filled holds a non-zero word. |
| FrameSearch.FirstReclaimable | ex4/VirtualMemory.cpp:155-165 | The frame that is reported comes first in digit order: where its path first differs from that of any other reclaimable frame, its digit is the smaller. |
| FrameSearch.CountBelowIsSize | ex4/VirtualMemory.cpp:133-146 | The recursive count below a table is the number of frames strictly below it. |
| FrameSearch.TreeSizeExact | ex4/VirtualMemory.cpp:133-146 | `maxFrame` is the number of frames in the tree, so it names the first frame outside it. |
| VictimSearch.HeaviestImproves | ex4/VirtualMemory.cpp:181-219 | The search below any frame keeps the record it was given unless a page below weighs more, and then holds the heaviest of these with the lowest page number. |
| VictimSearch.VictimIsArgMax | ex4/VirtualMemory.cpp:229-234 | The victim has maximal path-plus-page parity weight over all mapped pages, ties go to the smallest page number, `father` is its one parent slot, and walking the reported page's path reaches its frame. |
| VictimSearch.PageBelow | ex4/VirtualMemory.cpp:147-167 | When nothing can be reclaimed, below every frame off the path being filled there is a mapped page with a non-zero word. |
| VictimSearch.FullRamHasPage | ex4/VirtualMemory.cpp:368-371 | When RAM is full and nothing can be reclaimed, a mapped page exists, so there is something to evict. |
| TreeUpdate.MovedShape | ex4/VirtualMemory.cpp:363-376 | Unlinking a childless frame, zeroing it and hanging it from the missing slot keeps the heap shape. |
| TreeUpdate.FreshShape | ex4/VirtualMemory.cpp:369-376 | Hanging the first frame outside the tree from the missing slot keeps the heap shape. |
| TreeUpdate.MovedContents | ex4/VirtualMemory.cpp:363-376 | Such a move changes no page's contents, if the page that was in the frame is saved or was zero. |
| TreeUpdate.UnlinkDropsOne | ex4/VirtualMemory.cpp:158-161 | Zeroing the one parent slot of a childless frame drops that frame from the tree and no other. |
| FaultStep.FatherSlot | ex4/VirtualMemory.cpp:208-240 | The address in a victim's record is inside RAM and is the victim's one parent slot. |
| FaultStep.EvictRepairedIs | ex4/VirtualMemory.cpp:229-249 | The repaired evict clears the victim's slot, saves its frame under its page number and zeroes the frame. |
| FaultStep.EvictKeeps | ex4/VirtualMemory.cpp:370-376 | Evicting the victim and linking its frame keeps the shape, the swap discipline and every other page's contents. |
| FaultStep.ProvidedKeeps | ex4/VirtualMemory.cpp:359-376 | A reclaimed, fresh or (repaired) evicted frame is linked zeroed, and every page but the one at the new slot keeps its contents. |
| FaultStep.FrameChoice | ex4/VirtualMemory.cpp:359-376 | A round uses the reclaimable frame that is first in digit order, taken out of its slot; without one, the first frame outside the tree; in a full RAM, the frame of the heaviest page with the lowest number. |
| FaultStep.RestoredOwnPage | ex4/PhysicalMemory.cpp:68-87 | Restoring the faulting page completes the round: the page leaves the swap map and every page reads as before. |
| FaultStep.RestoredAlias | ex4/VirtualMemory.cpp:388 | For an out-of-range page number nothing is restored; every page keeps its contents iff the page it aliases is not in the swap map. |
| FaultStep.PruneOnlyZeroes | ex4/VirtualMemory.cpp:252-284 | The ancestor loop changes words to zero and nothing else. |
| FaultStep.WalkOnlyStops | ex4/VirtualMemory.cpp:252-284 | When table words are only zeroed, every walk ends where it ended or stops. |
| FaultStep.AsWrittenLoses | ex4/VirtualMemory.cpp:240-249 | As written, every eviction loses its victim: the page held a non-zero word and reads as zero afterwards. |
| FaultStep.ServedLinks | ex4/VirtualMemory.cpp:351-390 | A round that is repaired or evicts nothing keeps the heap shape, links one more level of the faulting path, and keeps all pages unless it completes a walk whose aliased page is in the swap map, which it then loses. |
| FaultStep.ServedExact | ex4/VirtualMemory.cpp:351-390 | A round keeps every page's contents iff it is repaired or does not evict, and completes no out-of-range walk whose aliased page is in the swap map. |
| PagedMemory.PagedMemory.constructor | ex4/PhysicalMemory.cpp:21-23 | A new memory has a well-formed tree, and every page is zero. |
| PagedMemory.PagedMemory.PMread | ex4/PhysicalMemory.cpp:25-37 | Every address below RAM_SIZE is inside RAM, and its word is returned. |
| PagedMemory.PagedMemory.PMwrite | ex4/PhysicalMemory.cpp:39-51 | Exactly the addressed word changes. |
| PagedMemory.PagedMemory.PMevict | ex4/PhysicalMemory.cpp:53-66 | The frame is saved under its page number; the three asserts are preconditions that every caller meets. |
| PagedMemory.PagedMemory.PMrestore | ex4/PhysicalMemory.cpp:68-87 | A saved page moves into the frame and leaves the swap map; a page that is not saved changes nothing. |
| PagedMemory.PagedMemory.TableIsClear | ex4/VirtualMemory.cpp:38-51 | True iff every word of the frame is zero. |
| PagedMemory.PagedMemory.FindFreeTable | ex4/VirtualMemory.cpp:147-167 | Returns the frame in the slot that the specified search finds and zeroes that slot alone, or returns -1 and changes nothing. |
| PagedMemory.PagedMemory.MaxFrame | ex4/VirtualMemory.cpp:133-146 | Counts the table and all frames below it. |
| PagedMemory.PagedMemory.FindMaxFrameWeight | ex4/VirtualMemory.cpp:181-219 | Returns the record of the specified search, whose result is the exact arg-max. |
| PagedMemory.PagedMemory.Search | ex4/VirtualMemory.cpp:293-322 | Returns the frame of the path, or the address and depth of the first missing link, which is an empty slot of a table of the tree. |
| PagedMemory.PagedMemory.GetPath | ex4/VirtualMemory.cpp:80-96 | Returns the digits of the address's page number, whose folding gives the page back. |
| PagedMemory.PagedMemory.ClearFrame | ex4/VirtualMemory.cpp:244-247 | Exactly the frame's words become zero. |
| PagedMemory.PagedMemory.PruneAncestors | ex4/VirtualMemory.cpp:252-284 | Does what the specified ancestor loop does. |
| PagedMemory.PagedMemory.Evict | ex4/VirtualMemory.cpp:229-285 | Carries out the evict of its mode on the exact victim and returns the victim's frame. |
| PagedMemory.PagedMemory.Reclaim | ex4/VirtualMemory.cpp:359-367 | Sets the marker, searches and removes the marker: nothing is reclaimed iff no frame but the root and the table being filled is zero; otherwise the first such frame in digit order is, and only its slot changes. |
| PagedMemory.PagedMemory.ProvideFrame | ex4/VirtualMemory.cpp:359-375 | Yields a reclaimed, else fresh, else evicted frame, and reports exactly whether it evicted; PMevict's asserts hold. |
| PagedMemory.PagedMemory.ServeFault | ex4/VirtualMemory.cpp:359-389 | One round of the fault loop is the specified round. |
| PagedMemory.PagedMemory.Round | ex4/VirtualMemory.cpp:351-390 | A round is lost iff it is as written and the guard of the evicting branch holds, and then some page that held a non-zero word reads as zero; otherwise the next missing link is strictly deeper and memory is as before, unless an aliased page was in the swap map. |
| PagedMemory.PagedMemory.GetPAddr | ex4/VirtualMemory.cpp:346-393 | The call is lost iff it is as written and the page does not fit beside the pages in use; otherwise the fault loop ends with the page in the frame it returns, and all pages are unchanged iff it completed no out-of-range walk whose aliased page is in the swap map. |
| PagedMemory.PagedMemory.VMread | ex4/VirtualMemory.cpp:396-420 | A legal read returns the flat memory's word and changes no word; an illegal one returns 0, and keeps memory iff the page it aliases is not in the swap map; as written this holds iff the page fits beside the pages in use, and a page is lost otherwise. |
| PagedMemory.PagedMemory.VMwrite | ex4/VirtualMemory.cpp:422-454 | A legal write changes exactly its own word of the flat memory; an illegal one returns 0, and keeps memory iff the page it aliases is not in the swap map; as written this holds iff the page fits beside the pages in use, and a page is lost otherwise. |
| PagedMemory.PagedMemory.Run | ex4/VirtualMemory.cpp:396-454 | Over any sequence of legal accesses the replies and the final memory are those of a flat array; as written exactly when every access fits when it is made, and otherwise up to the first that does not. |
| PagedMemory.RunFromStart | ex4/VirtualMemory.cpp:396-454 | A new paged memory answers every sequence of legal accesses like an array of zeros, as written exactly when every access fits. |
| FlatMemory.WordWidth | ex4/VirtualMemory.cpp:398 | The bound of the first address check is the virtual size shifted by 32 bits. |
| FrameDemand.WillEvictIff | ex4/VirtualMemory.cpp:147-167 | A fault evicts iff the root, the walks to the mapped non-zero pages and the existing part of the faulting walk take at least as many frames as RAM has. |
| FrameDemand.EvictionNeedsRoom | ex4/VirtualMemory.cpp:351-376 | Without swapped pages, a fault that evicts shows that the faulting page, the pages in use and their tables do not fit into RAM. |
| FrameDemand.MappedFits | ex4/VirtualMemory.cpp:351-376 | Without swapped pages, a mapped page fits beside the pages in use. |
| FrameDemand.TouchedFits | ex4/VirtualMemory.cpp:351-376 | From zeroed memory, if the root, the tables and the pages of all addresses a run touches fit into RAM, every access fits. |
| FrameDemand.WholeTreeRunFits | ex4/MemoryConstants.h:32-44 | When RAM holds the full tree, every access of every run fits. |
| PagingExamples.ConfigurationsThatFit | ex4/MemoryConstants.h:32-42 | RAM holds the full tree in the two configurations named for having no eviction and unreachable frames, so as written every run of these is transparent. |
| PagedMemory.RoundKeeps | ex4/VirtualMemory.cpp:351-390 | A round without a lost victim reaches one level further down the path; as written, a memory that never swapped still has not. |
| PagedMemory.WordWritten | ex4/VirtualMemory.cpp:437-438 | Writing a word of a page's frame changes exactly that word of the flat memory. |
| PagingExamples.EvictionLosesAWrite | ex4/VirtualMemory.cpp:244-249 | On a new memory of two frames the write of 7 to address 0 succeeds, the read of address 2 evicts, and page 0 reads as zero afterwards. |
| PagingExamples.PruneChangesNothingIff | ex4/VirtualMemory.cpp:258-283 | The ancestor loop changes nothing iff every table it visits before one that still has an entry has a zero word at the address equal to its frame number, for any number of levels. |
| PagingExamples.PruneSeversALiveTable | ex4/VirtualMemory.cpp:229-285 | On a sound full RAM whose victim is page 0, the as-written round makes each of the four pages under another table read as zero and leaves the emptied table linked. |
| Barrier.LastArrival | ex3/Barrier/Barrier.cpp:32-38 | The thread that completes the count finds every other thread in the wait set. |
| Barrier.StepInv | ex3/Barrier/Barrier.cpp:26-48 | Every step of every thread keeps: the count is the number of waiting threads, the mutex is held by exactly the thread that is in its critical section, and each thread's calls agree with the broadcasts. |
| Barrier.BarrierSafe | ex3/Barrier/Barrier.cpp:26-48 | In every run of any number of threads, a thread that has returned from its k-th call proves that all threads have arrived at their k-th, even when fast threads call again before slow ones wake. |
| Barrier.SomeoneMoves | ex3/Barrier/Barrier.cpp:28-44 | In every reachable state some thread can take a step. |
| Barrier.SpuriousWakeBreaksSafety | ex3/Barrier/Barrier.cpp:32-36 | With a free mutex, every wake-up without a broadcast lets its thread return before some thread has arrived. |
| Barrier.SpuriousWakeAtLastArrival | ex3/Barrier/Barrier.cpp:32-43 | While the last arrival holds the mutex such a wake-up changes nothing: nobody else can move and the broadcast leaves the same state. |
| Barrier.SpuriousWakeWhileHeld | ex3/Barrier/Barrier.cpp:32-43 | While any other thread holds the mutex, it lets its thread return too early as soon as the mutex is released. |
| Shuffle.InsertGrouping | ex3/MapReduceFramework.cpp:154-159 | One pass of the inner loop keeps the grouping: one entry per key in key order, each with the stable filter of the pairs so far. |
| Shuffle.ShuffleGroups | ex3/MapReduceFramework.cpp:148-163 | Each key's vector is the concatenation of all intermediate vectors filtered to that key in order, no group is empty and every pair has its group, for any strict weak order. |
| Shuffle.KeyOfFirstPair | ex3/MapReduceFramework.cpp:155-158 | Each entry keeps the key of the first pair that was put into it. |
| Shuffle.GroupsMatch | ex3/MapReduceFramework.cpp:148-163 | Groupings of the same pairs in any two orders have the same keys in the same order, and equal groups as multisets. |
| Shuffle.Shuffle | ex3/MapReduceFramework.cpp:148-163 | The loops compute that grouping of the vectors in thread-id order, and the size is the number of distinct keys. |
| MapReduce.StepControl | ex3/MapReduceFramework.cpp:166-203 | Every step keeps the program counters in agreement with the mutex and with the barrier's members. |
| MapReduce.Separated | ex3/MapReduceFramework.cpp:186-192 | Once a thread is past a barrier every thread has reached it; while one is before it nobody is past it. |
| MapReduceData.PairsConserved | ex3/MapReduceFramework.cpp:173-183 | Every step conserves the multiset of pairs emitted, being emitted and still to be mapped. |
| MapReduceData.StepMapData | ex3/MapReduceFramework.cpp:173-183 | Inputs are handed out once each from the back, and a thread reaches the barrier only when none is left. |
| MapReduceData.OutsConserved | ex3/MapReduceFramework.cpp:194-200 | What the reduced groups emit is in the output vector or still to be emitted. |
| MapReduceData.StepStage | ex3/MapReduceFramework.cpp:173-192 | No step lowers the shared stage, which never lags behind a thread or runs ahead of a barrier. |
| MapReduceData.StepInv | ex3/MapReduceFramework.cpp:166-203 | Every step of every thread keeps all of these invariants together. |
| MapReduceTheorems.FinalData | ex3/MapReduceFramework.cpp:166-203 | When all threads are done, every input was mapped once, every group was reduced once, and the output is what the groups emit. |
| MapReduceTheorems.EveryScheduleReducesTheSameGroups | ex3/MapReduceFramework.cpp:148-203 | Every interleaving of any number of threads reduces each distinct key once, with a group that is, as a multiset, that of grouping the sequentially mapped input. |
| MapReduceTheorems.OutputIsSequential | ex3/MapReduceFramework.cpp:166-203 | If reduce does not depend on the order of its pairs, the output of every schedule is the sequential one as a multiset. |
| MapReduceOrder.EmissionInOrder | ex3/MapReduceFramework.cpp:272-275 | What a thread has emitted, followed by what it has to emit, grows by the pairs of an input exactly when it takes that input, at the end; its intermediate vector only grows at its end. |
| MapReduceOrder.OutputGrows | ex3/MapReduceFramework.cpp:139-141 | The output vector grows only at its end, by the next output of the thread that moves. |
| MapReduceOrder.OneThreadIsSequential | ex3/MapReduceFramework.cpp:166-203 | With one thread the output vector is, in order, what the groups in key order emit, grouped from the inputs mapped last to first. |
| MapReduceTheorems.NoDeadlock | ex3/MapReduceFramework.cpp:166-203 | In every reachable state that is not final some thread can take a step. |
| MapReduceTheorems.WorkFalls | ex3/MapReduceFramework.cpp:166-203 | Every step decreases a lexicographic measure over remaining inputs, remaining groups and program counters. |
| MapReduceTheorems.EveryScheduleEnds | ex3/MapReduceFramework.cpp:166-203 | No infinite sequence of steps exists. |
| MapReduceTheorems.ProgressNeverGoesBack | ex3/MapReduceFramework.cpp:236-262 | The single-read case: when a report takes stage and counters from one state, the pairs never decrease over a run and percentages stay within 0 and 100, for a non-empty input and at least one emitted pair. |
| MapReduceTheorems.PercentageExactly | ex3/MapReduceFramework.cpp:241-259 | In every reachable state the percentage times the size is a hundred times the number of inputs handed out, or of groups in the reduce stage; it is 50 in the shuffle and 100 before the first step. |
| MapReduceReports.HeldCounters | ex3/MapReduceFramework.cpp:238-258 | While the mutex is held, the percentage of a report is that of the state of its first read of the stage, whenever the counters are read. |
| MapReduceReports.ReportExactly | ex3/MapReduceFramework.cpp:238-260 | The same share, of the state in which a report began, for every report over every run. |
| MapReduceReports.ReportInOrderIff | ex3/MapReduceFramework.cpp:241-260 | With two reads of the stage, a report is in order with the next one iff no thread wrote a new stage between its two reads. |
| MapReduceReports.ReportsInOrderIff | ex3/MapReduceFramework.cpp:241-260 | Any two reports are in order iff the second shows a later stage, or no stage was written during the first, or the second comes late enough in its stage. |
| MapReduceReports.FirstReportGoesBack | ex3/MapReduceFramework.cpp:173-260 | Every job has a run in which a report says that the map stage is complete and the next one that it is not begun. |
| MapReduceReports.OneThreadGoesBack | ex3/MapReduceFramework.cpp:187-192 | With one thread, a report that spans any write of a new stage is out of order with the next one. |
| MapReduceJob.BarrierObject.BroadcastAll | ex3/Barrier/Barrier.cpp:39 | A broadcast wakes exactly the waiting threads. |
| MapReduceJob.BarrierObject.Advance | ex3/Barrier/Barrier.cpp:26-48 | Each action of a thread in `barrier()` changes count, mutex and wait set as the step machine does. |
| MapReduceJob.GlobalEnv.constructor | ex3/MapReduceFramework.cpp:40-60 | A new job is in the initial state of the step machine. |
| MapReduceJob.GlobalEnv.PopInput | ex3/MapReduceFramework.cpp:176-180 | Takes the last input under the lock, or leaves the map loop when there is none. |
| MapReduceJob.GlobalEnv.Emit2 | ex3/MapReduceFramework.cpp:272-275 | Appends the pair to the thread's own intermediate vector. |
| MapReduceJob.GlobalEnv.RunShuffle | ex3/MapReduceFramework.cpp:188-190 | Runs the shuffle loops over all intermediate vectors in thread-id order. |
| MapReduceJob.GlobalEnv.PopGroup | ex3/MapReduceFramework.cpp:194-197 | Takes the first group under the lock, or ends the thread when there is none. |
| MapReduceJob.GlobalEnv.Emit3 | ex3/MapReduceFramework.cpp:139-141 | Appends the pair to the output vector. |
| MapReduceJob.GlobalEnv.Advance | ex3/MapReduceFramework.cpp:166-203 | The next action of a thread in `map_reduce_call` is the step of the machine. |
| MapReduceJob.GlobalEnv.ReadPercentage | ex3/MapReduceFramework.cpp:240-259 | Up to its second read of the stage, `getJobState` computes a hundred per cent of the share of inputs, or of groups, that are gone; 100 before the first step, 50 in the shuffle, and no number when the divisor is zero. |
| MapReduceJob.GlobalEnv.ReadStage | ex3/MapReduceFramework.cpp:260 | Its second read reports the stage of the then current state. |
| MapReduceJob.RunJob | ex3/MapReduceFramework.cpp:166-210 | Under any scheduler a job ends, with every input mapped once, the sequential groups reduced once each, and an output that is theirs. |
| Scheduler.InitIsFirstSchedule | ex2/uthreads.cpp:78-106 | The first scheduling decision of `uthread_init` runs main, with one quantum, an empty queue and a total of one. |
| SchedulerSafety.KeepLiveIn | ex2/uthreads.cpp:301-315 | Exactly the entries whose thread id is in use stay in the queue. |
| SchedulerSafety.ScheduleCases | ex2/uthreads.cpp:354-399 | A decision fails iff no entry under a live id is READY, and otherwise every live thread is where its status says. |
| SchedulerSafety.StepInv | ex2/uthreads.cpp:118-482 | Every library call and tick keeps: READY threads queued, only the current thread RUNNING, threads blocked by the mutex among its waiters, no waiters of a free mutex, main blocked by nothing but the mutex. |
| SchedulerSafety.ScanFailsIff | ex2/uthreads.cpp:372-389 | A step runs off the end of the queue iff it makes a decision, is not a tick of a live thread, and nothing but the current thread is queued READY under a live id. |
| SchedulerRuns.NoThreadIsLost | ex2/uthreads.cpp:132-133 | At every moment of every run a free mutex has no waiters, a thread blocked by the mutex is among them, a READY thread that is not running is queued, and only the current thread is RUNNING. |
| SchedulerRuns.FailureBlamesOwner | ex2/uthreads.cpp:366-389 | When the scan fails, main waits for a mutex whose owner is gone or has been blocked. |
| SchedulerRuns.ScanNeverFails | ex2/uthreads.cpp:366-395 | In every run in which nobody blocks the mutex owner and no other thread terminates it, the scan never runs off the queue. |
| SchedulerCalls.AliveExactly | ex2/uthreads.cpp:118-189 | A thread id is in use after a step iff it was and was not terminated, or it was the lowest free one and was spawned; ids that stay in use keep their thread. |
| SchedulerCalls.BlockedExactly | ex2/uthreads.cpp:201-244 | A live thread is BLOCKED after a step iff it does not run now and was just blocked, by name or by waiting for the mutex, or was BLOCKED and neither resumed nor a waiter of a mutex just released. |
| SchedulerCalls.DecisionTakes | ex2/uthreads.cpp:366-395 | A decision runs the first READY entry and takes out of the queue that entry, the dead entries and the BLOCKED ones in front of it, and not one entry more. |
| SchedulerExact.OwnerExactly | ex2/uthreads.cpp:419-482 | The owner after any step, in terms of the state before it. |
| SchedulerExact.WaitersExactly | ex2/uthreads.cpp:434-479 | A thread that comes to wait is listed twice behind all earlier waiters, a release empties the list, and no other step changes it. |
| SchedulerExact.TotalExactly | ex2/uthreads.cpp:389-393 | A quantum begins exactly at a tick, when a thread blocks itself, and when it comes to wait for the mutex; no other step changes the current thread. |
| SchedulerExact.QueueOfCall | ex2/uthreads.cpp:118-244 | A step in which the current thread goes on adds at the end of the queue one entry for a spawned thread, one for a resumed one, the waiters in order for a release, and nothing else. |
| SchedulerExact.CallCounts | ex2/uthreads.cpp:118-244 | How often an entry is queued after such a step. |
| SchedulerExact.TerminateKeepsEntries | ex2/uthreads.cpp:181-185 | Terminating a thread leaves the queue and the waiters as they are, unless it gives up the mutex. |
| SchedulerExact.QueueOfDecision | ex2/uthreads.cpp:329-395 | A step in which the current thread stops runs the first READY entry of the queue, with the interrupted thread at its end, and keeps all other entries in order but the dead ones and the BLOCKED ones in front. |
| SchedulerExact.StatusExactly | ex2/uthreads.cpp:201-482 | The status of every thread, live or not, after any step, in terms of the state before it and the thread that runs. |
| SchedulerExact.SpawnMakes | ex2/uthreads.cpp:118-136 | A spawn makes a thread iff fewer than 100 ids are in use: READY, without quanta, under the lowest free id. |
| SchedulerExact.SpawnsInTurn | ex2/uthreads.cpp:121-132 | From the start the first 99 spawns give the ids 1 to 99 in turn. |
| SchedulerExact.HundredthFails | ex2/uthreads.cpp:126-131 | The hundredth spawn from the start changes nothing. |
| SchedulerOrder.ReleaseQueuesInOrder | ex2/uthreads.cpp:475-479 | A release puts the k-th waiter at position k behind the queue. |
| SchedulerOrder.ReleaseOrderIff | ex2/uthreads.cpp:475-479 | After a release one thread is queued before another iff it was before, or neither was queued and it came to wait first. |
| SchedulerOrder.FirstComeFirstQueued | ex2/uthreads.cpp:434-479 | Over any run, a thread that waits when another has not yet come has an entry before every entry of the other once the mutex is given up, unless the other is still queued from before. |
| SchedulerJump.LaterWaiterGoesFirst | ex2/uthreads.cpp:240-241 | A run from the start in which the later waiter is queued first, because it had resumed itself just before. |
| SchedulerStale.RunsBlockedIff | ex2/uthreads.cpp:305-391 | A decision runs a BLOCKED thread iff the first READY entry belongs to a dead thread and the thread that has its id now is BLOCKED. |
| SchedulerStale.FreshQueueRunsReady | ex2/uthreads.cpp:373-391 | Without entries of dead threads whose id is in use again, no decision runs a BLOCKED thread. |
| SchedulerStale.BlockedThreadRuns | ex2/uthreads.cpp:305-391 | A run from the start in which a thread is blocked by name, nobody resumes it, and the next tick runs it. |
| SchedulerMutex.BlockedOwnerFailsScan | ex2/uthreads.cpp:373-389 | A run from the start in which the owner blocks itself while main waits for the mutex, and the scan fails. |
| SchedulerMutex.OwnerChanges | ex2/uthreads.cpp:419-482 | The owner changes only when the current thread takes a free mutex or gives up its own. |
| SchedulerMutex.ReleaseWakesAll | ex2/uthreads.cpp:472-479 | A release makes every live thread that waits for the mutex READY and queues it. |
| SchedulerMutex.ResumeChangesNothingIff | ex2/uthreads.cpp:235-244 | Resuming a thread leaves the state as it is iff the thread does not exist. |
| SchedulerMutex.OrphanedMutex | ex2/uthreads.cpp:181-185 | Once another thread has terminated the owner, no step changes the owner, and only a spawn can bring its id back to life. |
| SchedulerQuanta.DecisionCounts | ex2/uthreads.cpp:389-393 | A decision adds one quantum to the thread it runs and to nobody else, and one to the total. |
| SchedulerQuanta.QuantaAddUp | ex2/uthreads.cpp:391-393 | In every reachable state the total is the sum of the quanta of all threads ever created, live or not. |
| SchedulerQuanta.TotalCountsDecisions | ex2/uthreads.cpp:507-514 | Along any run the total grows by the number of scheduling decisions. |
| SchedulerQuanta.StepAdvances | ex2/uthreads.cpp:301-395 | A step either runs the READY thread, or blocks or terminates it, or leaves it READY with its entry no further back, and strictly further forward at every decision. |
| SchedulerQuanta.BoundedWaiting | ex2/uthreads.cpp:373-395 | A live READY thread with an entry at position p runs within p + 1 decisions unless it is blocked or terminated first, whatever else is queued. |
| SchedulerQuanta.EveryReadyThreadRuns | ex2/uthreads.cpp:331-395 | Any live READY thread runs within as many decisions as the queue has entries, unless it is blocked or terminated first. |
| UThreads.Library.DeleteDeadThreads | ex2/uthreads.cpp:301-315 | Removes exactly the entries whose thread id is not in use, and leaves the rest of the library as it is. |
| UThreads.Library.Scan | ex2/uthreads.cpp:372-387 | Finds the first READY entry, and what stays of the entries before it when the BLOCKED ones are erased. |
| UThreads.Library.SchedulerMain | ex2/uthreads.cpp:321-408 | Carries out the scheduling decision, or reports that the scan ran off the queue, exactly when it does. |
| UThreads.Library.UthreadInit | ex2/uthreads.cpp:78-106 | A non-positive quantum returns -1 and changes nothing; otherwise main runs its first quantum. |
| UThreads.Library.UthreadSpawn | ex2/uthreads.cpp:118-136 | Takes the lowest free id from 1 on and queues the new thread, or returns -1 and changes nothing; in a reachable state it returns -1 iff 100 ids are in use. |
| UThreads.Library.UthreadTerminate | ex2/uthreads.cpp:167-189 | Frees the id after an attempt to release the mutex; -1 for a thread that does not exist; terminating main ends the process. |
| UThreads.Library.UthreadBlock | ex2/uthreads.cpp:201-225 | Blocks the thread and makes a decision if it is the current one; -1 for main and for a thread that does not exist. |
| UThreads.Library.UthreadResume | ex2/uthreads.cpp:235-244 | Makes the thread READY and queues it; -1 for a thread that does not exist. |
| UThreads.Library.UthreadMutexLock | ex2/uthreads.cpp:419-450 | Takes a free mutex, refuses one that is held already, or lists the thread as a waiter, blocks it and makes a decision. |
| UThreads.Library.UthreadMutexUnlock | ex2/uthreads.cpp:460-482 | The owner frees the mutex and every waiter becomes READY and queued in order; anybody else gets -1 and changes nothing. |
| UThreads.Library.UthreadGetQuantums | ex2/uthreads.cpp:527-536 | The quanta of the thread, or -1 if it does not exist. |
| UThreads.Library.Perform | ex2/uthreads.cpp:118-482 | Any library call or tick keeps the invariant, fails exactly when the scan runs off the queue, and never does so in a polite run. |

## Left out

- FaultStep.EvictRepairedIs: describes the repaired order, save before clear and no ancestor loop; what the source's own order does is `AsWrittenLoses` and `PruneChangesNothingIff`.
- FaultStep.EvictKeeps: holds of the repaired evict only, because the source's own evict always loses the page.
- FaultStep.ProvidedKeeps: in its evicting branch it is about the repaired evict, for the same reason.
- PagedMemory.PagedMemory.GetPAddr: as written, a call is not followed beyond its first eviction, because that eviction has already lost a page and may have damaged the tree.
- PagedMemory.PagedMemory.constructor: `VMinitialize` and `clearTable` are not modelled; the memory starts from zeroed RAM.
- PagedMemory.PagedMemory.VMread: words and addresses are unbounded integers; the 32-bit word and 64-bit address types do not wrap in the modelled sizes. The value of a failed read stays 0 here and untouched in the source.
- PagedMemory.PagedMemory.Search: the checks for an address outside RAM (ex4/VirtualMemory.cpp:302-306, 354-356, 405, 432) are not there, because every address is proved to be inside RAM.
- PagedMemory.PagedMemory.FindMaxFrameWeight: the fields that the source leaves uninitialised in its local records are 0 here; none is read.
- PagingExamples.PruneSeversALiveTable: starts from a sound full RAM; the accesses that would build it are not replayed.
- Geometries with fewer frames than one path and its page, or with a single table level narrower than a page, are excluded; `LastConvertStaysInFrame` shows why for the latter.
- Barrier.BarrierSafe: no wake-up without a broadcast is a hypothesis; the `SpuriousWake` lemmas show where it is needed.
- MapReduceJob.GlobalEnv.Emit3: the unlocked push to the output vector is one atomic step.
- MapReduceJob.GlobalEnv.RunShuffle: the shuffle is one step of its thread; nobody else touches the vectors or the map between the barriers.
- MapReduceJob.GlobalEnv.Advance: threads run in one object one step at a time, so real parallelism and C++ memory-model races are not captured.
- MapReduceJob.GlobalEnv.ReadPercentage: real numbers instead of floats, and no number where the source divides by a zero size; taking and releasing the mutex around a report is a hypothesis of `MapReduceReports` (`Held`), not a step of the machine.
- MapReduceTheorems.ProgressNeverGoesBack: about reports that read the stage once; `MapReduceReports` has the source's two reads.
- MapReduceTheorems.EveryScheduleReducesTheSameGroups: the client's map and reduce are total and emit the same pairs for the same argument.
- `startMapReduceJob`'s thread creation, `waitForJob` and `closeJobHandle`.
- UThreads.Library.UthreadMutexLock: one round of the retry loop per call; between two rounds the model also lets the thread make other library calls, so its runs include all of the source's and what is proved of every run holds of these.
- UThreads.Library.SchedulerMain: a context switch is the change of the current thread; signals, timers, jumps and stacks are not modelled, and each library call is one atomic step.
- UThreads.Library.DeleteDeadThreads: lists are sequences, so collecting iterators and erasing them is one pass that keeps the others.
- UThreads.Library.UthreadTerminate: releasing memory and leaving the process. Negative thread ids are left out, because the source reads outside the table for them and promises nothing.
- UThreads.Library.UthreadBlock: negative thread ids, as for `UthreadTerminate`.
- UThreads.Library.UthreadResume: negative thread ids, as for `UthreadTerminate`.
- UThreads.Library.UthreadGetQuantums: negative thread ids, as for `UthreadTerminate`.
- `uthread_get_tid`, `uthread_get_total_quantums` and the SIGSEGV handler.
- Printing, tracing, `get_perent`, `print_BFS`, `log`, ex3/dMapReduceFramework.cpp, ex1, sample clients and tests.
