# Models and proofs for the OS lab programs

The repository holds a producer/consumer program over a shared priority queue (Assignment 5)
and changes to the Pintos kernel: a sleep queue (Assignment 3), a priority scheduler with a
multi-level feedback queue (Assignment 4), and user programs (Assignment 6_2). This project
models their hardest parts in Dafny and proves what they are meant to guarantee.

- **Job queue** (`JobHeap`, `ProducerConsumer`, `MainsEnd`, `SharedMemory`): the array heap works in place
  and refines a multiset priority queue. Each lock-held region is proved to be a step of a
  state machine, and conservation, finality, freedom from deadlock and the exact length of
  complete runs are proved over all interleavings, for any queue size and number of workers, and
  exactly when `main`'s waiting loop can end; then every fair run ends it.
  The thread version of the program is the same algorithm on global variables.
- **Loading user programs** (`Bytes`, `Arguments`, `UserMemory`, `PushArguments`, `Elf`,
  `Loader`, `LoadProgram`): ELF headers become pages and the command line becomes an initial
  stack, byte by byte. `load` is proved to succeed exactly for the files described by
  `LoadProgram.LoadableFile` with arguments that fit the stack page. The result has the meaning
  that the TIS ELF Specification version 1.2, Book I, chapter 2, "Program Header", gives to
  PT_LOAD, and `main`, reading memory by the i386 calling convention, finds the command line's words.
- **Scheduling** (`Threads`, `OrderedList`, `Scheduler`, `SchedulerEffects`, `SchedulerState`): thread states
  and ready list with `thread_mlfqs` false, over all runs of the scheduling calls.
- **Feedback queue** (`FixedPoint`, `Mlfqs`, `MlfqsClock`, `MlfqsEffects`, `MlfqsLimit`, `MlfqsState`): the 16.16
  fixed-point recurrences on real 32-bit integers, with exact limits for overflow: 555 ready threads
  for load_avg (`Mlfqs.LoadLimit`) and 136 for recent_cpu (`MlfqsLimit.RecentLimit`).
- **Sleep queue** (`SleepQueue`, `TimerDevice`): the sorted list against the polling loop it replaces.
- **Calibration** (`Calibrate`): both versions of the bitwise search.
- **exec, exit and wait** (`Handshake`, `HandshakeTrace`, `HandshakeState`): one parent, any number of children, a
  step for every store, test and semaphore operation.
- **Descriptors** (`Descriptors`, `DescriptorState`, `ListLinks`): open files over a process's life.

Code that updates variables in place is a class whose methods are proved to have exactly the
effect of a specification function; the lemmas about runs are about that function.

## Where the code differs from what it promises

- Calibration refines nine bits, not the eight its comment names (Assignment_4 timer.c:62).
- Assignment 3's calibration tests `high_bit | test_bit` and so can report more loops than fit a
  tick; `Calibrate.TimerCalibrateSeparately` says exactly when it does not.
- `process_exit` stores `cur_status` before `exit_status`, so a `wait` that reads in between gets
  UNDEFINED_EXIT instead of -1. Only a child whose load failed gets there, since every kill goes through
  `exit (-1)`: `Handshake.RacingRun` is such a run. A caller that waits only for tids that `exec` has
  returned is safe, in every interleaving (`Handshake.WaitAfterExecIsExact`).
- `load` does not check that the arguments fit the stack page. `LoadProgram.Load` says exactly when
  they do, and `Arguments.ShortWordsOverflow` gives a short command line that does not.
- `add_null_char` stores one byte of the four-byte sentinel and relies on the page being zero.
- `main` of Assignment 5 can wait for ever: its loop can end exactly under the condition of
  `MainsEnd.EndReachableIff`. With a negative number of jobs, for instance, every worker stops at its
  first turn but the counters never equal it.
- `exec` and `wait` dereference the child element unchecked, so they presuppose that it exists.

## What is taken as given

`strtok_r`, `strlen`, the list, semaphore, file and page-pool calls are contracts. `palloc_get_page`
fails only when no frame is free; the user pages for which `pagedir_set_page` finds no page table
are an arbitrary set given to `load`. `too_many_loops (x)` is true exactly for `x` above a fixed
limit. Random job fields are arbitrary values, and files opened get distinct identities. Sums of
signed integers wrap around in two's complement. In the feedback queue callers are assumed to pass
nice values between -20 and 20, which the code does not enforce.

## Model

| member | source | states |
|---|---|---|
| `JobHeap.JobQueue.InsertJob` | Assignment_5/Assignment_5_submission/Ass5_11_18CS10063_18CS10011_process.cpp:291-318 | with room in the array, the job is added to the exact multiset of queued jobs and the heap order holds again; all slots stay in bounds and the loop ends |
| `JobHeap.JobQueue.RemoveJob` | Assignment_5/Assignment_5_submission/Ass5_11_18CS10063_18CS10011_process.cpp:321-358 | a job of maximal priority is handed out, exactly that one leaves the multiset, and the heap order holds again |
| `JobHeap.JobQueue.SiftDown` | Assignment_5/Assignment_5_submission/Ass5_11_18CS10063_18CS10011_process.cpp:337-355 | from a heap wrong only at the root, the loop restores the order without changing the contents |
| `JobHeap.JobQueue.constructor` | Assignment_5/Assignment_5_submission/Ass5_11_18CS10063_18CS10011_process.cpp:47-65 | a new queue is empty |
| `JobHeap.SiftUpStep` | Assignment_5/Assignment_5_submission/Ass5_11_18CS10063_18CS10011_process.cpp:307-313 | swapping with a less urgent parent moves the only violation up to the parent |
| `JobHeap.SiftDownStep` | Assignment_5/Assignment_5_submission/Ass5_11_18CS10063_18CS10011_process.cpp:340-354 | the larger-child choice either finds no violation or moves it down to that child |
| `JobHeap.LastToRoot` | Assignment_5/Assignment_5_submission/Ass5_11_18CS10063_18CS10011_process.cpp:333-336 | moving the last job to the root removes the old root from the contents and breaks the order only at the root |
| `JobHeap.RootIsMax` | Assignment_5/Assignment_5_submission/Ass5_11_18CS10063_18CS10011_process.cpp:333 | in an ordered heap of any size slot 1 holds a job of maximal priority |
| `JobHeap.DrainIsSortedPermutation` | Assignment_5/Assignment_5_submission/Ass5_11_18CS10063_18CS10011_process.cpp:321-358 | what repeated removal of a most urgent job hands back is exactly a non-increasing permutation of the contents, and every such permutation can come out |
| `JobHeap.Drain` | Assignment_5/Assignment_5_submission/Ass5_11_18CS10063_18CS10011_process.cpp:248-251 | calling remove_job on any array heap until it is empty hands back exactly its jobs, in non-increasing order of priority |
| `SharedMemory.Segment.ProducerRegion` | Assignment_5/Assignment_5_submission/Ass5_11_18CS10063_18CS10011_process.cpp:180-225 | what a producer does while holding the mutex, on the real counters and heap, is a step of the protocol |
| `SharedMemory.Segment.ConsumerRegion` | Assignment_5/Assignment_5_submission/Ass5_11_18CS10063_18CS10011_process.cpp:233-268 | the same for a consumer; a job it takes is a most urgent queued one |
| `SharedMemory.Segment.RemoveAndCount` | Assignment_5/Assignment_5_submission/Ass5_11_18CS10063_18CS10011_process.cpp:248-258 | removing a job and counting it completed keeps the memory in step with the protocol state |
| `SharedMemory.Segment.MainRegion` | Assignment_5/Assignment_5_submission/Ass5_11_18CS10063_18CS10011_process.cpp:142-170 | main's test succeeds exactly when both counters equal jobs, and then queue and producers' hands are empty and created = removed |
| `SharedMemory.Segment.constructor` | Assignment_5/Assignment_5_submission/Ass5_11_18CS10063_18CS10011_process.cpp:47-65 | create_mem sets up an initial state of the protocol |
| `ProducerConsumer.StepKeepsInv` | Assignment_5/Assignment_5_submission/Ass5_11_18CS10063_18CS10011_process.cpp:177-270 | every lock-held region keeps the accounting, and uses up one unit of the measure exactly if it creates, inserts or removes |
| `ProducerConsumer.RunKeepsInv` | Assignment_5/Assignment_5_submission/Ass5_11_18CS10063_18CS10011_process.cpp:177-270 | the accounting invariant holds in every state of every interleaving |
| `ProducerConsumer.Conservation` | Assignment_5/Assignment_5_submission/Ass5_11_18CS10063_18CS10011_process.cpp:184-225 | in every interleaving created = in flight + queued + removed, as multisets and as counters, job_created never passes jobs, and the queue never outgrows its array |
| `ProducerConsumer.EndIsFinal` | Assignment_5/Assignment_5_submission/Ass5_11_18CS10063_18CS10011_process.cpp:142-170 | once both counters equal jobs, nothing is queued or in flight, exactly the created jobs have been removed, and no later step changes any of this |
| `ProducerConsumer.NegativeJobsNeverEnd` | Assignment_5/Assignment_5_submission/Ass5_11_18CS10063_18CS10011_process.cpp:142-170 | with a negative number of jobs main's equality test never succeeds |
| `ProducerConsumer.CompleteRunLength` | Assignment_5/Assignment_5_submission/Ass5_11_18CS10063_18CS10011_process.cpp:177-270 | every run has at most 3 * jobs effective steps, and it is finished exactly if it has that many |
| `ProducerConsumer.Progress` | Assignment_5/Assignment_5_submission/Ass5_11_18CS10063_18CS10011_process.cpp:180-268 | no deadlock: with a producer, a consumer and PQ_SIZE >= 2, every unfinished reachable state enables a step that lowers the measure by one |
| `MainsEnd.EndReachableIff` | Assignment_5/Assignment_5_submission/Ass5_11_18CS10063_18CS10011_process.cpp:142-170 | main's waiting loop can end if and only if jobs is 0, or jobs is positive and there are a producer, a consumer and PQ_SIZE >= 2 |
| `MainsEnd.Finish` | Assignment_5/Assignment_5_submission/Ass5_11_18CS10063_18CS10011_process.cpp:177-270 | under that condition every run so far, however interleaved, can be continued to the end |
| `MainsEnd.RoundWorks` | Assignment_5/Assignment_5_submission/Ass5_11_18CS10063_18CS10011_process.cpp:177-270 | under that condition, every stretch of an unfinished run in which each live worker has a turn holds an effective turn |
| `MainsEnd.FairRunsEnd` | Assignment_5/Assignment_5_submission/Ass5_11_18CS10063_18CS10011_process.cpp:177-270 | and a run of 3 * jobs such rounds has ended, for good, whatever the interleaving within the rounds |
| `MainsEnd.ProducerStopsIff` | Assignment_5/Assignment_5_submission/Ass5_11_18CS10063_18CS10011_process.cpp:184-188 | in every run, for any number of jobs, a producer has stopped exactly if one of its earlier turns, with nothing in hand, found job_created at jobs or above |
| `MainsEnd.ConsumerStopsIff` | Assignment_5/Assignment_5_submission/Ass5_11_18CS10063_18CS10011_process.cpp:242-246 | and a consumer exactly if one of its turns found job_completed at jobs or above |
| `MainsEnd.StoppingTurnIsIdle` | Assignment_5/Assignment_5_submission/Ass5_11_18CS10063_18CS10011_process.cpp:184-188 | a turn that stops its worker changes neither jobs nor counters |
| `MainsEnd.NegativeJobsStop` | Assignment_5/Assignment_5_submission/Ass5_11_18CS10063_18CS10011_process.cpp:184-188 | with a negative number of jobs the first turn of every worker is its last |
| `MainsEnd.NegativeJobsAllStop` | Assignment_5/Assignment_5_submission/Ass5_11_18CS10063_18CS10011_process.cpp:242-246 | and some run stops all workers, leaving main to wait for nobody |
| `Arguments.TokensOfWord` | Assignment_6_2/Asignment_6_2_submission/process.c:428-432 | a command line without a space is one word, and an empty one none |
| `Arguments.TokensSplit` | Assignment_6_2/Asignment_6_2_submission/process.c:428-432 | a space divides the words of the line: those before it come first, those after it follow, in order |
| `Arguments.FootprintIs` | Assignment_6_2/Asignment_6_2_submission/process.c:419-447 | the arguments take up the strings with their NULs, rounded up to a multiple of 4, four bytes for each word, and 16 more |
| `Arguments.ArgumentsRoundTrip` | Assignment_6_2/Asignment_6_2_submission/process.c:419-447 | a main entered with this esp finds argc = number of words, argv = esp + 12, the word i at argv[i], a null argv[argc], return address 0, and esp is 4-aligned |
| `Arguments.StringAt` | Assignment_6_2/Asignment_6_2_submission/process.c:615-624 | token i stands, NUL-terminated, at the address computed for it, and its end is where the previous token starts |
| `Arguments.PointerAt` | Assignment_6_2/Asignment_6_2_submission/process.c:651-663 | the pointer stored for argument i leads to the string of token i |
| `Arguments.HeadWords` | Assignment_6_2/Asignment_6_2_submission/process.c:666-689 | the three words at esp are 0, argc and argv |
| `Arguments.ShortWordsOverflow` | Assignment_6_2/Asignment_6_2_submission/process.c:46-51 | a command line of 1400 bytes, well within what process_execute passes on, needs more stack than the page has |
| `PushArguments.SplitAndInsert` | Assignment_6_2/Asignment_6_2_submission/process.c:615-624 | the token with its NUL is pushed and the counters are advanced |
| `PushArguments.AddWordAlign` | Assignment_6_2/Asignment_6_2_submission/process.c:627-640 | exactly the zero bytes that make the total length a multiple of 4 are pushed |
| `PushArguments.AddNullChar` | Assignment_6_2/Asignment_6_2_submission/process.c:643-648 | four zero bytes lie at the new stack pointer although only one is stored, because the page was zero |
| `PushArguments.AddArgumentAddress` | Assignment_6_2/Asignment_6_2_submission/process.c:651-663 | walking the strings in memory by strlen pushes every token's address, last token first, and ends at PHYS_BASE |
| `PushArguments.SteppedOver` | Assignment_6_2/Asignment_6_2_submission/process.c:661 | the string under the walking pointer is the expected token, so strlen leads to the next one |
| `PushArguments.AddCharPointers` | Assignment_6_2/Asignment_6_2_submission/process.c:666-672 | the address of argv[0] is pushed |
| `PushArguments.AddNumberOfArguments` | Assignment_6_2/Asignment_6_2_submission/process.c:675-680 | argc is pushed |
| `PushArguments.AddReturnAddress` | Assignment_6_2/Asignment_6_2_submission/process.c:683-689 | a zero return address is pushed |
| `PushArguments.PushStrings` | Assignment_6_2/Asignment_6_2_submission/process.c:428-432 | the loop over strtok_r pushes every token's string |
| `PushArguments.SetArgumentsIntoStack` | Assignment_6_2/Asignment_6_2_submission/process.c:419-447 | it stays inside the stack page exactly if the footprint fits; then esp = PHYS_BASE - footprint and the page is zero below the argument image |
| `UserMemory.AddressSpace.constructor` | Assignment_6_2/Asignment_6_2_submission/process.c:303-306 | a new page directory maps nothing |
| `UserMemory.AddressSpace.PallocGetPage` | Assignment_6_2/Asignment_6_2_submission/process.c:533-535 | a page comes from the pool, with stale contents, unless none is free |
| `UserMemory.AddressSpace.PallocFreePage` | Assignment_6_2/Asignment_6_2_submission/process.c:540 | a page handed back is free again and no mapping changes |
| `UserMemory.AddressSpace.FillPage` | Assignment_6_2/Asignment_6_2_submission/process.c:538-543 | filling a page that is not mapped yet changes nothing the process sees |
| `UserMemory.AddressSpace.InstallPage` | Assignment_6_2/Asignment_6_2_submission/process.c:586-594 | it succeeds exactly for an unmapped user page when the page table has room, adds just that page, and on failure changes nothing |
| `UserMemory.AddressSpace.SetupStack` | Assignment_6_2/Asignment_6_2_submission/process.c:559-575 | it succeeds exactly with a free frame, an unmapped last page and table room; then that page is zero and writable, and otherwise the page is returned |
| `UserMemory.AddressSpace.Store` | Assignment_6_2/Asignment_6_2_submission/process.c:621 | a store into the stack page changes only those bytes of that page |
| `UserMemory.AddressSpace.StackStrlen` | Assignment_6_2/Asignment_6_2_submission/process.c:661 | strlen of a string on the stack page |
| `Bytes.LittleEndian` | Assignment_6_2/Asignment_6_2_submission/process.c:232-263 | words and half-words are stored least significant byte first |
| `Elf.EhdrLayout` | Assignment_6_2/Asignment_6_2_submission/process.c:232-248 | each member of the executable header that load uses is read from its own place in the 52 bytes |
| `Elf.PhdrLayout` | Assignment_6_2/Asignment_6_2_submission/process.c:253-263 | each member of a program header that load uses is read from its own place in the 32 bytes |
| `Elf.GoodEhdrIs` | Assignment_6_2/Asignment_6_2_submission/process.c:320-331 | on the encoded header: load goes on exactly for the magic bytes of a 32-bit little-endian file, type 2, machine 3, version 1, header size 32 and at most 1024 program headers |
| `LoadProgram.AllHeadersAre` | Assignment_6_2/Asignment_6_2_submission/process.c:333-346 | from a file with a good executable header load gets its entry point and exactly the program headers that stand at e_phoff, in order |
| `Elf.ValidateSegmentExact` | Assignment_6_2/Asignment_6_2_submission/process.c:455-496 | the wrapping 32-bit checks accept exactly the non-empty headers with filesz <= memsz, offset in the file and congruent to vaddr, and region inside [PGSIZE, PHYS_BASE) |
| `Elf.AcceptedIsSafe` | Assignment_6_2/Asignment_6_2_submission/process.c:364-388 | for an accepted header no sum in load wraps, the three assertions of load_segment hold and the pages to map lie in [PGSIZE, PHYS_BASE) |
| `Loader.LoadPage` | Assignment_6_2/Asignment_6_2_submission/process.c:524-551 | one page is read, zero-filled and mapped exactly if frame, file bytes, user page and table room are there; otherwise the page goes back to the pool |
| `Loader.LoadSegment` | Assignment_6_2/Asignment_6_2_submission/process.c:512-555 | it succeeds exactly if the file has the bytes, no page of the segment is mapped and there are frames; then exactly the segment's pages are added, else a prefix; no page leaks on any path |
| `Loader.RoomForPage` | Assignment_6_2/Asignment_6_2_submission/process.c:524-551 | the byte counters never underflow |
| `Loader.SegmentIsThere` | Assignment_6_2/Asignment_6_2_submission/process.c:524-551 | page j of the segment shows the file bytes from its offset on, then zeros |
| `Loader.OldPagesStay` | Assignment_6_2/Asignment_6_2_submission/process.c:590-594 | pages mapped before a segment are unchanged by it |
| `LoadProgram.TouchedPages` | Assignment_6_2/Asignment_6_2_submission/process.c:366-388 | the pages load_segment maps for a header are exactly the pages its region lies in |
| `LoadProgram.SegmentPresent` | Assignment_6_2/Asignment_6_2_submission/process.c:364-391 | after its segment is loaded a header means what PT_LOAD means: filesz file bytes at vaddr, zeros up to memsz, writable by PF_W |
| `LoadProgram.SegmentKeepsFaithful` | Assignment_6_2/Asignment_6_2_submission/process.c:364-391 | a further segment keeps all earlier ones in force and shares no page with them |
| `LoadProgram.CanAddIs` | Assignment_6_2/Asignment_6_2_submission/process.c:364-391 | in terms of headers: a segment can be added exactly if its header is fine, its pages are apart from all earlier ones and there are frames |
| `LoadProgram.LoadHeader` | Assignment_6_2/Asignment_6_2_submission/process.c:347-396 | the switch on the segment type accepts exactly the headers that are fine and fit with the earlier ones |
| `LoadProgram.LoadHeaders` | Assignment_6_2/Asignment_6_2_submission/process.c:333-396 | the loop over the program headers succeeds exactly if all are in the file and fit together, and then all are in force |
| `LoadProgram.LoadImage` | Assignment_6_2/Asignment_6_2_submission/process.c:314-400 | load gets to the arguments exactly for a loadable file, with all headers in force and a zeroed stack page apart from them |
| `LoadProgram.Load` | Assignment_6_2/Asignment_6_2_submission/process.c:290-417 | load succeeds exactly for a loadable file whose arguments fit; then every PT_LOAD header holds at once, only the stack page is extra, main reads the command line's words, and no frame is lost on any path |
| `LoadProgram.SegmentsApart` | Assignment_6_2/Asignment_6_2_submission/process.c:586-594 | in a loaded program no two segments overlap and none reaches the stack page |
| `OrderedList.InsertSplit` | Assignment_4/Assignment_4_submission/thread.c:286-289 | list_insert_ordered puts a thread behind all that are at least as urgent and ahead of the rest |
| `Scheduler.SchedulePicksBest` | Assignment_4/Assignment_4_submission/thread.c:653-725 | schedule picks a thread of highest priority, the earliest queued of these, or idle exactly if none is ready, and afterwards exactly one thread runs |
| `Scheduler.EnqueueKeepsOrder` | Assignment_4/Assignment_4_submission/thread.c:313-323 | queueing a thread keeps the ready list in order of priority and arrival, without duplicates |
| `Scheduler.CallKeepsInv` | Assignment_4/Assignment_4_submission/thread.c:221-435 | each call keeps the invariant; only a bare thread_unblock can leave a ready thread above the running one, and yield, block, exit and set_priority end that |
| `Scheduler.RunKeepsInv` | Assignment_4/Assignment_4_submission/thread.c:221-435 | the same over every run of calls |
| `Scheduler.SchedulerSafety` | Assignment_4/Assignment_4_submission/thread.c:221-435 | in every state after start-up exactly one thread runs, and the ready list is duplicate-free, sorted by priority and holds exactly the ready threads |
| `Scheduler.YieldRotates` | Assignment_4/Assignment_4_submission/thread.c:382-397 | a yield among equals moves the running thread behind its peers |
| `Scheduler.RoundRobin` | Assignment_4/Assignment_4_submission/thread.c:382-397 | k + 1 yields among k + 1 peers run each exactly once, in queue order, and restore the ready list |
| `SchedulerEffects.UnblockQueues` | Assignment_4/Assignment_4_submission/thread.c:306-323 | thread_unblock makes exactly that thread ready and adds exactly it to the ready list; the caller goes on |
| `SchedulerEffects.YieldMoves` | Assignment_4/Assignment_4_submission/thread.c:382-397 | after a yield the caller runs on or is ready; besides it and the thread now running, no thread changes |
| `SchedulerEffects.BlockBlocks` | Assignment_4/Assignment_4_submission/thread.c:269-276 | after a block the caller is blocked and off the ready list, unless it is idle and nobody is ready |
| `SchedulerEffects.ExitRemoves` | Assignment_4/Assignment_4_submission/thread.c:360-377 | an exit removes exactly the caller; another thread runs, and nobody else changes |
| `SchedulerEffects.SetPriorityTakesEffect` | Assignment_4/Assignment_4_submission/thread.c:416-435 | the caller gets exactly the new priority and runs on or is ready; no other priority changes |
| `SchedulerEffects.CreateAdds` | Assignment_4/Assignment_4_submission/thread.c:220-262 | exactly the new thread is added, with its priority, ready or running; the creator goes on exactly unless the new thread is more urgent |
| `SchedulerState.Kernel.constructor` | Assignment_4/Assignment_4_submission/thread.c:135-175 | the state after start-up |
| `SchedulerState.Kernel.ThreadUnblock` | Assignment_4/Assignment_4_submission/thread.c:306-323 | the update in place has exactly the effect of the specification's unblock |
| `SchedulerState.Kernel.ThreadYield` | Assignment_4/Assignment_4_submission/thread.c:382-397 | likewise for yield |
| `SchedulerState.Kernel.ThreadBlock` | Assignment_4/Assignment_4_submission/thread.c:269-276 | likewise for block |
| `SchedulerState.Kernel.ThreadExit` | Assignment_4/Assignment_4_submission/thread.c:360-377 | likewise for exit: the dying thread is gone once another runs |
| `SchedulerState.Kernel.ThreadCreate` | Assignment_4/Assignment_4_submission/thread.c:220-262 | likewise for create: the creator yields exactly to a more urgent child |
| `SchedulerState.Kernel.ThreadSetPriority` | Assignment_4/Assignment_4_submission/thread.c:416-435 | likewise for set_priority with thread_mlfqs false |
| `SchedulerState.Kernel.ScheduleNext` | Assignment_4/Assignment_4_submission/thread.c:653-725 | likewise for schedule with thread_schedule_tail |
| `Mlfqs.LoadStaysBounded` | Assignment_4/Assignment_4_submission/thread.c:500-503 | with at most n <= 555 ready threads load_avg stays in [0, n], no 32-bit operation of the update overflows, and the result is less than 2 units below 59/60 load_avg + ready/60 |
| `Mlfqs.EveryLoadFits` | Assignment_4/Assignment_4_submission/thread.c:500-503 | the same for every sequence of ready counts of at most n <= 555 |
| `Mlfqs.LoadLimit` | Assignment_4/Assignment_4_submission/thread.c:500-503 | with a constant number of ready threads the update never overflows if and only if that number is at most 555 |
| `Mlfqs.SteadyLoadRises` | Assignment_4/Assignment_4_submission/thread.c:500-503 | with a constant number of ready threads load_avg rises monotonically from 0 |
| `Mlfqs.FixedPointIsClose` | Assignment_4/Assignment_4_submission/thread.c:500-503 | any fixed point lies within 120 units of 2^-16 below the true average |
| `Mlfqs.LoadSettles` | Assignment_4/Assignment_4_submission/thread.c:500-503 | such a fixed point is reached from 0 |
| `Mlfqs.ReportedLoadIsNearest` | Assignment_4/Assignment_4_submission/thread.c:463-468 | thread_get_load_avg is 100 * load_avg to the nearest integer exactly when that fits 32 bits with half a unit to spare |
| `Mlfqs.DecayIsBelowOne` | Assignment_4/Assignment_4_submission/thread.c:512-513 | the decay factor is 2 load_avg / (2 load_avg + 1) rounded down, at least 0, below 1, and at most 2n / (2n + 1) for load_avg <= n |
| `Mlfqs.RecentStaysBounded` | Assignment_4/Assignment_4_submission/thread.c:512-513 | for n <= 136, |nice| <= 20 and at most 100 ticks charged, a second's update keeps recent_cpu in [-(40n + 20), 240n + 20] without overflow |
| `Mlfqs.PriorityIsClose` | Assignment_4/Assignment_4_submission/thread.c:521-534 | the priority is clamped to 0..63 and less than 1 from the clamped rational formula |
| `Mlfqs.UpdateKeepsOrder` | Assignment_4/Assignment_4_submission/thread.c:507-534 | of two threads with equal nice, the one with no more recent_cpu before the update has no more after it and no lower priority |
| `MlfqsClock.TickKeepsBounds` | Assignment_4/Assignment_4_submission/timer.c:207-222 | a timer interrupt divides by no zero and keeps all bounds, one more tick charged per interrupt |
| `MlfqsClock.StepKeepsBounds` | Assignment_4/Assignment_4_submission/thread.c:444-517 | so does every event: interrupt, dispatch, set_nice, creation, exit |
| `MlfqsClock.EveryRunFits` | Assignment_4/Assignment_4_submission/timer.c:207-222 | in every run with at most n <= 136 threads ready at a time, load_avg and recent_cpu keep their bounds and fit 32 bits, for any number of threads |
| `MlfqsLimit.RecentLimit` | Assignment_4/Assignment_4_submission/thread.c:481-517 | every run keeps the next charge of every recent_cpu within 32 bits if and only if at most 136 threads are ready at a time |
| `MlfqsLimit.RunThatOverflows` | Assignment_4/Assignment_4_submission/thread.c:481-517 | a run that creates 136 threads, wakes them for each full second and lets one nice thread run in between, and leads its recent_cpu out of 32 bits |
| `MlfqsClock.SecondTick` | Assignment_4/Assignment_4_submission/thread.c:495-534 | after each full second every thread but idle has exactly the priority computed from its stored recent_cpu and nice, less than 1 from the rational formula, and threads of equal nice are ranked by recent_cpu |
| `MlfqsEffects.SecondAverages` | Assignment_4/Assignment_4_submission/thread.c:495-503 | at each full second load_avg becomes 59/60 of itself plus 1/60 of the threads ready or running, idle not counted, less than 2 units rounded down |
| `MlfqsEffects.SecondDecays` | Assignment_4/Assignment_4_submission/thread.c:505-517 | at each full second every thread but idle, the running one charged first, has recent_cpu decayed by the new load_avg and nice added; nice and idle stay |
| `MlfqsEffects.TickCharges` | Assignment_4/Assignment_4_submission/timer.c:215-221 | any other tick charges exactly the running thread one unit, idle never; on every fourth its priority becomes that of the rational formula to less than 1, else it stays; load_avg and other threads stay |
| `MlfqsEffects.SetNiceTakesEffect` | Assignment_4/Assignment_4_submission/thread.c:444-452 | the caller gets the nice value and the priority that follows from it, to less than 1 of the rational formula; nothing else changes |
| `MlfqsEffects.ThreadsComeAndGo` | Assignment_4/Assignment_4_submission/thread.c:612-626 | a new thread starts with recent_cpu 0 and nice 0, at the priority asked for, and counts as ready; an exit removes just the caller; neither changes load_avg or other threads |
| `FixedPoint.TruncatesTowardZero` | Assignment_4/Assignment_4_submission/thread.c:35-39 | the division of the macros leaves a remainder smaller than the divisor, with the sign of the dividend |
| `MlfqsState.Machine.constructor` | Assignment_4/Assignment_4_submission/thread.c:166 | load_avg and recent_cpu start at 0 |
| `MlfqsState.Machine.MlfqsIncRecentCpu` | Assignment_4/Assignment_4_submission/thread.c:481-491 | exactly the running thread is charged, and idle never |
| `MlfqsState.Machine.MlfqsUpdatePriority` | Assignment_4/Assignment_4_submission/thread.c:521-534 | exactly that thread's priority is recomputed and clamped |
| `MlfqsState.Machine.MlfqsUpdateLoadAvgAndRecentCpu` | Assignment_4/Assignment_4_submission/thread.c:494-518 | the loop over all_list, in whatever order, updates every thread but idle exactly once |
| `MlfqsState.Machine.TimerInterrupt` | Assignment_4/Assignment_4_submission/timer.c:207-222 | charging, second and fourth-tick work as specified |
| `MlfqsState.Machine.ThreadSetNice` | Assignment_4/Assignment_4_submission/thread.c:445-452 | nice and priority of the running thread change |
| `TimerDevice.Device.TimerSleep` | Assignment_3/Assignment_3_submission/timer.c:98-128 | the variables change as specified: the unsigned 64-bit sum is stored, the thread inserted by it, and nothing happens for a non-positive wait |
| `TimerDevice.Device.TimerInterrupt` | Assignment_3/Assignment_3_submission/timer.c:198-219 | the loop with its early break has the effect of a scan of the whole list |
| `TimerDevice.Device.WakeFront` | Assignment_3/Assignment_3_submission/timer.c:213-217 | the front thread's sleep_time is cleared and it leaves the list |
| `SleepQueue.SleepKeepsInv` | Assignment_3/Assignment_3_submission/timer.c:108-125 | timer_sleep keeps the list sorted by sleep_time with ties in order of arrival |
| `SleepQueue.InterruptKeepsInv` | Assignment_3/Assignment_3_submission/timer.c:198-219 | an interrupt wakes a prefix of the list, in order, clears the times of those threads alone, and leaves only threads with sleep_time > ticks |
| `SleepQueue.RunIssues` | Assignment_3/Assignment_3_submission/timer.c:98-128 | the requests of a run are those of its calls with a positive wait, one each, with the thread, clock reading and wait of the call |
| `SleepQueue.FrontOfList` | Assignment_3/Assignment_3_submission/timer.c:211-212 | the break is taken exactly when a full scan would wake nobody more |
| `SleepQueue.SleepersWakeOnTime` | Assignment_3/Assignment_3_submission/timer.c:98-128 | in every run each call of timer_sleep with a positive wait makes exactly one request, of its thread, its reading of the clock and its wait; each request is answered at most once, at the first tick after it got onto the list at which the polling loop in the comment would have ended; answers are in order of tick, then deadline, then arrival; none stays unanswered past its tick |
| `SleepQueue.AnswersAreOnTime` | Assignment_3/Assignment_3_submission/timer.c:121 | the stored unsigned 64-bit sum is exact, so each answer comes when polling would have ended |
| `Calibrate.FindHighBit` | Assignment_4/Assignment_4_submission/timer.c:52-60 | the first loop ends with the largest power of two within the limit, at least 1024, and fails its assertion exactly for a limit of 2^31 or more |
| `Calibrate.TimerCalibrate` | Assignment_4/Assignment_4_submission/timer.c:44-68 | for 1024 <= limit < 2^31 the result r satisfies r <= limit < r + high bit / 512 |
| `Calibrate.TimerCalibrateSeparately` | Assignment_3/Assignment_3_submission/timer.c:52-76 | Assignment 3's variant stays within the limit if and only if the nine bits below the limit's top bit are of the form 2^k - 1 |
| `Calibrate.SearchOvershoots` | Assignment_3/Assignment_3_submission/timer.c:72 | a limit of 1280 for which it reports more |
| `Calibrate.OrNewBit` | Assignment_4/Assignment_4_submission/timer.c:66 | or-ing in a bit below all set bits adds it |
| `Handshake.StepKeepsInv` | Assignment_6_2/Asignment_6_2_submission/process.c:75-150 | every single store, test and semaphore operation of parent or child keeps the protocol invariant |
| `Handshake.HandshakeIsSound` | Assignment_6_2/Asignment_6_2_submission/syscall.c:197-231 | in every interleaving exec returns the tid iff the load succeeded and -1 otherwise; the first wait returns the child's final status iff its read does not fall between the two stores of process_exit; every later wait returns -1 |
| `Handshake.LoadedChildIsNeverRaced` | Assignment_6_2/Asignment_6_2_submission/syscall.c:197-214 | in every interleaving the first wait for a child that loaded returns exactly the status given to exit, -1 for a kill; only a child whose load failed can be raced |
| `Handshake.WaitAfterExecIsExact` | Assignment_6_2/Asignment_6_2_submission/syscall.c:216-231 | a first wait for a tid that exec has returned is never raced and returns the status the child gave to exit |
| `HandshakeTrace.ExecReportsLoad` | Assignment_6_2/Asignment_6_2_submission/syscall.c:216-231 | over the steps of any run: exec returns the tid exactly if load returned true in that child, and -1 exactly if it returned false |
| `HandshakeTrace.WaitReportsExit` | Assignment_6_2/Asignment_6_2_submission/syscall.c:197-214 | over the steps of any run: the first wait for a child whose load succeeded returns the one value the child passed to exit |
| `HandshakeTrace.WaitReportsFailedLoad` | Assignment_6_2/Asignment_6_2_submission/process.c:138-148 | and for a child whose load failed -1, or UNDEFINED_EXIT if the read falls between the two stores |
| `Handshake.StatusLeavesAliveOnce` | Assignment_6_2/Asignment_6_2_submission/process.c:138-148 | cur_status leaves ALIVE at most once and a child's outcome never changes |
| `Handshake.WaitReadsStatus` | Assignment_6_2/Asignment_6_2_submission/process.c:111-126 | exactly when the value process_wait reads is the child's final status |
| `Handshake.BlockedWaitReadsStatus` | Assignment_6_2/Asignment_6_2_submission/process.c:119-122 | a wait that had to block always reads the final status |
| `Handshake.RacingRun` | Assignment_6_2/Asignment_6_2_submission/process.c:142-147 | a run in which exec returns -1 for a failed load and the first wait for that child returns UNDEFINED_EXIT |
| `Handshake.NoWakeupIsLost` | Assignment_6_2/Asignment_6_2_submission/process.c:80-82 | a parent inside exec or wait can go on or its child can; once the child is gone the parent can |
| `Handshake.WakeupArrives` | Assignment_6_2/Asignment_6_2_submission/process.c:151 | after at most seven protocol steps of the child the parent is released |
| `HandshakeState.ChildElement.constructor` | Assignment_6_2/Asignment_6_2_submission/thread.c:191-200 | a new child's element and semaphores |
| `HandshakeState.ChildElement.FinishLoad` | Assignment_6_2/Asignment_6_2_submission/process.c:75-89 | start_process stores whether load succeeded, ups wait_load and runs on exactly if it did; these are the two load steps of the protocol |
| `HandshakeState.ChildElement.Exit` | Assignment_6_2/Asignment_6_2_submission/syscall.c:197-214 | exit is the two exit steps of the protocol |
| `HandshakeState.ChildElement.ProcessExit` | Assignment_6_2/Asignment_6_2_submission/process.c:138-151 | process_exit is the last steps of the protocol |
| `HandshakeState.ChildElement.ProcessWait` | Assignment_6_2/Asignment_6_2_submission/process.c:111-126 | the first call returns exit_status and the later ones -1; a signal is used up only if the child was alive; result and fields are those of the steps CallWait and Continue without a break |
| `HandshakeState.ExitLeavesStatus` | Assignment_6_2/Asignment_6_2_submission/process.c:138-151 | without interruption exit (status) leaves status, a failed load leaves -1, and one signal is pending |
| `Descriptors.OpenKeepsInv` | Assignment_6_2/Asignment_6_2_submission/syscall.c:249-266 | open keeps the table increasing and the account of open and closed files balanced |
| `Descriptors.OpenReturns` | Assignment_6_2/Asignment_6_2_submission/syscall.c:249-266 | an open that fails returns -1 and changes nothing; one that succeeds returns a descriptor of 2 or more that was free and now leads to the new file |
| `Descriptors.CloseKeepsInv` | Assignment_6_2/Asignment_6_2_submission/syscall.c:327-346 | close keeps both as well |
| `Descriptors.OpenRefines` | Assignment_6_2/Asignment_6_2_submission/syscall.c:255-263 | open adds one entry to the map that get_fd answers for |
| `Descriptors.CloseRefines` | Assignment_6_2/Asignment_6_2_submission/syscall.c:327-346 | close removes just that entry, if there is one |
| `Descriptors.DescriptorsAreSound` | Assignment_6_2/Asignment_6_2_submission/syscall.c:249-266 | over every run get_fd answers as a map would, descriptors come out as 2, 3, 4, ... and never again, and after process_exit each opened file has been closed exactly once |
| `DescriptorState.Process.constructor` | Assignment_6_2/Asignment_6_2_submission/thread.c:487-490 | a new process has fd_size 1 and no open file |
| `DescriptorState.Process.FindFd` | Assignment_6_2/Asignment_6_2_submission/syscall.c:353-366 | the list loop finds the element the specification names |
| `DescriptorState.Process.OpenFile` | Assignment_6_2/Asignment_6_2_submission/syscall.c:249-266 | open on the fields has exactly the specified effect and result |
| `DescriptorState.Process.CloseFile` | Assignment_6_2/Asignment_6_2_submission/syscall.c:327-346 | the loop removes and closes exactly the first match |
| `DescriptorState.Process.CloseRemaining` | Assignment_6_2/Asignment_6_2_submission/process.c:170-180 | the loop of process_exit closes every remaining file once, in list order |
| `ListLinks.SecondRemoveIsHarmless` | Assignment_6_2/Asignment_6_2_submission/process.c:174-177 | after an element's removal a further list_remove of it changes no link, and the list is the old one without the element |
| `ListLinks.FdLinks.PopFront` | Assignment_6_2/Asignment_6_2_submission/process.c:175 | list_pop_front takes the first element off an intact list |
| `ListLinks.FdLinks.CloseRemaining` | Assignment_6_2/Asignment_6_2_submission/process.c:173-180 | the loop on the links, with its two removals per element, closes exactly the files the specification closes, in order, and leaves an empty, intact list |

## Left out

- The Assignment 2 shell, both shutdown.c files, and exception.c beyond its calls of exit (-1): process plumbing and port I/O.
- Assignment 6_1: the same loader and argument code as 6_2, with a busy-waiting process_wait.
- The thread version of Assignment 5: the same protocol and heap as the process version.
- Assignment 4's wake_up thread: its pointer is never set and its list never initialised, so the sleep queue is Assignment 3's.
- Random job fields, sleeps, printing, timing, shared-memory and pthread set-up, and the compute time of a removed job; job_completed counts removals.
- Overflow of the 64-bit tick counter and of the descriptor counter fd_size.
- Which thread the feedback queue dispatches: between ticks any existing thread may run and any number of the others may be ready, up to the stated bound.
- Context switches, interrupt delivery inside a scheduling call, stack frames and page-directory internals; calls with interrupts off are single steps.
- The memory of thread structures: the model forgets a dying thread, while thread_schedule_tail keeps initial_thread's page.
- Priority donation: locks_holding is never filled in the shown code, so thread_set_priority always takes its branch.
- The order of all_list, which is inserted with a comparator for another list member: the update loop is proved for every order.
- The order of the ready list under thread_mlfqs, where priorities of queued threads change without a re-sort.
- thread_get_recent_cpu: FP_ROUND of a negative number is not a nearest integer.
- Children that outlive their parent, and semaphores in the page of a child that is already freed.
- thread_create failing inside exec: exec then dereferences a missing element.
- handle_close, an empty dispatcher that never calls close, descriptor reads and writes, and pointer checks of system calls.
- A command line without any word: strtok_r then hands a null name to filesys_open.
- LoadProgram.Load: stops with StackOverflow where the code would go on storing below the stack page.
- Handshake.HandshakeIsSound: the fields are updated on values, not in place, so that single steps can interleave; the functions in place are in HandshakeState, without interleaving.
- HandshakeState.ChildElement.ProcessWait: covers a call that need not block; blocking is a step of the state machine in Handshake.
- DescriptorState.Process.OpenFile: the file lock around the file system calls is not modelled.
