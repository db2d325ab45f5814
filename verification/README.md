# Allocators, server, reader, job table and process tree

A model, in Dafny, of the parts of this operating-systems repository whose correctness is least evident from
reading them, with machine-checked proofs of what they keep.

* **Buddy allocator** (`hw4/wet/test2/malloc_3.cpp`). `Dyadic` has the arithmetic of XOR on aligned addresses,
  `Tiling` the abstract heap (blocks that tile the 4 MB arena) and its canonical form, `HeapOps` allocation,
  release, growth and whole runs, `Headers` the in-place headers and the eleven free lists, `BuddyAllocator` the
  class `MemList` with its loops, and `Deviations` the places where the code departs from the heap discipline.
* **First-fit allocator** (`hw4/wet/test2/malloc_2.cpp`): `FirstFit`. Both allocators share `Bytes`.
* **Thread-pool server** (`hw3/wet/server.c`, `hw3/wet/queue.c`): `LinkedQueue` is the linked queue and the
  random-drop loop, `Server` the acceptor and the workers as a transition system over all six policies.
* **Rio reader** (`hw3/wet/segel.c`): `Rio`, over an arbitrary sequence of replies of read().
* **Job table of the shell** (`hw1/wet/skeleton_smash`): `Jobs`.
* **Heaviest descendant** of a process (`hw2/wet/kernel/hw2.c`): `ProcessTree`.

`dafny verify dfyconfig.toml` checks the whole project.

## Conventions

Addresses of the buddy heap are offsets from the arena base in units of 128 bytes. The size of a header is an
arbitrary constant between 0 and 128. The cookie is an arbitrary constant; each `exit(0xdeadbeef)` is an
`assert false`. Payload bytes are a map from byte addresses; writing a header removes the bytes it covers, so a
payload that survives is one no header was written into. What sbrk, mmap, rand, the clock, waitpid and read()
return are parameters.

Methods that merge take a flag `strict`. With `true` the guard also compares the orders of the two blocks. With
`false` it is the guard as written (malloc_3.cpp lines 204, 249 and 281), and the method then requires that following
same-order buddies, as far as the operation goes, does not end at a smaller free block. That this requirement is exact
is proved for both merge loops: `Deviations.WrittenLoopIff` for every pass, `Deviations.WrittenFreeIff` and
`Deviations.WrittenGrowIff` for the whole calls. For Srealloc, `Deviations.ReallocSafeIff` says that it covers every
call that makes a merge, and `Deviations.UnsafeRun` gives a run that violates it. The two merge loops differ only in
the test of the size, and are one method `MergeLoop` with a goal.

In the server each critical section is one step. pthread_cond_signal wakes at least one waiter if there is one,
and waits may return spuriously, as the System Interfaces volume of POSIX.1-2017 allows. A worker whose dequeue
fails goes to sleep in the same step, because it holds `mutex` from the one to the other.

Where the code and its surroundings disagree, the model follows the code: `random` drops half of the queue
rounded down (server.c line 199) although hw3/wet/tests/utils.py line 129 expects the ceiling, and `rio_readlineb`
returns one more than the bytes it stored unless they end in a newline.

## Model

| member | source | states |
|---|---|---|
| Dyadic.XorIsBuddy | hw4/wet/test2/malloc_3.cpp:203 | XOR of an aligned address with 2^k is the start of the other half of its order-(k+1) parent |
| Dyadic.XorOnByteAddresses | hw4/wet/test2/malloc_3.cpp:331-338 | because the arena base is a multiple of the arena size, XOR on absolute byte addresses acts on 128-byte unit offsets exactly as the buddy function |
| Dyadic.Nested | hw4/wet/test2/malloc_3.cpp:173 | two aligned power-of-two intervals that meet are nested |
| Tiling.HalfPayload | hw4/wet/test2/malloc_3.cpp:171 | the half-size test (size - sizeof)/2 is exactly the payload of the next lower order |
| Tiling.BuddyStart | hw4/wet/test2/malloc_3.cpp:203-204 | in any aligned tiling the buddy address of a block is the start of a current block of at most the same order, inside the arena: merging never reads a stale header |
| Tiling.FreeRegionIsOneBlock | hw4/wet/test2/malloc_3.cpp:204-237 | in a heap without equal free buddies, an aligned interval made only of free blocks is a single block |
| Tiling.Canonical | hw4/wet/test2/malloc_3.cpp:199-240 | two coalesced tilings with the same live blocks are the same heap |
| Tiling.EmptyHeapIsInitial | hw4/wet/test2/malloc_3.cpp:351-361 | a coalesced heap with no live block is exactly the 32 initial order-10 blocks |
| HeapOps.AllocKeeps | hw4/wet/test2/malloc_3.cpp:155-197 | allocation keeps the tiling and its coalescing, yields the least order that holds the size, and changes no other live block |
| HeapOps.FreeKeeps | hw4/wet/test2/malloc_3.cpp:199-240 | release keeps the tiling and its coalescing and removes exactly the released block from the live ones |
| HeapOps.GrowKeeps | hw4/wet/test2/malloc_3.cpp:279-317 | in-place growth only extends the block over free space and stops short of the size only when no same-order buddy is free |
| HeapOps.GrowsToIff | hw4/wet/test2/malloc_3.cpp:242-317 | in-place growth reaches the size if and only if some aligned power-of-two interval large enough for it contains the block and besides it only free blocks |
| HeapOps.AllocThenFree | hw4/wet/test2/malloc_3.cpp:400-441 | allocation followed at once by release of the result restores the heap |
| HeapOps.FreesCommute | hw4/wet/test2/malloc_3.cpp:412-442 | the order of two releases does not matter |
| HeapOps.RunsAreSound | hw4/wet/test2/malloc_3.cpp:325-467 | every heap of every run of allocations, releases and in-place growths is a coalesced tiling |
| HeapOps.RunsForgetHistory | hw4/wet/test2/malloc_3.cpp:199-240 | any two runs that leave the same live blocks leave the same heap; a run that leaves none has restored the initial heap |
| HeapOps.BytesAddUp | hw4/wet/test2/malloc_3.cpp:123-138 | payload bytes plus one header per block are all the bytes of the arena |
| HeapOps.ListVisitsAll | hw4/wet/test2/malloc_3.cpp:104-111 | walking the block list visits every block once |
| Headers.RepresentationUnique | hw4/wet/test2/malloc_3.cpp:40-55 | the abstract heap determines all eleven free lists and every header field of the block list |
| Headers.HeadersDetermineHeap | hw4/wet/test2/malloc_3.cpp:40-55 | conversely the headers describe at most one heap |
| Headers.InsertSorted | hw4/wet/test2/malloc_3.cpp:320-323 | insertion at the lower bound keeps a list sorted and duplicate-free |
| Headers.SplitStep | hw4/wet/test2/malloc_3.cpp:170-195 | one pass of the split loop keeps headers, links, flags and lists in agreement with the halved heap |
| Headers.MergeStep | hw4/wet/test2/malloc_3.cpp:204-236 | one pass of the merge loop on a same-order free buddy keeps them in agreement with the merged heap, in both address orders |
| Headers.ListsCountFree | hw4/wet/test2/malloc_3.cpp:54 | every free block is in exactly one free list, once |
| Headers.PayloadKept | hw4/wet/test2/malloc_3.cpp:166-240 | header writes at block starts never touch the payload of a block of the tiling |
| BuddyAllocator.GuardIsAbsorb | hw4/wet/test2/malloc_3.cpp:203-204 | on a represented heap the merge guard holds exactly when the block can absorb its buddy, for the same-order guard always and for the guard as written when no smaller free buddy is met |
| BuddyAllocator.MemList.constructor | hw4/wet/test2/malloc_3.cpp:66 | the heap starts unset, with empty lists |
| BuddyAllocator.MemList.AddToFreeOrder | hw4/wet/test2/malloc_3.cpp:320-323 | inserts before the first entry not below the address |
| BuddyAllocator.SizeClasses | hw4/wet/test2/malloc_3.cpp:11-13 | the size limits; no block of any heap serves a size above the largest payload, so sizes from there to MAX_SIZE always fail |
| BuddyAllocator.MemList.GetFreeBlock | hw4/wet/test2/malloc_3.cpp:155-164 | finds nothing exactly when every free payload is below the size; otherwise takes, among the free blocks that suffice, the lowest address of the least order |
| BuddyAllocator.MemList.SplitIfPossible | hw4/wet/test2/malloc_3.cpp:166-197 | the new heap is the abstract split-down; headers and lists represent it; only header bytes change; the cookie exit is unreachable |
| BuddyAllocator.MemList.MergeLoop | hw4/wet/test2/malloc_3.cpp:203-237 | the merge loop, with or without a size to stop at, makes exactly the abstract merges; headers and lists represent the result; terminates; the cookie exits are unreachable |
| BuddyAllocator.MemList.UnionIfPossible | hw4/wet/test2/malloc_3.cpp:199-240 | the new heap is the abstract release; headers and lists represent it; only header bytes change |
| BuddyAllocator.MemList.SreallocUnion | hw4/wet/test2/malloc_3.cpp:279-318 | the new heap and block are those of abstract growth; headers and lists represent them; only header bytes change |
| BuddyAllocator.MemList.CheckIfUnionIsPossible | hw4/wet/test2/malloc_3.cpp:242-277 | changes nothing and answers true exactly when real growth would end with enough payload, if growth meets no free lower buddy |
| BuddyAllocator.MemList.Initialise | hw4/wet/test2/malloc_3.cpp:327-362 | sets up the 32 root blocks: headers, links and the order-10 list represent the initial heap |
| BuddyAllocator.MemList.Malloc | hw4/wet/test2/malloc_3.cpp:325-410 | fails on the heap exactly when no free payload suffices; the result, the new heap, the mmapped list in all size classes; no other live payload and no byte above the arena changes |
| BuddyAllocator.MemList.Free | hw4/wet/test2/malloc_3.cpp:412-442 | the new heap or mmapped list, and every other live payload unchanged |
| BuddyAllocator.MemList.ExtendInPlace | hw4/wet/test2/malloc_3.cpp:453-456 | in-place growth followed by memmove keeps the old payload at the new start, also when the block slides down, and every other live payload |
| BuddyAllocator.OutcomeTakesOver | hw4/wet/test2/malloc_3.cpp:444-467 | whichever path a realloc takes, the new heap is a coalesced tiling whose live blocks are the old ones with the block replaced by a result of sufficient payload |
| BuddyAllocator.MemList.Srealloc | hw4/wet/test2/malloc_3.cpp:444-467 | returns the block itself if it is large enough, else the block grown in place if growth suffices, else a new block or mapping, and fails exactly if there is none; the result starts with the old payload; no other live block, no other mapping and none of their bytes change |
| BuddyAllocator.MemList.GetNumberOfFreeBlocks | hw4/wet/test2/malloc_3.cpp:76-88 | the walk counts exactly the entries of the eleven free lists |
| BuddyAllocator.MemList.GetNumberOfAllocatedBlocks | hw4/wet/test2/malloc_3.cpp:104-121 | the number of heap blocks plus mmapped blocks |
| BuddyAllocator.MemList.GetNumberOfAllocatedBytes | hw4/wet/test2/malloc_3.cpp:123-149 | the last-minus-first formula is the sum of all payloads plus the mmapped sizes; with one header per heap block it makes 4 MB |
| BuddyAllocator.MappedDrops | hw4/wet/test2/malloc_3.cpp:141-146 | a mapping counts for its size and nothing else |
| BuddyAllocator.MemList.CountOverMapping | hw4/wet/test2/malloc_3.cpp:123-149 | the count of bytes rises by exactly the size asked of mmap and falls back when the mapping is freed |
| Deviations.PassIff | hw4/wet/test2/malloc_3.cpp:204-236 | one merge pass under the guard as written leaves a heap exactly when the two orders are equal |
| Deviations.WrittenLoopIff | hw4/wet/test2/malloc_3.cpp:203-237 | either merge loop as written (lines 204 and 281) describes a heap at every pass if and only if following same-order buddies, as far as its goal asks, never ends at a smaller free block |
| Deviations.ClaimRefutes | hw4/wet/test2/malloc_3.cpp:210-211 | a header whose interval contains the start of a block is part of no tiling with that block |
| Deviations.WrittenFreeIff | hw4/wet/test2/malloc_3.cpp:199-240 | the whole release as written, once its loop has ended, leaves headers and lists of the properly freed heap if and only if following same-order buddies never ends at a smaller free block; otherwise they describe no heap at all that keeps the other live blocks |
| Deviations.WrittenGrowIff | hw4/wet/test2/malloc_3.cpp:279-315 | the same for in-place growth as written without line 316, for buddies up to the size asked for |
| Deviations.WrittenGrowNever | hw4/wet/test2/malloc_3.cpp:279-318 | in-place growth exactly as written, with line 316, never leaves headers and lists of a heap that keeps the other live blocks |
| Deviations.ReallocSafeIff | hw4/wet/test2/malloc_3.cpp:453-466 | the merge that a growing realloc makes under the guard as written, in place or in the release at its end, is safe exactly under the requirement of Srealloc, except for calls that fail without a merge |
| Deviations.WrittenLoopEnds | hw4/wet/test2/malloc_3.cpp:204-237 | the merge loop as written ends from every state, also on headers that no longer describe a heap |
| Deviations.UnsafeRun | hw4/wet/test2/malloc_3.cpp:204 | a concrete run (three allocations, one release that is safe as written) that reaches a heap where releasing or growing the first block is unsafe |
| Deviations.UnsafeFreeOverlaps | hw4/wet/test2/malloc_3.cpp:208-214 | on that heap the release enlarges a header over a block that is still live |
| Deviations.DryRunEndsIff | hw4/wet/test2/malloc_3.cpp:249-271 | the dry run, with the guard as written or with the same-order guard, ends if and only if growth meets no free lower buddy; otherwise its state repeats forever |
| Deviations.DryRunDiverges | hw4/wet/test2/malloc_3.cpp:249-271 | on the heap of that run, growing the block at 3 as written probes forever |
| Deviations.AnyInsertionBreaksLists | hw4/wet/test2/malloc_3.cpp:316 | on headers and lists that describe a heap any insertion, in particular that of line 316, leaves them describing none |
| Deviations.ArenaOwnedIff | hw4/wet/test2/malloc_3.cpp:329-338 | the arena is aligned, and lies in memory obtained from sbrk if and only if the program break was not aligned before |
| FirstFit.BytesAddUp | hw4/wet/test2/malloc_2.cpp:96-97 | the distance from the first block to the break is the payloads plus one header per block |
| FirstFit.MemList.Search | hw4/wet/test2/malloc_2.cpp:103-113 | finds the lowest-address free block of at least the size; otherwise every block is live or smaller, and it returns the last one |
| FirstFit.MemList.Malloc | hw4/wet/test2/malloc_2.cpp:102-139 | takes the lowest-address free block of at least the size; extends the space or fails only if every block is live or smaller; the list stays a contiguous doubly linked tiling of the space |
| FirstFit.MemList.FreeThenMalloc | hw4/wet/test2/malloc_2.cpp:102-144 | a request no larger than a block just released is met at or below that block, and the break stays |
| FirstFit.MemList.Free | hw4/wet/test2/malloc_2.cpp:141-144 | only the flag of the block changes |
| FirstFit.MemList.Srealloc | hw4/wet/test2/malloc_2.cpp:146-160 | keeps a block that is large enough; otherwise fails exactly when no free block fits and sbrk is refused, and on success takes the lowest-address fit or extends the space, starts with the old payload and frees the old block; every other live block and its payload are unchanged |
| FirstFit.MemList.GetNumberOfAllocatedBytes | hw4/wet/test2/malloc_2.cpp:82-100 | the last-minus-first formula is the sum of all payload sizes |
| LinkedQueue.DrawOutKeeps | hw3/wet/server.c:199-207 | the random draws lose and duplicate nothing and leave the survivors as a subsequence in order |
| LinkedQueue.EveryEntryCanBeDrawn | hw3/wet/server.c:203-204 | every entry still queued is the one drawn when its position comes up |
| LinkedQueue.Queue.constructor | hw3/wet/queue.c:7-12 | the queue starts empty |
| LinkedQueue.Queue.Enqueue | hw3/wet/queue.c:22-35 | appends the entry; front, rear, links and size stay consistent |
| LinkedQueue.Queue.Dequeue | hw3/wet/queue.c:38-60 | removes and returns the head, or -1 on an empty queue |
| LinkedQueue.Queue.DequeueAt | hw3/wet/queue.c:62-92 | removes exactly the i-th entry, or returns -1 past the end |
| LinkedQueue.Queue.DropRandomHalf | hw3/wet/server.c:191-210 | every draw is a valid index; exactly half of the queue, rounded down, is dropped; an empty queue is rejected |
| Server.CountedStep | hw3/wet/server.c:109-134 | num_of_curr_working is the number of workers between their dequeue and their decrement |
| Server.WorkConservingStep | hw3/wet/server.c:84-126 | every step keeps: while a worker sleeps, each queued request has an awake worker heading for it, but for one whose signal is pending |
| Server.NoLostWakeupStep | hw3/wet/server.c:132-135 | every step keeps: if the acceptor sleeps although it need not, some worker is between its decrement and its signal |
| Server.BoundedStep | hw3/wet/server.c:75-87 | every step keeps the load within the bound of the policy, and strictly below it before an enqueue |
| Server.CapacityStep | hw3/wet/server.c:183-189 | the capacity never decreases; only dynamic raises it, and not above max(initial, max_size) |
| Server.ConservedStep | hw3/wet/server.c:71-138 | every step keeps each accepted request in exactly one of the acceptor's hand, the queue, a worker's hand, or one of the logs of closed requests |
| Server.InOrderStep | hw3/wet/server.c:84-113 | every step keeps the dispatched requests followed by the queue in strict arrival order, under every policy |
| Server.ReachableHolds | hw3/wet/server.c:71-210 | all of these hold in every reachable state, for every policy, pool size, schedule and spurious wakeup |
| Server.NoDeadlock | hw3/wet/server.c:145-181 | whenever the acceptor sleeps on cond2, some worker is awake and its next step is enabled, outside block with a capacity below one |
| Server.DeadlockIff | hw3/wet/server.c:145-152 | a state in which the acceptor and all workers sleep is reachable exactly under block with a capacity below one |
| Server.GreatestLoad | hw3/wet/server.c:75-87 | under every policy the greatest queue_size + num_of_curr_working over all reachable states, exactly: the capacity or 0, for dynamic the larger of capacity and max_size, for random with a positive capacity the larger of capacity and threads + 2 |
| Server.RandomExceedsIff | hw3/wet/server.c:191-210 | under random the load can exceed the capacity exactly when the capacity is between 1 and threads + 1 |
| Server.FlushClosesIdle | hw3/wet/server.c:173-181 | bf closes the held connection only with an empty queue and no busy worker |
| Server.DroppedNeverDispatched | hw3/wet/server.c:154-210 | no request is closed twice, and a dropped request is never dispatched |
| Server.WhatIsDropped | hw3/wet/server.c:154-210 | a refused request is the newest of all; dh drops the oldest queued one; random drops half of the queue rounded down |
| Server.OverloadOutcome | hw3/wet/server.c:144-210 | from the policy and the state before: block waits exactly while the load is at the capacity and then admits; bf waits exactly while there is any load and never admits; dt and dynamic refuse; dh and random refuse on an empty queue and otherwise admit, dh at the expense of exactly the oldest queued request |
| Server.BlockLosesNothing | hw3/wet/server.c:145-152 | under block nothing is ever dropped: every request that arrived is held, queued or finished |
| Rio.LineShape | hw3/wet/segel.c:406-418 | a line contains a newline only at its end and stops early only at a newline or the end of the stream |
| Rio.LinesRejoin | hw3/wet/segel.c:401-421 | the lines of a stream rejoin to the stream |
| Rio.ReturnValue | hw3/wet/segel.c:401-421 | the return value is the number of bytes stored exactly when they hold a newline, otherwise one more, which happens only at the limit or the end of the stream |
| Rio.Reader.constructor | hw3/wet/segel.c:363-368 | a fresh reader has the whole stream pending |
| Rio.Reader.Refill | hw3/wet/segel.c:335-346 | short reads, interruptions and errors lose no byte; end of file is reported only when nothing is pending |
| Rio.Reader.Read | hw3/wet/segel.c:331-356 | hands out a prefix of what is pending and keeps the rest: min(n, buffered) bytes without a read() if any are buffered, and fewer than n only by emptying the buffer |
| Rio.Reader.ReadN | hw3/wet/segel.c:375-394 | returns the next min(n, remaining) bytes however read() cuts the stream |
| Rio.Reader.ReadLine | hw3/wet/segel.c:401-421 | stores exactly the next line; the return value is its length when it ends in a newline and one more otherwise, 0 at end of file |
| Rio.Reader.ReadAllLines | hw3/wet/segel.c:401-421 | successive calls return exactly the lines of the stream, independently of the replies of read() |
| Jobs.IssueKeeps | hw1/wet/skeleton_smash/Commands.cpp:891-895 | with a correct maximum the new job is listed last, under an id one more than the largest listed one |
| Jobs.UnfinishedExactly | hw1/wet/skeleton_smash/Commands.cpp:843-856 | the loop keeps exactly the jobs that are not Finished |
| Jobs.ReapExactly | hw1/wet/skeleton_smash/Commands.cpp:823-860 | reaping keeps exactly the listed jobs that are neither reaped nor Finished, in their order |
| Jobs.DropMaximumIff | hw1/wet/skeleton_smash/Commands.cpp:782-792 | after a removal the maximum is still the largest listed id if and only if the job did not hold it, or the next lower id is listed or 0; it is never too small |
| Jobs.ReapKeeps | hw1/wet/skeleton_smash/Commands.cpp:823-860 | reaping keeps ids distinct and makes the maximum the largest listed id |
| Jobs.CtrlZHolds | hw1/wet/skeleton_smash/signals.cpp:8-28 | Ctrl-Z at any moment keeps ids distinct and issues only the next id |
| Jobs.CtrlZStops | hw1/wet/skeleton_smash/signals.cpp:8-28 | after Ctrl-Z the foreground job is listed as Stopped, under its old id if it had one, and every other job is as it was |
| Jobs.StatusEvents | hw1/wet/skeleton_smash/signals.cpp:29-41 | Ctrl-C, and bg and kill likewise, set the status of exactly the job named |
| Jobs.CommandReaps | hw1/wet/skeleton_smash/Commands.cpp:214-217 | a command that works with jobs and starts none leaves exactly the jobs that are neither reaped nor Finished |
| Jobs.FgThenCtrlZ | hw1/wet/skeleton_smash/Commands.cpp:241-253 | fg takes exactly its job off the list, and Ctrl-Z puts it back at the end, stopped and under its old id |
| Jobs.ForegroundThenCtrlZ | hw1/wet/skeleton_smash/Commands.cpp:380-391 | Ctrl-Z lists an unlisted foreground command, stopped, under the next id, and stops a pipe in its entry |
| Jobs.SessionHolds | hw1/wet/skeleton_smash/Commands.cpp:219-393 | in every interleaving of commands, reaping, Ctrl-C and Ctrl-Z ids stay pairwise distinct and each issued id is one more than the largest listed id |
| Jobs.JobsList.AddNew | hw1/wet/skeleton_smash/Commands.cpp:891-895 | appends a job under the next id |
| Jobs.JobsList.AddBack | hw1/wet/skeleton_smash/Commands.cpp:896-906 | appends the job unless its id is listed |
| Jobs.JobsList.GetJobById | hw1/wet/skeleton_smash/Commands.cpp:749-756 | finds the first job with the id |
| Jobs.JobsList.RemoveJobById | hw1/wet/skeleton_smash/Commands.cpp:782-792 | removes the first job with the id and steps the maximum down when that job held it |
| Jobs.JobsList.RemoveJobByPid | hw1/wet/skeleton_smash/Commands.cpp:794-804 | the same by process id |
| Jobs.JobsList.RemoveFinishedJobs | hw1/wet/skeleton_smash/Commands.cpp:823-860 | removes reaped and finished jobs and recomputes the maximum |
| Jobs.JobsList.GetMaxStoppedJobID | hw1/wet/skeleton_smash/Commands.cpp:806-814 | the largest id of a stopped job, or 0 |
| ProcessTree.SubtreeIsReached | hw2/wet/kernel/hw2.c:50-52 | the nodes searched are exactly those that paths of child indices lead to: all of them for the subtree, those of at least one step for the descendants |
| ProcessTree.HeaviestUnique | hw2/wet/kernel/hw2.c:53-59 | the heaviest process, the least pid among equals, is the same whatever order the processes are listed in |
| ProcessTree.FindHeaviest | hw2/wet/kernel/hw2.c:37-64 | the recursive search returns the heaviest process of the subtree; started at the caller it returns the heaviest proper descendant, and reads through a null pointer exactly when the first child's subtree has weight 0 throughout |
| ProcessTree.GetHeaviestDescendant | hw2/wet/kernel/hw2.c:66-78 | -ECHILD without children; otherwise fails exactly when no path from the first child leads to a positive weight, and else returns the pid of a process some non-empty path leads to that outweighs every other such process, or ties with a lower pid |
| ProcessTree.OrderDecides | hw2/wet/kernel/hw2.c:41-60 | two calls with the same two children in the two orders: one fails, the other returns the heavy child |

## Left out

- BuddyAllocator.MemList.SreallocUnion: does not make the insertion of line 316, because with it the call never leaves a heap (`Deviations.WrittenGrowNever`); the guard as written is allowed exactly where it is right (`Deviations.WrittenGrowIff`).
- BuddyAllocator.MemList.CheckIfUnionIsPossible: requires that growth meets no free lower buddy, because the source does not terminate otherwise (`Deviations.DryRunEndsIff`).
- BuddyAllocator.MemList.Srealloc: requires the same of a growing call, and covers blocks of the arena only; growing an mmapped block computes `pow2(-1)`, which has no defined meaning. With the guard as written it also excludes calls that fail without a merge on a heap where growth would be unsafe (`Deviations.ReallocSafeIff`).
- BuddyAllocator.MemList.UnionIfPossible: requires a live block, since the source has no double-free check, and for the guard as written the exact condition of `Deviations.WrittenFreeIff`.
- BuddyAllocator.MemList.Free: the mmapped blocks are a sequence, without their own headers and links; munmap, its cookie test, and the missing munmap of the first mapping are not modelled.
- BuddyAllocator.MemList.Initialise: takes the aligned 4 MB region as given; when sbrk really provides it is `Deviations.ArenaOwnedIff`.
- Deviations.WrittenLoopEnds: on an already corrupted heap, a pass that would read an address holding no header counts as the end of the loop; what the source reads there is undefined. The same holds for `Deviations.WrittenFreeIff` and `Deviations.WrittenGrowIff`, where an order past the last free list also counts as no insertion.
- Deviations.DryRunEndsIff: with the guard as written, says nothing where growth meets a smaller free block: with such a buddy below, the dry run may go on to read payload bytes of the block itself as a header.
- LinkedQueue.Queue.DequeueAt: requires an index of at least 1, as its only caller passes; with 0 the source walks off the list.
- Server.ReachableHolds: liveness is not proved beyond the absence of deadlock; fairness of the scheduler is not modelled.
- scalloc, the size-zero and null-pointer tests of the srealloc wrappers, GetNumberOfFreeBytes and the metadata counters add only easy members.
- Unknown schedalg strings, argument parsing, sockets, HTTP handling (hw3/wet/request.c), statistics and thread creation.
- The unbuffered Rio routines, rio_writen, and the user buffers of the Rio calls, which are returned as sequences.
- fork, exec, pipes, redirection, signals sent to processes, printing and argument parsing of the shell; iterators are read before the erase, not after it as in Commands.cpp lines 785-786 and 797-798.
- The kernel calls hello, set_weight, get_weight and get_ancestor_sum of hw2/wet/kernel/hw2.c, and hw4/wet/test2/malloc_1.cpp, add only easy members.
