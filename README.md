# Job pool and slab allocator, modelled in Dafny

This project models the two bookkeeping cores of a small C concurrency runtime.

**The slab allocator (`memory-pool.c`).** A pool owns a list of segments. A segment owns `count` slots and a LIFO free-list of its unused slots. A slot is a header (the `is_allocated` flag and back-links to its segment and pool) followed by `alloc_size` payload bytes.
- Allocation chooses the non-full segment with the largest count and pops its free-list. It marks the slot allocated and zero-fills the payload. When every segment is full, it first adds a segment of `new_segment_count` slots.
- The growth hint `new_segment_count` rises to twice the count of any full segment met during the scan.
- Freeing checks for a double free and pushes the slot back on its own segment's free-list.
- Tearing a pool down refuses a pool that still has a live slot.

**The job scheduler (`thread-pool.c`).** Jobs form a tree through `parent` links. A parent's `dependency_count` is the number of its children that have not finished.
- `thread_job_add_child` raises the count.
- `start_parent` lowers it. It queues the parent when the count goes from 1 to 0, and aborts on a count of 0 ("did a job run twice?").
- `flush_jobs` drains the queue in passes of at most 100 jobs taken from its tail. It skips stale jobs whose count is not 0. It ends each job that runs (freeing it, or marking it finished for a waiter) and then retires the job from its parent.

Modules:
- `Wrappers`: the `Option` type, which stands for a nullable pointer.
- `MemoryPool`: the allocator as a class `Pool`. Segments are values, and the methods rewrite the pool's sequence of segments in place. A payload pointer is a `Handle` naming pool, segment and slot.
- `JobProtocol`: the job protocol as values. One function per scheduler step, with the properties of those steps as lemmas:
  - the `start_parent` table;
  - exactly-once enqueueing under any sequence of registrations and completions;
  - the batch split;
  - stale jobs;
  - what a job's function may do while it runs: the calls it makes into the pool (allocating a job, `thread_job_add_child`, `thread_pool_add_job`, `thread_pool_quit`);
  - termination of the drain when the jobs' functions make finitely many calls, through the measure "queued jobs + outstanding children + calls still to come".
- `ThreadPool`: the pool and its jobs as a class whose methods update the job table and the queue in place. The scheduler steps (`StartParent`, `JobEnd`, `AddChild` (against `LinkChild`), `AddJob`, `RunCall`, `RunBody`, `TakeBatch`, `RunCached`, `RunBatch` and `FlushJobs`) are each proved against the matching `JobProtocol` function. The remaining methods (`AllocateJob`, `JobInit`, `JobCount`, `Quit`, `Wait` and `CompleteWait`) state their new state directly in their contracts.
- `CountTest`: the job tree spawned by `test/count/test.c`. The number of leaf executions is L(c) = 1 + 2c·L(c−1) whatever order the workers take jobs in. For the test's count of 6 it is 75973. The spawn loop of its leaf function, written as calls into the pool, allocates exactly the jobs `Spawned(c)` counts and queues one child per round.
- `FlushLocking`: the pool mutex through one pass of `flush_jobs`. It records the defect listed under Findings.

Failures that the C code detects on reachable paths are error results of the model:
- The three `abort()` calls become `DoubleFree` (memory-pool.c:209), `NonemptyPool` (memory-pool.c:236) and `RanTwice` (thread-pool.c:95).
- The asserts that a slot is still allocated become `UseAfterFree`. These are the asserts of `thread_memory_lock` (in `flush_jobs` and `start_parent`) and of `thread_memory_unlock` (in `thread_pool_add_job` and in `thread_job_end`'s waited branch).
- The job-state asserts of `thread_job_wait` become `AlreadyFinished` (thread-pool.c:304) and `AlreadyQueued` (thread-pool.c:308).

`thread_job_init`'s assert that the function is not yet set (thread-pool.c:288) is on an argument the caller controls, so it is a precondition. `CompleteWait` requires the job to be finished. This stands in for the blocking loop of `thread_job_wait` (thread-pool.c:319-322), which returns only once the flag is set.

Segment order. The C list inserts new segments at its head, and both the scan and the teardown walk from the head. The model appends segments to a sequence and walks from its end, so the list order is kept. `choose_free_segment` keeps the first of several segments of equal count. In the model that is the one with the highest index (`IsBestFree`).

## Model

| member | source | states |
|---|---|---|
| MemoryPool.Pool.constructor | memory-pool.c:68-78 | a new pool has no segments, a growth hint of 1024 and `allocSize` equal to the item size |
| MemoryPool.Pool.SegmentIndex | memory-pool.c:59-66 | the header of slot `index` of a segment is back-linked to that segment and this pool and carries `allocSize` payload bytes |
| MemoryPool.Pool.SegmentAdd | memory-pool.c:80-106 | the pool gains exactly one segment, at the front of list order, and it is `FreshSegment(count, ...)`; the pool stays valid and the hint is unchanged |
| MemoryPool.FreshSegmentValid | memory-pool.c:86-103 | a fresh segment has `count` slots, all unallocated, zeroed and back-linked, and a free-list of length `count` holding each slot once |
| MemoryPool.Pool.ChooseFreeSegment | memory-pool.c:108-135 | the result is None exactly when every segment is full; otherwise it has a free slot, no non-full segment is larger, and it is the first of that count in list order; the hint never decreases, is at least twice every full segment's count, and is the old hint or one of those doubles |
| MemoryPool.ScanHintStep | memory-pool.c:123-131 | visiting one more segment keeps the hint the largest of the old hint and twice the count of every full segment seen |
| MemoryPool.ScanChoiceStep | memory-pool.c:116-122 | visiting one more segment keeps the choice the best segment with a free slot seen so far, replaced only by a strictly larger one, and None exactly when all seen segments are full |
| MemoryPool.Pool.ChooseOrAllocFreeSegment | memory-pool.c:137-151 | the chosen segment has a free slot; it is the best existing one when there is one, and otherwise a fresh segment of `newSegmentCount` slots added for it |
| MemoryPool.Pool.Calloc | memory-pool.c:153-191 | (`Calloced`) the handle names the last entry of the chosen segment's free-list, which was unallocated; the pool afterwards is exactly that segment after `Allocate` (list one shorter, slot allocated, payload zeroed) with every other segment unchanged |
| MemoryPool.AllocateKeepsValid | memory-pool.c:163-184 | popping the free-list takes an unallocated slot, allocates and zero-fills it, shortens the list by one, leaves every other slot alone and keeps the free-list exact |
| MemoryPool.AllocateSparesLive | memory-pool.c:165-176 | an allocation hands out no slot that is live and leaves every live slot and its stored value unchanged, so live allocations never share a slot |
| MemoryPool.Pool.Write | test/memory-pool-alloc/test.c:21-24 | storing into an allocated payload changes that payload and nothing else |
| MemoryPool.Pool.FreeSlot | memory-pool.c:204-216 | freeing an unallocated slot is `DoubleFree` and changes nothing; otherwise the slot is pushed on its own segment's free-list and unflagged, and no other segment changes |
| MemoryPool.ReleaseKeepsValid | memory-pool.c:206-213 | freeing an allocated slot pushes it once, clears its flag, leaves every other slot alone and keeps the free-list exact |
| MemoryPool.ReleaseSparesOthers | memory-pool.c:206-213 | freeing a slot leaves every other slot of the pool and its stored value unchanged |
| MemoryPool.MemoryFree | memory-pool.c:193-217 | `thread_memory_free` finds pool and segment through the slot's header and then behaves as `FreeSlot` on that pool: `DoubleFree` exactly for an unallocated slot with nothing changed, otherwise that slot released in its segment, and the growth hint unchanged in both cases |
| MemoryPool.CallocFromPeer | memory-pool.c:306-312 | allocating from a peer is `Calloc` on the peer's own pool (`Calloced`: same segment choice, growth hint and popped slot, every other segment unchanged); the new slot is allocated and zeroed, and a live peer keeps its slot and payload and is not handed out again |
| MemoryPool.FreeListCount | memory-pool.c:233-237 | in a valid segment the free-list is never longer than `count`, and its length equals `count` if and only if no slot is allocated |
| MemoryPool.Pool.Destroy | memory-pool.c:219-259 | teardown succeeds if and only if every free-list length equals its segment's count, which holds if and only if no slot is allocated; on success no segment is left |
| JobProtocol.StartParentEffect | thread-pool.c:71-98 | for a named parent, start_parent either aborts and changes nothing (`UseAfterFree` exactly when the parent is freed, `RanTwice` exactly when it is allocated with count 0) or lowers that count by one, touches no other job, and appends the parent to the queue exactly when the count was 1 |
| JobProtocol.StartParentIsReplayStep | thread-pool.c:78-96 | start_parent on an allocated parent is the `ChildFinished` step of `Replay`: same outcome, same new count, same number of enqueues, the queue only extended |
| JobProtocol.NoEarlyEnqueue | thread-pool.c:79-91 | while a child stays outstanding after every event, the parent is never enqueued and its count is the start count plus registrations minus completions |
| JobProtocol.ExactlyOnce | thread-pool.c:71-98 | when the last outstanding child finishes, the parent has been enqueued exactly once, and one more completion is the fatal "ran twice", under any interleaving of registrations and completions |
| JobProtocol.RegisteredChildren | thread-pool.c:278-284 | with k registered children the first k−1 completions only count down, the k-th enqueues the parent once, the (k+1)-th is fatal |
| JobProtocol.JobEndKeepsCounts | thread-pool.c:100-112 | ending a job keeps every count, parent link and the queue; a waited job becomes finished and stays allocated, any other job is freed; `UseAfterFree` happens exactly for a waited, already freed job and `DoubleFree` exactly for an unwaited one |
| JobProtocol.LinkChildEffect | thread-pool.c:278-284 | `thread_job_add_child` sets the child's parent link and raises that parent's count, and so the total count, by exactly one; no other count, link or allocation flag changes |
| JobProtocol.CallEffect | thread-pool.c:163 | one call of a job's function keeps the table well formed and the queue as a prefix; it aborts only with `UseAfterFree` and then changes nothing; otherwise it raises queued jobs plus outstanding children by at most one, changes only the count of the parent it registers a child on, and appends only the job it hands to `thread_pool_add_job` |
| JobProtocol.BodyKeeps | thread-pool.c:163 | a job's function keeps the table well formed and the queue as a prefix, and without a fatal error raises queued jobs plus outstanding children by at most its number of calls |
| JobProtocol.BodyEffect | thread-pool.c:163 | a job's function changes only the counts of jobs it registers a child on, and appends to the queue only jobs it hands to `thread_pool_add_job` |
| JobProtocol.BodyQuits | thread-pool.c:264-270 | after a job's function the pool's `should_quit` flag is still set if it was, is set only if the function calls `thread_pool_quit`, and, when no call failed, is set exactly when it was set before or the function calls it |
| JobProtocol.BodyAppend | thread-pool.c:163 | a function whose calls are `a` then `b` runs `b` from where `a` left off, and stops at an abort in `a` |
| JobProtocol.RunCachedSpec | thread-pool.c:152-169 | one cached job, its function's calls included, keeps the job table well formed and the queue as a prefix, and without a fatal error raises queued jobs plus outstanding children by at most the number of calls its function makes |
| JobProtocol.RunCachedEnqueues | thread-pool.c:152-169 | a cached job runs exactly when it is allocated with count 0; a stale job changes nothing; without a fatal error a count of 0 stays 0 unless the function registers a child on that job, and every job appended to the queue was handed to `thread_pool_add_job` by the function or has count 0 |
| JobProtocol.RunBatchSpec | thread-pool.c:150-170 | a pass over a batch keeps the table well formed and the queue as a prefix, and without a fatal error raises queued jobs plus outstanding children by at most the number of calls the functions make |
| JobProtocol.RunBatchEnqueues | thread-pool.c:150-170 | a pass only runs batch jobs; without a fatal error a count of 0 stays 0 unless a function registers a child on that job, and every appended job was added by a function, had a child registered by one, or has count 0: a stale job is not put back |
| JobProtocol.TakeCount | thread-pool.c:118-125 | a pass takes min(queue length, 100) jobs, and at least one when the queue is not empty |
| JobProtocol.SplitBatch | thread-pool.c:138-142 | the remaining queue followed by the batch is the old queue, and the batch has `TakeCount` entries: the tail in queue order |
| JobProtocol.FlushSpec | thread-pool.c:114-173 | when the jobs' functions make finitely many calls in all, draining ends, and without a fatal error it ends with an empty queue and the table well formed |
| ThreadPool.IsIn | thread-pool.c:41-54 | the search answers true if and only if the job is in the queue |
| ThreadPool.ThreadPool.constructor | thread-pool.c:232-234 | a new pool has no jobs, an empty queue and `should_quit` false |
| ThreadPool.ThreadPool.AllocateJob | memory-pool.c:174-182 | a job from a job pool is zero-filled and allocated: no function, count 0, no parent, neither waited nor finished |
| ThreadPool.ThreadPool.JobInit | thread-pool.c:286-293 | the job's function is set once and nothing else changes |
| ThreadPool.ThreadPool.AddChild | thread-pool.c:278-284 | the child's parent becomes the parent and the parent's count rises by exactly one (the `ChildAdded` step of `Replay`); nothing else changes |
| ThreadPool.ThreadPool.AddJob | thread-pool.c:213-223 | the new state and outcome are those of `AddJobSpec`: a freed job is `UseAfterFree`, any other job is appended to the end of the queue, and nothing else changes |
| ThreadPool.ThreadPool.RunCall | thread-pool.c:163 | the new state and outcome are those of `CallSpec`, whose properties `CallEffect` states |
| ThreadPool.ThreadPool.RunBody | thread-pool.c:163 | the calls run in order and stop at the first fatal error: the new state and outcome are those of `BodySpec` |
| ThreadPool.ThreadPool.JobCount | thread-pool.c:205-211 | the result is the queue length |
| ThreadPool.ThreadPool.Quit | thread-pool.c:265-271 | `should_quit` becomes true; jobs and queue are unchanged |
| ThreadPool.ThreadPool.StartParent | thread-pool.c:71-98 | the new state and outcome are those of `StartParentSpec` |
| ThreadPool.ThreadPool.JobEnd | thread-pool.c:100-112 | the new state and outcome are those of `JobEndSpec` |
| ThreadPool.ThreadPool.TakeBatch | thread-pool.c:116-142 | the batch and the remaining queue are `SplitBatch` of the old queue |
| ThreadPool.ThreadPool.RunCached | thread-pool.c:152-169 | running the job's function between the run and reading its parent, the new state, outcome and jobs run are those of `RunCachedSpec` |
| ThreadPool.ThreadPool.RunBatch | thread-pool.c:150-170 | the new state, outcome and jobs run are those of `RunBatchSpec` |
| ThreadPool.ThreadPool.FlushJobs | thread-pool.c:114-174 | the new state, outcome and jobs run are those of `FlushSpec`; without a fatal error the queue ends empty |
| ThreadPool.ThreadPool.Wait | thread-pool.c:300-313 | the job becomes waited; a finished job is `AlreadyFinished`; a job with count 0 is appended to the queue unless it is already queued (`AlreadyQueued`); a job with outstanding children leaves the queue alone |
| ThreadPool.ThreadPool.CompleteWait | thread-pool.c:324 | the waiter frees the finished job, and freeing it twice is `DoubleFree` |
| CountTest.SpawnedTotal | test/count/test.c:37-73 | the leaves a leaf spawns account for all of its executions but its own |
| CountTest.RunLeafTotal | test/count/test.c:37-73 | running any pending leaf performs exactly one of the executions still to come |
| CountTest.Drain | test/count/test.c:37-73 | whatever order the pending leaves are run in, the number of executions is the sum of L(c) over them |
| CountTest.CountTestResult | test/count/test.c:106-116 | the test's single leaf of count 6 yields 75973 leaf executions in every order |
| CountTest.SpawnRoundEffect | test/count/test.c:54-69 | one round of the leaf's loop never fails: it appends a peer with count 1 linked to the leaf's parent and a child with count 0 linked to the peer, raises the parent's count by one and queues the child |
| CountTest.SpawnLoopEffect | test/count/test.c:52-72 | the leaf's loop for count c never fails, appends one job for each leaf `Spawned(c)` counts (2c jobs, round by round), raises the parent's count by c, changes no other job, and queues the c children in order |
| FlushLocking.StaleIsSkipped | thread-pool.c:154-161 | an allocated job is `Stale` for the lock model exactly when the scheduler's cache loop skips it without running it or changing anything |
| FlushLocking.StaleJobDeadlocks | thread-pool.c:156-161 | as written, a pass of flush_jobs deadlocks its worker if and only if its batch holds a stale job |
| FlushLocking.OneStaleJob | thread-pool.c:156-172 | as written, a batch of one stale job deadlocks the worker |
| FlushLocking.FlushPassEndsHeld | thread-pool.c:145-172 | with the stale branch releasing only the job, every pass ends with the worker holding the pool lock, as the loop condition needs |

## Left out

- Mutexes and condition variables are not modelled: the pool lock, the per-slot lock, and `thread_memory_lock/unlock/wait/signal/broadcast` (memory-pool.c:261-304). The model is sequential. Only the allocation asserts of `thread_memory_lock` and `thread_memory_unlock` are kept, as `UseAfterFree`. `FlushLocking` models the pool lock alone, for one pass.
- The worker loop (`worker_function`), thread creation and joining in `thread_pool_host`, and its final "queue empty" assertion are OS and thread plumbing. `FlushJobs` ensures the empty queue instead.
- Header layout and pointer arithmetic (`memory_header_end`, `memory_segment_end` and their asserts) are not modelled. Handles replace them, so those bounds hold by construction. The `memcpy` into the cache is the sequence slice in `TakeBatch`.
- Job functions are foreign code. A job's function is modelled by the calls it makes into the pool: allocating a job (as `calloc_from_peer` does in the count test), `thread_job_add_child`, `thread_pool_add_job` and `thread_pool_quit` (as the count test's root job does, test/count/test.c:80). `thread_pool_quit`'s broadcast to the workers is not modelled. `thread_job_init`, writes to the job's argument and the per-job lock and unlock a function takes around `thread_job_add_child` (test/count/test.c:57-59, 67) are not calls of the model. Counters a function updates under its own mutex (test/count/test.c:41-43) are modelled by `CountTest`'s leaf count only.
- JobProtocol.RunCachedSpec: a job runs its calls whatever its `jobFunction`. A job that never went through `thread_job_init` has a NULL function, and in C the call at thread-pool.c:163 would crash. The model does not tell this case apart.
- JobProtocol.CallSpec: a call naming a job outside the table does nothing. In C such a call would use a dangling pointer.
- JobProtocol.FlushSpec: termination is stated for finitely many calls in all (`bodies` is a finite list, and jobs past its end run functions that make no calls). A job function that keeps adding jobs makes `flush_jobs` run forever, and that run is not modelled.
- JobProtocol.AddJobSpec: the C code pushes the job before the unlock's assert fails. The model's abort leaves the queue unchanged; the process is aborted either way.
- `thread_job_memory_pool_new` and `thread_pool_should_quit` are left out. The first is a sizeof computation. The second reads the flag `shouldQuit`.
- The `atexit`-backed default pool and the typed wrappers in memory-pool.h and thread-pool.h are left out. They only cast and forward.
- benchmark.h (wall-clock timing), logging, and the `sqrt` loop of the count test are left out.
- The `link1`, `range` and `window` container libraries are not part of this model. Sequences stand in for them.
- Per-slot mutex and condition-variable destruction at teardown (memory-pool.c:239-247) is left out.
- ThreadPool.ThreadPool.AllocateJob: the job table only grows. A freed job keeps its entry with `isAllocated` false, so later uses of it can be recognised. Slot reuse is modelled in `MemoryPool`, not here.
- ThreadPool.ThreadPool.Wait: the blocking wait for `finished` (thread-pool.c:319-322) is concurrency and is not modelled. `CompleteWait` is what follows it, and it requires the job to be finished.
- ThreadPool.ThreadPool.JobInit: the C assert that the function is still unset is a precondition.
- MemoryPool.Pool.SegmentAdd: requires `count > 0`. The C code only calls it with the growth hint, which starts at 1024 and never decreases.
- MemoryPool.Pool.ChooseFreeSegment: `size_t` wrap-around of the doubled count is not modelled. Counts are unbounded, and so are `dependency_count` and the queue length.

## Findings

| source | as written | input that shows it | evidently intended | confidence | as-written member | corrected member |
|---|---|---|---|---|---|---|
| thread-pool.c:156-161 | the branch that skips a stale job calls `lock(pool)` before `continue`, while the worker released the pool at line 145. The lock is then taken again at line 172, or earlier by any job that locks the pool, and the pool mutex is a default non-recursive mutex (line 233). | a pass whose batch is one job with a non-zero count | the stale branch releases only the job, so the worker holds the pool lock again only at line 172 | not executed; the deadlock follows from the default mutex type | FlushLocking.StaleJobDeadlocks | FlushLocking.FlushPassEndsHeld |

In the rest of the model the stale branch changes nothing (`RunCachedSpec`, `ThreadPool.ThreadPool.RunCached`), which is the corrected behaviour.
