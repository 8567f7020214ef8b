/**
 * The pool mutex across one pass of flush_jobs (thread-pool.c:114-173), as
 * seen by the worker running it.
 *
 * The worker holds the pool lock when the pass begins and must hold it again
 * when the pass ends, because the loop condition reads the queue. It
 * releases the lock after taking its batch (line 145) and takes it again
 * after the batch (line 172). A job that runs may take the lock in between,
 * in thread_pool_add_job from its function or in start_parent when its
 * parent becomes runnable, and releases it again. The pool mutex is a
 * default (non-recursive) mutex (line 233): taking it while holding it is a
 * self-deadlock.
 *
 * As written, the branch for a stale job (count not 0, lines 156-161) takes
 * the pool lock before `continue`, so the lock is held for the rest of the
 * batch and the lock at line 172 is taken a second time. The corrected pass
 * only releases the job in that branch.
 */
module FlushLocking {
  import opened JobProtocol

  /** The pool mutex from the worker's point of view. */
  datatype Lock = Free | Held | SelfDeadlock

  /** A job taken from the cache: stale, or run, possibly taking the pool lock while it runs. */
  datatype CachedJob = Stale | Runs(locksPool: bool)

  /** How the cache loop sees a job: stale when its count is not 0 (line 156). */
  function CachedJobOf(job: Job, locksPool: bool): CachedJob
  {
    if job.dependencyCount != 0 then Stale else Runs(locksPool)
  }

  /**
   * The stale jobs are exactly the allocated jobs the scheduler's cache loop
   * skips without running them.
   */
  lemma StaleIsSkipped(s: Sched, job: JobId, body: seq<BodyCall>, locksPool: bool)
    requires WellFormed(s) && job < |s.heap| && s.heap[job].isAllocated
    ensures CachedJobOf(s.heap[job], locksPool) == Stale <==> RunCachedSpec(s, job, body) == Pass(Ok, s, [])
  {
    RunCachedEnqueues(s, job, body);
  }

  /** pthread_mutex_lock on the pool by the worker. */
  function Take(l: Lock): (r: Lock)
    ensures r == Held <==> l == Free
  {
    if l == Free then Held else SelfDeadlock
  }

  /** pthread_mutex_unlock on the pool by the worker. */
  function Release(l: Lock): (r: Lock)
    ensures l != SelfDeadlock ==> r == Free
  {
    match l
    case Free => Free
    case Held => Free
    case SelfDeadlock => SelfDeadlock
  }

  /** One job of the cache loop; `relockWhenStale` is the `lock(pool)` of the stale branch. */
  function Visit(l: Lock, job: CachedJob, relockWhenStale: bool): Lock
  {
    match job
    case Stale => if relockWhenStale then Take(l) else l
    case Runs(locksPool) => if locksPool then Release(Take(l)) else l
  }

  function CacheLoop(l: Lock, batch: seq<CachedJob>, relockWhenStale: bool): Lock
    decreases |batch|
  {
    if batch == [] then l else CacheLoop(Visit(l, batch[0], relockWhenStale), batch[1..], relockWhenStale)
  }

  /** A pass as written: the lock is released at line 145 and taken at line 172. */
  function FlushPassAsWritten(batch: seq<CachedJob>): Lock
  {
    Take(CacheLoop(Release(Held), batch, true))
  }

  /** The pass with the stale branch releasing only the job. */
  function FlushPass(batch: seq<CachedJob>): Lock
  {
    Take(CacheLoop(Release(Held), batch, false))
  }

  lemma {:induction false} DeadlockSticks(batch: seq<CachedJob>, relockWhenStale: bool)
    ensures CacheLoop(SelfDeadlock, batch, relockWhenStale) == SelfDeadlock
    decreases |batch|
  {
    if batch != [] {
      DeadlockSticks(batch[1..], relockWhenStale);
    }
  }

  /** As written, once a stale job has taken the lock it is never free again within the batch. */
  lemma {:induction false} HeldStaysTaken(batch: seq<CachedJob>)
    ensures CacheLoop(Held, batch, true) != Free
    decreases |batch|
  {
    if batch != [] {
      var next := Visit(Held, batch[0], true);
      if next == SelfDeadlock {
        DeadlockSticks(batch[1..], true);
      } else {
        HeldStaysTaken(batch[1..]);
      }
    }
  }

  /** As written, the loop ends with the lock free exactly when no job of the batch was stale. */
  lemma {:induction false} AsWrittenLoop(batch: seq<CachedJob>)
    ensures CacheLoop(Free, batch, true) == Free <==> Stale !in batch
    decreases |batch|
  {
    if batch != [] {
      assert batch == [batch[0]] + batch[1..];
      if batch[0] == Stale {
        HeldStaysTaken(batch[1..]);
      } else {
        AsWrittenLoop(batch[1..]);
      }
    }
  }

  /** As written, a pass deadlocks its worker exactly when its batch holds a stale job. */
  lemma StaleJobDeadlocks(batch: seq<CachedJob>)
    ensures FlushPassAsWritten(batch) == SelfDeadlock <==> Stale in batch
  {
    AsWrittenLoop(batch);
  }

  /** The smallest batch that shows it: one stale job. */
  lemma OneStaleJob()
    ensures FlushPassAsWritten([Stale]) == SelfDeadlock
  {
    StaleJobDeadlocks([Stale]);
  }

  /** Corrected, the lock is free after every job of the loop. */
  lemma {:induction false} CorrectedLoopFree(batch: seq<CachedJob>)
    ensures CacheLoop(Free, batch, false) == Free
    decreases |batch|
  {
    if batch != [] {
      CorrectedLoopFree(batch[1..]);
    }
  }

  /** Corrected, every pass ends with the worker holding the lock, as the loop condition needs. */
  lemma FlushPassEndsHeld(batch: seq<CachedJob>)
    ensures FlushPass(batch) == Held
  {
    CorrectedLoopFree(batch);
  }
}
