/**
 * The job queue and the job-state updates of thread-pool.c, run by one
 * thread. The pool's lock, condition variable and the per-job monitors are
 * not modelled; each operation here is what one critical section does.
 *
 * Jobs live in `heap`, indexed by JobId; an entry stays in the table after
 * its job is freed, with `isAllocated` cleared, so that a later use of it can
 * be recognised. `queue` is the pool's array of runnable jobs (`pool->jobs`).
 */
module ThreadPool {
  import opened Wrappers
  import opened JobProtocol

  /** is_in: whether `job` occurs in `jobs`. */
  method IsIn(jobs: seq<JobId>, job: JobId) returns (found: bool)
    ensures found <==> job in jobs
  {
    var i := 0;
    while i < |jobs|
      invariant 0 <= i <= |jobs|
      invariant forall k :: 0 <= k < i ==> jobs[k] != job
    {
      if jobs[i] == job {
        return true;
      }
      i := i + 1;
    }
    return false;
  }

  class ThreadPool {
    var heap: seq<Job>
    var queue: seq<JobId>
    var shouldQuit: bool

    ghost predicate Valid()
      reads this
    {
      WellFormed(Sched(heap, queue, shouldQuit))
    }

    ghost function State(): Sched
      reads this
    {
      Sched(heap, queue, shouldQuit)
    }

    /** The zero-initialised pool thread_pool_host sets up. */
    constructor ()
      ensures Valid() && heap == [] && queue == [] && !shouldQuit
    {
      heap := [];
      queue := [];
      shouldQuit := false;
    }

    /** Allocating a job from a job pool: a zero-filled, allocated job. */
    method AllocateJob() returns (job: JobId)
      requires Valid()
      modifies this
      ensures Valid()
      ensures job == |old(heap)| && heap == old(heap) + [NewJob]
      ensures queue == old(queue) && shouldQuit == old(shouldQuit)
    {
      job := |heap|;
      heap := heap + [NewJob];
    }

    /** thread_job_init: a job's function is set once. */
    method JobInit(child: JobId, jobFunction: nat)
      requires Valid() && child < |heap| && heap[child].jobFunction.None?
      modifies this
      ensures Valid()
      ensures heap == old(heap)[child := old(heap)[child].(jobFunction := Some(jobFunction))]
      ensures queue == old(queue) && shouldQuit == old(shouldQuit)
    {
      heap := heap[child := heap[child].(jobFunction := Some(jobFunction))];
    }

    /** thread_job_add_child: links the child to the parent and raises the parent's count by one. */
    method AddChild(parent: JobId, child: JobId)
      requires Valid() && parent < |heap| && child < |heap|
      modifies this
      ensures Valid()
      ensures heap == LinkChild(old(heap), parent, child)
      ensures Replay(old(heap)[parent].dependencyCount, [ChildAdded]) == Tally(heap[parent].dependencyCount, 0)
      ensures queue == old(queue) && shouldQuit == old(shouldQuit)
    {
      LinkChildEffect(heap, parent, child);
      heap := LinkChild(heap, parent, child);
      assert [ChildAdded][1..] == [];
    }

    /** thread_pool_add_job: appends the job to the queue and releases the job. */
    method AddJob(job: JobId) returns (outcome: Outcome)
      requires Valid() && job < |heap|
      modifies this
      ensures Valid()
      ensures Step(outcome, State()) == AddJobSpec(old(State()), job)
      ensures shouldQuit == old(shouldQuit)
    {
      // thread_memory_unlock asserts that the job is allocated
      if !heap[job].isAllocated {
        return Abort(UseAfterFree);
      }
      queue := queue + [job];
      outcome := Ok;
    }

    /** thread_pool_job_count */
    method JobCount() returns (n: nat)
      ensures n == |queue|
    {
      n := |queue|;
    }

    /** thread_pool_quit: only sets the flag; waking the workers is not modelled. */
    method Quit()
      modifies this
      ensures shouldQuit
      ensures heap == old(heap) && queue == old(queue)
    {
      shouldQuit := true;
    }

    /** start_parent */
    method StartParent(parent: Option<JobId>) returns (outcome: Outcome)
      requires Valid() && (parent.Some? ==> parent.value < |heap|)
      modifies this
      ensures Valid()
      ensures Step(outcome, State()) == StartParentSpec(old(State()), parent)
      ensures shouldQuit == old(shouldQuit)
    {
      if parent.None? {
        return Ok;
      }
      var p := parent.value;
      // thread_job_memory_lock asserts that the job is allocated
      if !heap[p].isAllocated {
        return Abort(UseAfterFree);
      }
      if heap[p].dependencyCount == 1 {
        heap := heap[p := heap[p].(dependencyCount := 0)];
        queue := queue + [p];
      } else if heap[p].dependencyCount > 1 {
        heap := heap[p := heap[p].(dependencyCount := heap[p].dependencyCount - 1)];
      } else {
        return Abort(RanTwice);
      }
      outcome := Ok;
    }

    /** thread_job_end: a waited job is marked finished for its waiter, any other job is freed. */
    method JobEnd(job: JobId) returns (outcome: Outcome)
      requires Valid() && job < |heap|
      modifies this
      ensures Valid()
      ensures Step(outcome, State()) == JobEndSpec(old(State()), job)
      ensures shouldQuit == old(shouldQuit)
    {
      if heap[job].waited {
        // thread_job_memory_unlock asserts that the job is allocated
        if !heap[job].isAllocated {
          return Abort(UseAfterFree);
        }
        heap := heap[job := heap[job].(finished := true)];
        outcome := Ok;
      } else if !heap[job].isAllocated {
        outcome := Abort(DoubleFree);
      } else {
        heap := heap[job := heap[job].(isAllocated := false)];
        outcome := Ok;
      }
    }

    /** The head of a pass of flush_jobs: moves the last TakeCount(|queue|) jobs into a batch. */
    method TakeBatch() returns (batch: seq<JobId>)
      requires Valid()
      modifies this
      ensures Valid()
      ensures (queue, batch) == SplitBatch(old(queue))
      ensures forall i :: 0 <= i < |batch| ==> batch[i] < |heap|
      ensures heap == old(heap) && shouldQuit == old(shouldQuit)
    {
      var take := |queue|;
      if take > TakeCap {
        take := TakeCap;
      }
      batch := queue[|queue| - take..];
      queue := queue[..|queue| - take];
    }

    /** One call a job's function makes into the pool. */
    method RunCall(call: BodyCall) returns (outcome: Outcome)
      requires Valid()
      modifies this
      ensures Valid()
      ensures Step(outcome, State()) == CallSpec(old(State()), call)
    {
      outcome := Ok;
      match call
      case AllocateCall =>
        var job := AllocateJob();
      case AddChildCall(parent, child) =>
        if parent < |heap| && child < |heap| {
          AddChild(parent, child);
        }
      case AddJobCall(job) =>
        if job < |heap| {
          outcome := AddJob(job);
        }
      case QuitCall =>
        Quit();
    }

    /** A job's function: its calls in order, up to the first fatal error. */
    method RunBody(body: seq<BodyCall>) returns (outcome: Outcome)
      requires Valid()
      modifies this
      ensures Valid()
      ensures Step(outcome, State()) == BodySpec(old(State()), body)
    {
      outcome := Ok;
      for i := 0 to |body|
        invariant Valid()
        invariant outcome == Ok && Step(Ok, State()) == BodySpec(old(State()), body[..i])
      {
        assert body[..i + 1][..i] == body[..i];
        outcome := RunCall(body[i]);
        if outcome.Abort? {
          BodyAbortSticks(old(State()), body, i + 1);
          return;
        }
      }
      assert body[..|body|] == body;
    }

    /**
     * One job taken from the cache in flush_jobs: a job whose count is not 0
     * is skipped, any other runs its function, ends and is retired from the
     * parent it has after its function ran.
     */
    method RunCached(job: JobId, body: seq<BodyCall>) returns (outcome: Outcome, ran: seq<JobId>)
      requires Valid() && job < |heap|
      modifies this
      ensures Valid()
      ensures Pass(outcome, State(), ran) == RunCachedSpec(old(State()), job, body)
    {
      // thread_job_memory_lock asserts that the job is allocated
      if !heap[job].isAllocated {
        return Abort(UseAfterFree), [];
      }
      if heap[job].dependencyCount != 0 {
        return Ok, [];
      }
      ran := [job];
      outcome := RunBody(body);
      if outcome.Abort? {
        return;
      }
      var parent := heap[job].parent;
      outcome := JobEnd(job);
      if outcome.Abort? {
        return;
      }
      outcome := StartParent(parent);
    }

    /** The cache loop of a pass of flush_jobs, stopping at the first fatal error. */
    method RunBatch(batch: seq<JobId>, bodies: seq<seq<BodyCall>>) returns (outcome: Outcome, ran: seq<JobId>)
      requires Valid() && |bodies| == |batch|
      requires forall i :: 0 <= i < |batch| ==> batch[i] < |heap|
      modifies this
      ensures Valid()
      ensures Pass(outcome, State(), ran) == RunBatchSpec(old(State()), batch, bodies)
    {
      ran := [];
      outcome := Ok;
      for i := 0 to |batch|
        invariant Valid() && |old(heap)| <= |heap|
        invariant Pass(Ok, State(), ran) == RunBatchSpec(old(State()), batch[..i], bodies[..i])
      {
        RunBatchSnoc(old(State()), batch, bodies, i, State(), ran);
        var jobOutcome, jobRan := RunCached(batch[i], bodies[i]);
        ran := ran + jobRan;
        if jobOutcome.Abort? {
          outcome := jobOutcome;
          RunBatchAbortSticks(old(State()), batch, bodies, i + 1);
          return;
        }
      }
      assert batch[..|batch|] == batch;
      assert bodies[..|bodies|] == bodies;
    }

    /**
     * flush_jobs: passes over the queue until it is empty; `bodies` gives,
     * in the order the jobs are taken, what each job's function does.
     */
    method FlushJobs(bodies: seq<seq<BodyCall>>) returns (outcome: Outcome, ran: seq<JobId>)
      requires Valid()
      modifies this
      ensures Valid()
      ensures Pass(outcome, State(), ran) == FlushSpec(old(State()), bodies)
      ensures outcome == Ok ==> queue == []
    {
      ran := [];
      var supply := bodies;
      while queue != []
        invariant Valid()
        invariant FlushSpec(old(State()), bodies) == Then(ran, FlushSpec(State(), supply))
        decreases Load(State()) + |Flatten(supply)|
      {
        ghost var ranBefore := ran;
        ghost var loadBefore := Load(State());
        var batch := TakeBatch();
        assert Load(State()) + |batch| == loadBefore;
        var split := BodiesFor(supply, |batch|);
        var passOutcome, passRan := RunBatch(batch, split.0);
        ran := ran + passRan;
        if passOutcome.Abort? {
          assert ranBefore + passRan + [] == ran;
          return passOutcome, ran;
        }
        ThenThen(ranBefore, passRan, FlushSpec(State(), split.1));
        supply := split.1;
      }
      assert ran + [] == ran;
      outcome := Ok;
    }

    /**
     * thread_job_wait up to its blocking loop: marks the job waited and, if
     * nothing it depends on is outstanding, queues it.
     */
    method Wait(job: JobId) returns (outcome: Outcome)
      requires Valid() && job < |heap|
      modifies this
      ensures Valid()
      ensures heap == old(heap)[job := old(heap)[job].(waited := true)]
      ensures old(heap)[job].finished ==> outcome == Abort(AlreadyFinished) && queue == old(queue)
      ensures !old(heap)[job].finished && old(heap)[job].dependencyCount != 0 ==>
        outcome == Ok && queue == old(queue)
      ensures !old(heap)[job].finished && old(heap)[job].dependencyCount == 0 && job in old(queue) ==>
        outcome == Abort(AlreadyQueued) && queue == old(queue)
      ensures !old(heap)[job].finished && old(heap)[job].dependencyCount == 0 && job !in old(queue) ==>
        outcome == Ok && queue == old(queue) + [job]
      ensures shouldQuit == old(shouldQuit)
    {
      heap := heap[job := heap[job].(waited := true)];
      if heap[job].finished {
        return Abort(AlreadyFinished);
      }
      if heap[job].dependencyCount == 0 {
        var queued := IsIn(queue, job);
        if queued {
          return Abort(AlreadyQueued);
        }
        queue := queue + [job];
      }
      outcome := Ok;
    }

    /** The end of thread_job_wait: once the job has finished, the waiter frees it. */
    method CompleteWait(job: JobId) returns (outcome: Outcome)
      requires Valid() && job < |heap| && heap[job].finished
      modifies this
      ensures Valid()
      ensures outcome == Abort(DoubleFree) <==> !old(heap)[job].isAllocated
      ensures outcome == Ok ==> heap == old(heap)[job := old(heap)[job].(isAllocated := false)]
      ensures outcome.Abort? ==> heap == old(heap)
      ensures queue == old(queue) && shouldQuit == old(shouldQuit)
    {
      if !heap[job].isAllocated {
        return Abort(DoubleFree);
      }
      heap := heap[job := heap[job].(isAllocated := false)];
      outcome := Ok;
    }
  }
}
