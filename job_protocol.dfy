/**
 * The dependency-count protocol of thread-pool.c as values.
 *
 * A job is runnable once every child registered on it has finished. The
 * count of unfinished children is raised by thread_job_add_child and lowered
 * by start_parent, which enqueues the parent when the count goes from 1 to 0
 * and treats a count already at 0 as a job that ran twice.
 *
 * The functions here describe one step of the scheduler each; the class in
 * module ThreadPool performs the same steps in place and is proved against
 * them. A job's function is modelled by the calls it makes into the pool
 * (allocating a job, thread_job_add_child, thread_pool_add_job). The lemmas
 * state what the steps promise together: a parent is enqueued exactly once,
 * a pass over the queue raises its load by at most one per call the
 * functions make, and with finitely many such calls draining ends with an
 * empty queue.
 */
module JobProtocol {
  import opened Wrappers

  type JobId = nat

  /** Jobs taken from the queue in one pass of flush_jobs (thread-pool.c:120). */
  const TakeCap: nat := 100

  /**
   * thread_job, with the allocation flag of the job-pool slot it lives in.
   * `jobFunction` names the job's function pointer (None is NULL).
   */
  datatype Job = Job(
    jobFunction: Option<nat>,
    dependencyCount: nat,
    parent: Option<JobId>,
    waited: bool,
    finished: bool,
    isAllocated: bool)

  /** The fatal paths: each logs and aborts, or fails an assertion, in the C code. */
  datatype Fatal =
    | RanTwice         // start_parent found a count of 0
    | DoubleFree       // thread_memory_free on a slot that is not allocated
    | UseAfterFree     // thread_memory_lock on a slot that is not allocated
    | AlreadyFinished  // thread_job_wait on a finished job
    | AlreadyQueued    // thread_job_wait on a job already in the queue

  datatype Outcome = Ok | Abort(fatal: Fatal)

  /** A job newly allocated from a job pool: zero-filled and allocated. */
  const NewJob: Job := Job(None, 0, None, false, false, true)

  // ---------------------------------------------------------------------
  // start_parent on one dependency count

  datatype Retirement = Runnable | StillPending(remaining: nat) | ZeroCount

  /** start_parent's decision for a parent whose count is `count`. */
  function Retire(count: nat): Retirement
  {
    if count == 1 then Runnable
    else if count > 1 then StillPending(count - 1)
    else ZeroCount
  }

  // ---------------------------------------------------------------------
  // One parent under any interleaving of registrations and completions

  /** thread_job_add_child on the parent, or start_parent on it after a child finished. */
  datatype Event = ChildAdded | ChildFinished

  /** The parent's count and how often it was enqueued so far; Overrun once a job ran twice. */
  datatype Tally = Tally(count: nat, enqueued: nat) | Overrun

  function Enqueued(t: Tally, n: nat): Tally
  {
    if t.Overrun? then Overrun else Tally(t.count, t.enqueued + n)
  }

  /** The parent's history when `trace` happens to it, starting from `count`. */
  function Replay(count: nat, trace: seq<Event>): Tally
    decreases |trace|
  {
    if trace == [] then Tally(count, 0)
    else if trace[0] == ChildAdded then Replay(count + 1, trace[1..])
    else match Retire(count)
      case Runnable => Enqueued(Replay(0, trace[1..]), 1)
      case StillPending(n) => Replay(n, trace[1..])
      case ZeroCount => Overrun
  }

  /** Registrations minus completions. */
  function Balance(trace: seq<Event>): int
    decreases |trace|
  {
    if trace == [] then 0
    else (if trace[0] == ChildAdded then 1 else -1) + Balance(trace[1..])
  }

  /** After every event of `trace`, at least one child is still outstanding. */
  ghost predicate Outstanding(count: nat, trace: seq<Event>)
  {
    forall i :: 0 < i <= |trace| ==> count + Balance(trace[..i]) >= 1
  }

  function Repeat(e: Event, n: nat): (r: seq<Event>)
    ensures |r| == n && forall i :: 0 <= i < n ==> r[i] == e
  {
    seq(n, _ => e)
  }

  lemma {:induction false} ReplayAppend(count: nat, t1: seq<Event>, t2: seq<Event>)
    ensures Replay(count, t1 + t2) ==
      match Replay(count, t1)
      case Overrun => Overrun
      case Tally(c, e) => Enqueued(Replay(c, t2), e)
    decreases |t1|
  {
    if t1 == [] {
      assert t1 + t2 == t2;
      assert Enqueued(Replay(count, t2), 0) == Replay(count, t2);
    } else {
      assert (t1 + t2)[1..] == t1[1..] + t2;
      if t1[0] == ChildAdded {
        ReplayAppend(count + 1, t1[1..], t2);
      } else {
        match Retire(count)
        case Runnable => ReplayAppend(0, t1[1..], t2);
        case StillPending(n) => ReplayAppend(n, t1[1..], t2);
        case ZeroCount =>
      }
    }
  }

  /**
   * While a child is outstanding after every event, the parent is never
   * enqueued and its count is the starting count plus the balance.
   */
  lemma {:induction false} NoEarlyEnqueue(count: nat, trace: seq<Event>)
    requires Outstanding(count, trace)
    ensures Replay(count, trace).Tally?
    ensures Replay(count, trace).count == count + Balance(trace)
    ensures Replay(count, trace).enqueued == 0
    decreases |trace|
  {
    if trace != [] {
      var rest := trace[1..];
      assert trace[..1][1..] == [];
      assert count + Balance(trace[..1]) >= 1;
      var next: nat := if trace[0] == ChildAdded then count + 1 else count - 1;
      forall i | 0 < i <= |rest| ensures next + Balance(rest[..i]) >= 1 {
        assert trace[..i + 1][1..] == rest[..i];
        assert trace[..i + 1][0] == trace[0];
        assert count + Balance(trace[..i + 1]) >= 1;
      }
      NoEarlyEnqueue(next, rest);
    }
  }

  /**
   * Exactly once: when the last outstanding child finishes, the parent is
   * enqueued, once; a further completion is the fatal "ran twice".
   */
  lemma {:induction false} ExactlyOnce(count: nat, trace: seq<Event>)
    requires Outstanding(count, trace) && count + Balance(trace) == 1
    ensures Replay(count, trace + [ChildFinished]) == Tally(0, 1)
    ensures Replay(count, trace + [ChildFinished, ChildFinished]) == Overrun
  {
    NoEarlyEnqueue(count, trace);
    ReplayAppend(count, trace, [ChildFinished]);
    assert Replay(1, [ChildFinished]) == Tally(0, 1);
    ReplayAppend(count, trace, [ChildFinished, ChildFinished]);
    assert Replay(1, [ChildFinished, ChildFinished]) == Overrun;
  }

  lemma {:induction false} ReplayAdds(count: nat, k: nat, t: seq<Event>)
    ensures Replay(count, Repeat(ChildAdded, k) + t) == Replay(count + k, t)
    decreases k
  {
    if k > 0 {
      assert (Repeat(ChildAdded, k) + t)[1..] == Repeat(ChildAdded, k - 1) + t;
      ReplayAdds(count + 1, k - 1, t);
    } else {
      assert Repeat(ChildAdded, k) + t == t;
    }
  }

  lemma {:induction false} ReplayFinishes(count: nat, j: nat)
    ensures j < count ==> Replay(count, Repeat(ChildFinished, j)) == Tally(count - j, 0)
    ensures count > 0 && j == count ==> Replay(count, Repeat(ChildFinished, j)) == Tally(0, 1)
    ensures count > 0 && j == count + 1 ==> Replay(count, Repeat(ChildFinished, j)) == Overrun
    decreases j
  {
    if j > 0 {
      assert Repeat(ChildFinished, j)[1..] == Repeat(ChildFinished, j - 1);
      if count > 1 {
        ReplayFinishes(count - 1, j - 1);
      } else if count == 1 && j > 1 {
        assert Repeat(ChildFinished, j - 1)[1..] == Repeat(ChildFinished, j - 2);
      }
    }
  }

  /**
   * A parent with k registered children (k >= 1): the first k - 1
   * completions only count down, the k-th enqueues it, the (k+1)-th is fatal.
   */
  lemma {:induction false} RegisteredChildren(k: nat, j: nat)
    requires k >= 1
    ensures j < k ==> Replay(0, Repeat(ChildAdded, k) + Repeat(ChildFinished, j)) == Tally(k - j, 0)
    ensures j == k ==> Replay(0, Repeat(ChildAdded, k) + Repeat(ChildFinished, j)) == Tally(0, 1)
    ensures j == k + 1 ==> Replay(0, Repeat(ChildAdded, k) + Repeat(ChildFinished, j)) == Overrun
  {
    ReplayAdds(0, k, Repeat(ChildFinished, j));
    ReplayFinishes(k, j);
  }

  // ---------------------------------------------------------------------
  // The scheduler state and its steps

  /**
   * The jobs (indexed by JobId), the pool's queue, and the pool's
   * should_quit flag, which thread_pool_quit sets.
   */
  datatype Sched = Sched(heap: seq<Job>, queue: seq<JobId>, shouldQuit: bool)

  datatype Step = Step(outcome: Outcome, next: Sched)

  /** The outcome of running queued jobs, with the jobs whose function ran, in order. */
  datatype Pass = Pass(outcome: Outcome, next: Sched, ran: seq<JobId>)

  /** `p` preceded by more jobs that ran. */
  function Then(ran: seq<JobId>, p: Pass): Pass
  {
    Pass(p.outcome, p.next, ran + p.ran)
  }

  lemma ThenThen(a: seq<JobId>, b: seq<JobId>, p: Pass)
    ensures Then(a, Then(b, p)) == Then(a + b, p)
  {
    assert a + (b + p.ran) == (a + b) + p.ran;
  }

  /** Every queued job and every parent link names a job. */
  ghost predicate WellFormed(s: Sched)
  {
    && (forall i :: 0 <= i < |s.queue| ==> s.queue[i] < |s.heap|)
    && (forall j :: 0 <= j < |s.heap| && s.heap[j].parent.Some? ==> s.heap[j].parent.value < |s.heap|)
  }

  /** The parent links of two job tables agree. */
  ghost predicate SameParents(h: seq<Job>, h': seq<Job>)
  {
    |h| == |h'| && forall j :: 0 <= j < |h| ==> h'[j].parent == h[j].parent
  }

  /** Outstanding children over all jobs. */
  function SumCounts(heap: seq<Job>): nat
    decreases |heap|
  {
    if heap == [] then 0 else SumCounts(heap[..|heap| - 1]) + heap[|heap| - 1].dependencyCount
  }

  /**
   * Queued jobs plus outstanding children. Only the calls of a job's function
   * raise it, each by at most one; every other step of flush_jobs keeps or
   * lowers it.
   */
  function Load(s: Sched): nat
  {
    |s.queue| + SumCounts(s.heap)
  }

  lemma {:induction false} SumCountsUpdate(heap: seq<Job>, p: nat, job: Job)
    requires p < |heap|
    ensures SumCounts(heap[p := job]) == SumCounts(heap) - heap[p].dependencyCount + job.dependencyCount
    decreases |heap|
  {
    var h' := heap[p := job];
    assert h'[..|h'| - 1] == if p < |heap| - 1 then heap[..|heap| - 1][p := job] else heap[..|heap| - 1];
    if p < |heap| - 1 {
      SumCountsUpdate(heap[..|heap| - 1], p, job);
    }
  }

  /** start_parent */
  function StartParentSpec(s: Sched, parent: Option<JobId>): Step
    requires parent.Some? ==> parent.value < |s.heap|
  {
    if parent.None? then Step(Ok, s)
    else
      var p := parent.value;
      if !s.heap[p].isAllocated then Step(Abort(UseAfterFree), s)
      else match Retire(s.heap[p].dependencyCount)
        case Runnable =>
          Step(Ok, s.(heap := s.heap[p := s.heap[p].(dependencyCount := 0)], queue := s.queue + [p]))
        case StillPending(n) =>
          Step(Ok, s.(heap := s.heap[p := s.heap[p].(dependencyCount := n)]))
        case ZeroCount => Step(Abort(RanTwice), s)
  }

  /**
   * thread_job_end: a waited job is marked finished and released to its
   * waiter, any other job is freed. Both the release (thread_memory_unlock)
   * and the free assert that the job's slot is allocated.
   */
  function JobEndSpec(s: Sched, job: JobId): Step
    requires job < |s.heap|
  {
    if s.heap[job].waited then
      if !s.heap[job].isAllocated then Step(Abort(UseAfterFree), s)
      else Step(Ok, s.(heap := s.heap[job := s.heap[job].(finished := true)]))
    else if !s.heap[job].isAllocated then Step(Abort(DoubleFree), s)
    else Step(Ok, s.(heap := s.heap[job := s.heap[job].(isAllocated := false)]))
  }

  /**
   * start_parent on a named parent: it either aborts and changes nothing,
   * or lowers that parent's count by exactly one, touches no other job, and
   * appends the parent to the queue exactly when its count reaches 0.
   */
  lemma StartParentEffect(s: Sched, p: JobId)
    requires p < |s.heap|
    ensures var r := StartParentSpec(s, Some(p));
      && (r.outcome.Abort? ==> r.next == s)
      && (r.outcome == Abort(UseAfterFree) <==> !s.heap[p].isAllocated)
      && (r.outcome == Abort(RanTwice) <==> s.heap[p].isAllocated && s.heap[p].dependencyCount == 0)
      && (r.outcome == Ok ==>
            && s.heap[p].dependencyCount >= 1
            && r.next.heap == s.heap[p := s.heap[p].(dependencyCount := s.heap[p].dependencyCount - 1)]
            && r.next.queue == (if s.heap[p].dependencyCount == 1 then s.queue + [p] else s.queue)
            && SumCounts(r.next.heap) + 1 == SumCounts(s.heap))
  {
    var r := StartParentSpec(s, Some(p));
    if r.outcome == Ok {
      SumCountsUpdate(s.heap, p, s.heap[p].(dependencyCount := s.heap[p].dependencyCount - 1));
    }
  }

  /**
   * start_parent on an allocated parent is the ChildFinished step of Replay:
   * the outcome, the parent's new count and how often it is enqueued agree,
   * so the exactly-once lemmas above speak about start_parent.
   */
  lemma StartParentIsReplayStep(s: Sched, p: JobId)
    requires p < |s.heap| && s.heap[p].isAllocated
    ensures var r := StartParentSpec(s, Some(p));
      match Replay(s.heap[p].dependencyCount, [ChildFinished])
      case Overrun => r.outcome == Abort(RanTwice) && r.next == s
      case Tally(c, e) =>
        && r.outcome == Ok
        && r.next.heap[p].dependencyCount == c
        && |r.next.queue| == |s.queue| + e
        && r.next.queue[..|s.queue|] == s.queue
  {
    assert [ChildFinished][1..] == [];
  }

  /** thread_job_end keeps every count and parent link, and the queue. */
  lemma JobEndKeepsCounts(s: Sched, job: JobId)
    requires job < |s.heap|
    ensures var r := JobEndSpec(s, job);
      && SameParents(s.heap, r.next.heap)
      && (forall x :: 0 <= x < |s.heap| ==> r.next.heap[x].dependencyCount == s.heap[x].dependencyCount)
      && SumCounts(r.next.heap) == SumCounts(s.heap)
      && r.next.queue == s.queue
      && (r.outcome == Abort(UseAfterFree) <==> s.heap[job].waited && !s.heap[job].isAllocated)
      && (r.outcome == Abort(DoubleFree) <==> !s.heap[job].waited && !s.heap[job].isAllocated)
      && (r.outcome == Ok && s.heap[job].waited ==> r.next.heap[job].finished && r.next.heap[job].isAllocated)
      && (r.outcome == Ok && !s.heap[job].waited ==> !r.next.heap[job].isAllocated)
  {
    var r := JobEndSpec(s, job);
    SumCountsUpdate(s.heap, job, r.next.heap[job]);
  }

  // ---------------------------------------------------------------------
  // What a job's function may do to the pool while it runs

  /**
   * One call a job's function makes (thread-pool.c:163): allocating a job
   * from a job pool, which gets the next JobId, thread_job_add_child,
   * thread_pool_add_job, or thread_pool_quit.
   */
  datatype BodyCall = AllocateCall | AddChildCall(parent: JobId, child: JobId) | AddJobCall(job: JobId) | QuitCall

  /** thread_job_add_child on the table: the child's parent link is set and the parent's count raised. */
  function LinkChild(heap: seq<Job>, parent: JobId, child: JobId): seq<Job>
    requires parent < |heap| && child < |heap|
  {
    var linked := heap[child := heap[child].(parent := Some(parent))];
    linked[parent := linked[parent].(dependencyCount := linked[parent].dependencyCount + 1)]
  }

  /**
   * thread_job_add_child links the child to the parent, raises the parent's
   * count and so the total count by exactly one, and changes nothing else
   * that the scheduler reads.
   */
  lemma LinkChildEffect(heap: seq<Job>, parent: JobId, child: JobId)
    requires parent < |heap| && child < |heap|
    ensures var r := LinkChild(heap, parent, child);
      && |r| == |heap| && r[child].parent == Some(parent)
      && r[parent].dependencyCount == heap[parent].dependencyCount + 1
      && (forall j :: 0 <= j < |heap| && j != parent ==> r[j].dependencyCount == heap[j].dependencyCount)
      && (forall j :: 0 <= j < |heap| && j != child ==> r[j].parent == heap[j].parent)
      && (forall j :: 0 <= j < |heap| ==> r[j].isAllocated == heap[j].isAllocated)
      && SumCounts(r) == SumCounts(heap) + 1
  {
    var linked := heap[child := heap[child].(parent := Some(parent))];
    SumCountsUpdate(heap, child, linked[child]);
    SumCountsUpdate(linked, parent, linked[parent].(dependencyCount := linked[parent].dependencyCount + 1));
  }

  /**
   * thread_pool_add_job: appends the job to the queue, then releases the
   * job's slot, and thread_memory_unlock asserts that the slot is allocated.
   */
  function AddJobSpec(s: Sched, job: JobId): Step
    requires job < |s.heap|
  {
    if !s.heap[job].isAllocated then Step(Abort(UseAfterFree), s)
    else Step(Ok, s.(queue := s.queue + [job]))
  }

  /** One call of a job's function; a call naming no job of the table does nothing. */
  function CallSpec(s: Sched, call: BodyCall): Step
  {
    match call
    case AllocateCall => Step(Ok, s.(heap := s.heap + [NewJob]))
    case AddChildCall(parent, child) =>
      if parent < |s.heap| && child < |s.heap| then Step(Ok, s.(heap := LinkChild(s.heap, parent, child)))
      else Step(Ok, s)
    case AddJobCall(job) => if job < |s.heap| then AddJobSpec(s, job) else Step(Ok, s)
    case QuitCall => Step(Ok, s.(shouldQuit := true))
  }

  lemma LinkStep(s: Sched, parent: JobId, child: JobId)
    requires parent < |s.heap| && child < |s.heap|
    ensures CallSpec(s, AddChildCall(parent, child)) == Step(Ok, s.(heap := LinkChild(s.heap, parent, child)))
  {
  }

  lemma AddJobStep(s: Sched, job: JobId)
    requires job < |s.heap| && s.heap[job].isAllocated
    ensures CallSpec(s, AddJobCall(job)) == Step(Ok, s.(queue := s.queue + [job]))
  {
  }

  /** The jobs the calls of `body` hand to thread_pool_add_job. */
  ghost function AddedJobs(body: seq<BodyCall>): set<JobId>
  {
    set i | 0 <= i < |body| && body[i].AddJobCall? :: body[i].job
  }

  /** The jobs the calls of `body` register a child on. */
  ghost function LinkedParents(body: seq<BodyCall>): set<JobId>
  {
    set i | 0 <= i < |body| && body[i].AddChildCall? :: body[i].parent
  }

  lemma CallSetsAppend(a: seq<BodyCall>, b: seq<BodyCall>)
    ensures AddedJobs(a + b) == AddedJobs(a) + AddedJobs(b)
    ensures LinkedParents(a + b) == LinkedParents(a) + LinkedParents(b)
  {
    var ab := a + b;
    assert forall i :: 0 <= i < |a| ==> ab[i] == a[i];
    assert forall i :: 0 <= i < |b| ==> ab[|a| + i] == b[i];
    forall x | x in AddedJobs(ab) ensures x in AddedJobs(a) + AddedJobs(b) {
      var i :| 0 <= i < |ab| && ab[i].AddJobCall? && ab[i].job == x;
      if i >= |a| {
        assert b[i - |a|] == ab[i];
      }
    }
    forall x | x in LinkedParents(ab) ensures x in LinkedParents(a) + LinkedParents(b) {
      var i :| 0 <= i < |ab| && ab[i].AddChildCall? && ab[i].parent == x;
      if i >= |a| {
        assert b[i - |a|] == ab[i];
      }
    }
  }

  /**
   * A call keeps the scheduler well formed, keeps the queue as a prefix, and
   * raises the load by at most one; it changes only the count of the parent
   * it registers a child on, and appends only the job it hands to
   * thread_pool_add_job. A call that aborts changes nothing.
   */
  lemma CallEffect(s: Sched, call: BodyCall)
    requires WellFormed(s)
    ensures var r := CallSpec(s, call);
      && WellFormed(r.next) && |s.heap| <= |r.next.heap| && s.queue <= r.next.queue
      && (r.outcome.Abort? ==> r == Step(Abort(UseAfterFree), s))
      && (r.outcome == Ok ==> Load(r.next) <= Load(s) + 1)
      && (forall x :: 0 <= x < |s.heap| && x !in LinkedParents([call]) ==>
            r.next.heap[x].dependencyCount == s.heap[x].dependencyCount)
      && (forall k :: |s.queue| <= k < |r.next.queue| ==> r.next.queue[k] in AddedJobs([call]))
  {
    var r := CallSpec(s, call);
    assert [call][0] == call;
    match call
    case AllocateCall =>
      assert r.next.heap[..|s.heap|] == s.heap;
    case AddChildCall(parent, child) =>
      if parent < |s.heap| && child < |s.heap| {
        LinkChildEffect(s.heap, parent, child);
      }
    case AddJobCall(job) =>
    case QuitCall =>
  }

  /** A job's function: its calls in order, stopping at the first fatal error. */
  function BodySpec(s: Sched, body: seq<BodyCall>): (r: Step)
    ensures |s.heap| <= |r.next.heap|
    decreases |body|
  {
    if body == [] then Step(Ok, s)
    else
      var p := BodySpec(s, body[..|body| - 1]);
      if p.outcome.Abort? then p else CallSpec(p.next, body[|body| - 1])
  }

  /**
   * A job's function keeps the scheduler well formed and the queue as a
   * prefix, and raises the load by at most one per call.
   */
  lemma {:induction false} BodyKeeps(s: Sched, body: seq<BodyCall>)
    requires WellFormed(s)
    ensures var r := BodySpec(s, body);
      && WellFormed(r.next) && s.queue <= r.next.queue
      && (r.outcome == Ok ==> Load(r.next) <= Load(s) + |body|)
    decreases |body|
  {
    if body != [] {
      var init := body[..|body| - 1];
      BodyKeeps(s, init);
      var p := BodySpec(s, init);
      if p.outcome == Ok {
        CallEffect(p.next, body[|body| - 1]);
      }
    }
  }

  /**
   * A job's function changes only the counts of the jobs it registers a
   * child on, and appends to the queue only the jobs it hands to
   * thread_pool_add_job.
   */
  lemma {:induction false} BodyEffect(s: Sched, body: seq<BodyCall>)
    requires WellFormed(s)
    ensures var r := BodySpec(s, body);
      && (forall x :: 0 <= x < |s.heap| && x !in LinkedParents(body) ==>
            r.next.heap[x].dependencyCount == s.heap[x].dependencyCount)
      && (forall k :: |s.queue| <= k < |r.next.queue| ==> r.next.queue[k] in AddedJobs(body))
    decreases |body|
  {
    if body != [] {
      var init, last := body[..|body| - 1], body[|body| - 1];
      assert body == init + [last];
      CallSetsAppend(init, [last]);
      BodyEffect(s, init);
      BodyKeeps(s, init);
      var p := BodySpec(s, init);
      if p.outcome == Ok {
        var r := CallSpec(p.next, last);
        CallEffect(p.next, last);
        forall k | |s.queue| <= k < |r.next.queue| ensures r.next.queue[k] in AddedJobs(body) {
          if k < |p.next.queue| {
            assert r.next.queue[k] == p.next.queue[k];
            assert p.next.queue[k] in AddedJobs(init);
          } else {
            assert r.next.queue[k] in AddedJobs([last]);
          }
        }
      }
    }
  }

  /** Only thread_pool_quit touches the pool's should_quit flag, and it never fails. */
  lemma CallQuits(s: Sched, call: BodyCall)
    ensures var r := CallSpec(s, call);
      && r.next.shouldQuit == (s.shouldQuit || call == QuitCall)
      && (call == QuitCall ==> r.outcome == Ok)
  {
  }

  /**
   * After a job's function, the pool's should_quit flag is still set if it
   * was, and is set only if the function calls thread_pool_quit; if no call
   * failed, it is set exactly when it was or the function calls it.
   */
  lemma {:induction false} BodyQuits(s: Sched, body: seq<BodyCall>)
    ensures var r := BodySpec(s, body);
      && (s.shouldQuit ==> r.next.shouldQuit)
      && (r.next.shouldQuit ==> s.shouldQuit || QuitCall in body)
      && (r.outcome == Ok ==> (r.next.shouldQuit <==> s.shouldQuit || QuitCall in body))
    decreases |body|
  {
    if body != [] {
      var init, last := body[..|body| - 1], body[|body| - 1];
      assert body == init + [last];
      BodyQuits(s, init);
      var p := BodySpec(s, init);
      if p.outcome == Ok {
        CallQuits(p.next, last);
      }
    }
  }

  /** A function whose calls are `a` then `b` runs `b` from where `a` left off. */
  lemma {:induction false} BodyAppend(s: Sched, a: seq<BodyCall>, b: seq<BodyCall>)
    ensures BodySpec(s, a + b) ==
      var p := BodySpec(s, a);
      if p.outcome.Abort? then p else BodySpec(p.next, b)
    decreases |b|
  {
    if b == [] {
      assert a + b == a;
    } else {
      DropLast(a, b);
      BodyAppend(s, a, b[..|b| - 1]);
    }
  }

  lemma DropLast<T>(a: seq<T>, b: seq<T>)
    requires b != []
    ensures (a + b)[..|a + b| - 1] == a + b[..|b| - 1] && (a + b)[|a + b| - 1] == b[|b| - 1]
  {
  }

  /** Two pieces of a function that both succeed compose. */
  lemma BodyCompose(s: Sched, a: seq<BodyCall>, b: seq<BodyCall>, mid: Sched, fin: Sched)
    requires BodySpec(s, a) == Step(Ok, mid) && BodySpec(mid, b) == Step(Ok, fin)
    ensures BodySpec(s, a + b) == Step(Ok, fin)
  {
    BodyAppend(s, a, b);
  }

  /** One more call at the end of a function that has not failed. */
  lemma BodySnoc(s: Sched, body: seq<BodyCall>, call: BodyCall)
    requires BodySpec(s, body).outcome == Ok
    ensures BodySpec(s, body + [call]) == CallSpec(BodySpec(s, body).next, call)
  {
    assert (body + [call])[..|body|] == body;
  }

  /** Once a prefix of a job's function aborts, the whole function ends with that abort. */
  lemma {:induction false} BodyAbortSticks(s: Sched, body: seq<BodyCall>, n: nat)
    requires n <= |body| && BodySpec(s, body[..n]).outcome.Abort?
    ensures BodySpec(s, body) == BodySpec(s, body[..n])
    decreases |body| - n
  {
    if n < |body| {
      assert body[..n + 1][..n] == body[..n];
      BodyAbortSticks(s, body, n + 1);
    } else {
      assert body[..n] == body;
    }
  }

  // ---------------------------------------------------------------------
  // flush_jobs

  /**
   * One job taken from the cache in flush_jobs (thread-pool.c:152-169): lock
   * it, skip it if its count is not 0, otherwise run its function (`body`),
   * read its parent, end it and retire it from its parent. The parent is
   * read after the function ran, so the function may have relinked it.
   */
  function RunCachedSpec(s: Sched, job: JobId, body: seq<BodyCall>): (r: Pass)
    requires WellFormed(s) && job < |s.heap|
    ensures WellFormed(r.next) && |s.heap| <= |r.next.heap| && s.queue <= r.next.queue
    ensures r.outcome == Ok ==> Load(r.next) <= Load(s) + |body|
  {
    if !s.heap[job].isAllocated then Pass(Abort(UseAfterFree), s, [])
    else if s.heap[job].dependencyCount != 0 then Pass(Ok, s, [])
    else
      var b := BodySpec(s, body);
      BodyKeeps(s, body);
      if b.outcome.Abort? then Pass(b.outcome, b.next, [job])
      else
        var parent := b.next.heap[job].parent;
        var ended := JobEndSpec(b.next, job);
        JobEndKeepsCounts(b.next, job);
        if ended.outcome.Abort? then Pass(ended.outcome, ended.next, [job])
        else
          var started := StartParentSpec(ended.next, parent);
          if parent.Some? then
            StartParentEffect(ended.next, parent.value);
            Pass(started.outcome, started.next, [job])
          else
            Pass(started.outcome, started.next, [job])
  }

  /** All calls of the functions in `bodies`, in order. */
  function Flatten(bodies: seq<seq<BodyCall>>): seq<BodyCall>
    decreases |bodies|
  {
    if bodies == [] then [] else Flatten(bodies[..|bodies| - 1]) + bodies[|bodies| - 1]
  }

  /**
   * The cache loop of one pass of flush_jobs over `batch`, stopping at the
   * first fatal error; `bodies[i]` is what the function of `batch[i]` does
   * if it runs.
   */
  function RunBatchSpec(s: Sched, batch: seq<JobId>, bodies: seq<seq<BodyCall>>): (r: Pass)
    requires WellFormed(s) && |bodies| == |batch|
    requires forall i :: 0 <= i < |batch| ==> batch[i] < |s.heap|
    ensures WellFormed(r.next) && |s.heap| <= |r.next.heap| && s.queue <= r.next.queue
    ensures r.outcome == Ok ==> Load(r.next) <= Load(s) + |Flatten(bodies)|
    decreases |batch|
  {
    if batch == [] then Pass(Ok, s, [])
    else
      var p := RunBatchSpec(s, batch[..|batch| - 1], bodies[..|bodies| - 1]);
      if p.outcome.Abort? then p
      else
        var q := RunCachedSpec(p.next, batch[|batch| - 1], bodies[|bodies| - 1]);
        Pass(q.outcome, q.next, p.ran + q.ran)
  }

  /** Every job of `s` with count 0 and not in `linked` still has count 0 in `t`. */
  ghost predicate ZerosKept(s: Sched, t: Sched, linked: set<JobId>)
  {
    forall x :: 0 <= x < |s.heap| && s.heap[x].dependencyCount == 0 && x !in linked ==>
      x < |t.heap| && t.heap[x].dependencyCount == 0
  }

  /** Every job `t` has queued after the jobs queued in `s` is in `named` or has count 0. */
  ghost predicate AppendsAccounted(s: Sched, t: Sched, named: set<JobId>)
  {
    forall k :: |s.queue| <= k < |t.queue| ==>
      t.queue[k] in named || (t.queue[k] < |t.heap| && t.heap[t.queue[k]].dependencyCount == 0)
  }

  /**
   * Two stretches of the scheduler, the second only extending the queue:
   * a count of 0 can be lost only to a registration in either, and a job
   * queued in the first either still has count 0 or had a child registered
   * in the second.
   */
  lemma EnqueuesCompose(s: Sched, m: Sched, t: Sched, l1: set<JobId>, n1: set<JobId>, l2: set<JobId>, n2: set<JobId>)
    requires m.queue <= t.queue
    requires ZerosKept(s, m, l1) && AppendsAccounted(s, m, n1)
    requires ZerosKept(m, t, l2) && AppendsAccounted(m, t, n2)
    ensures ZerosKept(s, t, l1 + l2) && AppendsAccounted(s, t, n1 + l2 + n2)
  {
    forall k | |s.queue| <= k < |t.queue|
      ensures t.queue[k] in n1 + l2 + n2 || (t.queue[k] < |t.heap| && t.heap[t.queue[k]].dependencyCount == 0)
    {
      if k < |m.queue| {
        assert t.queue[k] == m.queue[k];
      }
    }
  }

  /**
   * One cached job: a stale job (count not 0) is neither run nor put back;
   * a job runs exactly when it is allocated with count 0. If all goes well,
   * every count of 0 stays 0 unless the function registers a child on that
   * job, and each job appended to the queue is one the function added or
   * has count 0.
   */
  lemma RunCachedEnqueues(s: Sched, job: JobId, body: seq<BodyCall>)
    requires WellFormed(s) && job < |s.heap|
    ensures var r := RunCachedSpec(s, job, body);
      && (r.ran == [job] <==> s.heap[job].isAllocated && s.heap[job].dependencyCount == 0)
      && (r.ran != [job] ==> r.ran == [])
      && (s.heap[job].isAllocated && s.heap[job].dependencyCount != 0 ==> r == Pass(Ok, s, []))
      && (r.outcome == Ok ==> ZerosKept(s, r.next, LinkedParents(body)) && AppendsAccounted(s, r.next, AddedJobs(body)))
  {
    if s.heap[job].isAllocated && s.heap[job].dependencyCount == 0 {
      var b := BodySpec(s, body);
      BodyEffect(s, body);
      BodyKeeps(s, body);
      if b.outcome == Ok {
        var parent := b.next.heap[job].parent;
        var ended := JobEndSpec(b.next, job);
        JobEndKeepsCounts(b.next, job);
        if ended.outcome == Ok && parent.Some? {
          StartParentEffect(ended.next, parent.value);
          var r := StartParentSpec(ended.next, parent);
          forall k | |s.queue| <= k < |r.next.queue|
            ensures r.next.queue[k] in AddedJobs(body) || (r.next.queue[k] < |r.next.heap| && r.next.heap[r.next.queue[k]].dependencyCount == 0)
          {
            if k < |b.next.queue| {
              assert r.next.queue[k] == b.next.queue[k];
            }
          }
        }
      }
    }
  }

  /**
   * A pass over a batch only appends to the queue. If all goes well, every
   * count of 0 stays 0 unless a function registers a child on that job, and
   * each appended job is one a function added, one a function registered a
   * child on, or one whose count is 0: a stale job is not put back. Every
   * job that ran was in the batch.
   */
  lemma {:induction false} RunBatchEnqueues(s: Sched, batch: seq<JobId>, bodies: seq<seq<BodyCall>>)
    requires WellFormed(s) && |bodies| == |batch|
    requires forall i :: 0 <= i < |batch| ==> batch[i] < |s.heap|
    ensures var r := RunBatchSpec(s, batch, bodies);
      && (forall j :: j in r.ran ==> j in batch)
      && (r.outcome == Ok ==>
            && ZerosKept(s, r.next, LinkedParents(Flatten(bodies)))
            && AppendsAccounted(s, r.next, AddedJobs(Flatten(bodies)) + LinkedParents(Flatten(bodies))))
    decreases |batch|
  {
    if batch != [] {
      var init, last := batch[..|batch| - 1], batch[|batch| - 1];
      var initBodies, lastBody := bodies[..|bodies| - 1], bodies[|bodies| - 1];
      assert Flatten(bodies) == Flatten(initBodies) + lastBody;
      assert batch == init + [last];
      CallSetsAppend(Flatten(initBodies), lastBody);
      RunBatchEnqueues(s, init, initBodies);
      var p := RunBatchSpec(s, init, initBodies);
      if p.outcome == Ok {
        var q := RunCachedSpec(p.next, last, lastBody);
        var r := RunBatchSpec(s, batch, bodies);
        assert r == Pass(q.outcome, q.next, p.ran + q.ran);
        RunCachedEnqueues(p.next, last, lastBody);
        forall j | j in r.ran ensures j in batch {
          if j !in p.ran {
            assert j in q.ran && q.ran == [last];
          }
        }
        if r.outcome == Ok {
          var a1, l1 := AddedJobs(Flatten(initBodies)), LinkedParents(Flatten(initBodies));
          EnqueuesCompose(s, p.next, q.next, l1, a1 + l1, LinkedParents(lastBody), AddedJobs(lastBody));
          assert a1 + l1 + LinkedParents(lastBody) + AddedJobs(lastBody)
              == AddedJobs(Flatten(bodies)) + LinkedParents(Flatten(bodies));
        }
      }
    }
  }

  /** A pass over one more job of the batch, after a prefix that went well. */
  lemma RunBatchSnoc(s: Sched, batch: seq<JobId>, bodies: seq<seq<BodyCall>>, i: nat, t: Sched, ran: seq<JobId>)
    requires WellFormed(s) && |bodies| == |batch| && i < |batch|
    requires forall i :: 0 <= i < |batch| ==> batch[i] < |s.heap|
    requires RunBatchSpec(s, batch[..i], bodies[..i]) == Pass(Ok, t, ran)
    ensures WellFormed(t) && batch[i] < |t.heap|
    ensures var q := RunCachedSpec(t, batch[i], bodies[i]);
      RunBatchSpec(s, batch[..i + 1], bodies[..i + 1]) == Pass(q.outcome, q.next, ran + q.ran)
  {
    PrefixOfPrefix(batch, i);
    PrefixOfPrefix(bodies, i);
  }

  lemma PrefixOfPrefix<T>(a: seq<T>, i: nat)
    requires i < |a|
    ensures a[..i + 1][..i] == a[..i] && a[..i + 1][i] == a[i]
  {
  }

  /** Once a pass over a prefix of the batch aborts, the whole pass ends with that abort. */
  lemma {:induction false} RunBatchAbortSticks(s: Sched, batch: seq<JobId>, bodies: seq<seq<BodyCall>>, n: nat)
    requires WellFormed(s) && |bodies| == |batch|
    requires forall i :: 0 <= i < |batch| ==> batch[i] < |s.heap|
    requires n <= |batch| && RunBatchSpec(s, batch[..n], bodies[..n]).outcome.Abort?
    ensures RunBatchSpec(s, batch, bodies) == RunBatchSpec(s, batch[..n], bodies[..n])
    decreases |batch| - n
  {
    if n < |batch| {
      PrefixOfPrefix(batch, n);
      PrefixOfPrefix(bodies, n);
      RunBatchAbortSticks(s, batch, bodies, n + 1);
    } else {
      assert batch[..n] == batch;
      assert bodies[..n] == bodies;
    }
  }

  /** How many jobs one pass takes from a queue of length n. */
  function TakeCount(n: nat): (take: nat)
    ensures take <= n && take <= TakeCap
    ensures n > 0 ==> take > 0
    ensures take == n || take == TakeCap
  {
    if n > TakeCap then TakeCap else n
  }

  /**
   * One pass splits the queue into the part left behind and the batch: the
   * batch is the last TakeCount(|queue|) entries in their queue order.
   */
  function SplitBatch(queue: seq<JobId>): (r: (seq<JobId>, seq<JobId>))
    ensures r.0 + r.1 == queue
    ensures |r.1| == TakeCount(|queue|)
  {
    var cut := |queue| - TakeCount(|queue|);
    (queue[..cut], queue[cut..])
  }

  lemma {:induction false} FlattenAppend(a: seq<seq<BodyCall>>, b: seq<seq<BodyCall>>)
    ensures Flatten(a + b) == Flatten(a) + Flatten(b)
    decreases |b|
  {
    if b == [] {
      assert a + b == a;
    } else {
      DropLast(a, b);
      FlattenAppend(a, b[..|b| - 1]);
    }
  }

  /** `n` functions that make no calls. */
  function Idle(n: nat): (r: seq<seq<BodyCall>>)
    ensures |r| == n && Flatten(r) == []
  {
    if n == 0 then []
    else
      var r := Idle(n - 1) + [[]];
      assert r[..n - 1] == Idle(n - 1);
      r
  }

  /**
   * The functions of the next `k` jobs taken from the queue and those of the
   * jobs after them; once `bodies` is used up, functions make no calls.
   */
  function BodiesFor(bodies: seq<seq<BodyCall>>, k: nat): (r: (seq<seq<BodyCall>>, seq<seq<BodyCall>>))
    ensures |r.0| == k
    ensures Flatten(r.0) + Flatten(r.1) == Flatten(bodies)
  {
    if k <= |bodies| then
      assert bodies[..k] + bodies[k..] == bodies;
      FlattenAppend(bodies[..k], bodies[k..]);
      (bodies[..k], bodies[k..])
    else
      FlattenAppend(bodies, Idle(k - |bodies|));
      (bodies + Idle(k - |bodies|), [])
  }

  /**
   * flush_jobs: passes over the queue until it is empty or a fatal error
   * stops the process. `bodies` gives, in the order the jobs are taken from
   * the queue, what the function of each does if it runs. With finitely many
   * calls in all, the queue drains.
   */
  function FlushSpec(s: Sched, bodies: seq<seq<BodyCall>>): (r: Pass)
    requires WellFormed(s)
    ensures WellFormed(r.next) && |s.heap| <= |r.next.heap|
    ensures r.outcome == Ok ==> r.next.queue == []
    decreases Load(s) + |Flatten(bodies)|
  {
    if s.queue == [] then Pass(Ok, s, [])
    else
      var (rest, batch) := SplitBatch(s.queue);
      var (now, later) := BodiesFor(bodies, |batch|);
      var left := s.(queue := rest);
      assert forall i :: 0 <= i < |batch| ==> batch[i] == s.queue[|rest| + i];
      assert Load(left) + |batch| == Load(s);
      var p := RunBatchSpec(left, batch, now);
      if p.outcome.Abort? then p
      else Then(p.ran, FlushSpec(p.next, later))
  }
}
