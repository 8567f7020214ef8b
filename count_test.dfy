/**
 * The leaf jobs of test/count/test.c, counted.
 *
 * A leaf job of count c adds one to the shared result and, for each i in
 * 1..c, spawns two leaf jobs of count c - 1: a peer registered on the leaf's
 * own parent and a child registered on the peer. Each spawned job runs once
 * its dependencies are met, in whatever order the workers take them. The
 * result the root job reads is the number of leaf executions, which depends
 * only on the counts and not on that order.
 */
module CountTest {
  import opened Wrappers
  import opened JobProtocol

  /** Leaf executions caused by one leaf job of count c, itself included. */
  function Leaves(c: nat): (n: nat)
    ensures n >= 1
  {
    if c == 0 then 1 else 1 + 2 * c * Leaves(c - 1)
  }

  /** The counts of the leaf jobs one leaf of count c spawns: a peer and a child per round. */
  function Spawned(c: nat): (r: seq<nat>)
    ensures |r| == 2 * c && forall i :: 0 <= i < |r| ==> r[i] == c - 1
  {
    seq(2 * c, _ => c - 1)
  }

  /** Leaf executions still to come from the jobs in `pending`. */
  function Total(pending: seq<nat>): nat
    decreases |pending|
  {
    if pending == [] then 0 else Total(pending[..|pending| - 1]) + Leaves(pending[|pending| - 1])
  }

  lemma {:induction false} TotalAppend(a: seq<nat>, b: seq<nat>)
    ensures Total(a + b) == Total(a) + Total(b)
    decreases |b|
  {
    if b == [] {
      assert a + b == a;
    } else {
      assert (a + b)[..|a + b| - 1] == a + b[..|b| - 1];
      TotalAppend(a, b[..|b| - 1]);
    }
  }

  lemma {:induction false} TotalConstant(s: seq<nat>, c: nat)
    requires forall i :: 0 <= i < |s| ==> s[i] == c
    ensures Total(s) == |s| * Leaves(c)
    decreases |s|
  {
    if s != [] {
      TotalConstant(s[..|s| - 1], c);
    }
  }

  /** One step of the workers: pending leaf i runs, leaves the pending jobs, and the jobs it spawned join them. */
  function RunLeaf(pending: seq<nat>, i: nat): seq<nat>
    requires i < |pending|
  {
    pending[..i] + pending[i + 1..] + Spawned(pending[i])
  }

  /** The jobs a leaf spawns account for all its executions but its own. */
  lemma {:induction false} SpawnedTotal(c: nat)
    ensures Total(Spawned(c)) + 1 == Leaves(c)
  {
    if c > 0 {
      TotalConstant(Spawned(c), c - 1);
    }
  }

  lemma TotalRemove(pending: seq<nat>, i: nat)
    requires i < |pending|
    ensures Total(pending) == Total(pending[..i] + pending[i + 1..]) + Leaves(pending[i])
  {
    var c := pending[i];
    var before, after := pending[..i], pending[i + 1..];
    assert pending == (before + [c]) + after;
    TotalAppend(before + [c], after);
    TotalAppend(before, [c]);
    assert [c][..0] == [];
    TotalAppend(before, after);
  }

  /** Each step performs exactly one of the executions still to come. */
  lemma RunLeafTotal(pending: seq<nat>, i: nat)
    requires i < |pending|
    ensures Total(RunLeaf(pending, i)) + 1 == Total(pending)
  {
    TotalRemove(pending, i);
    SpawnedTotal(pending[i]);
    TotalAppend(pending[..i] + pending[i + 1..], Spawned(pending[i]));
  }

  /**
   * Runs pending leaf jobs until none is left; `schedule` picks which one
   * runs next (any pending job may), and once it is used up the first one
   * runs. The number of executions is Total(pending) whatever the schedule.
   */
  function Drain(pending: seq<nat>, schedule: seq<nat>): (n: nat)
    ensures n == Total(pending)
    decreases Total(pending)
  {
    if pending == [] then 0
    else
      var i := if schedule == [] then 0 else schedule[0] % |pending|;
      var rest := if schedule == [] then [] else schedule[1..];
      RunLeafTotal(pending, i);
      1 + Drain(RunLeaf(pending, i), rest)
  }

  /** The test starts one leaf of count 6; the root job then sees 75973 leaf executions, in any order. */
  lemma CountTestResult(schedule: seq<nat>)
    ensures Drain([6], schedule) == 75973
  {
    assert Leaves(1) == 3;
    assert Leaves(2) == 13;
    assert Leaves(3) == 79;
    assert Leaves(4) == 633;
    assert Leaves(5) == 6331;
    assert Leaves(6) == 75973;
    assert [6][..0] == [];
  }

  // ---------------------------------------------------------------------
  // The spawn loop of the leaf function as calls into the pool

  /**
   * One round of the spawn loop (test/count/test.c:54-69) when the next free
   * JobId is `base`: a peer is allocated and registered on the leaf's
   * parent, a child is allocated and registered on the peer, and the child
   * is handed to the pool.
   */
  function SpawnRound(parent: JobId, base: nat): seq<BodyCall>
  {
    [AllocateCall, AddChildCall(parent, base), AllocateCall, AddChildCall(base, base + 1), AddJobCall(base + 1)]
  }

  /** The spawn loop of a leaf of count c (test/count/test.c:52-72); JobIds from `base` on are free. */
  function SpawnLoop(c: nat, parent: JobId, base: nat): seq<BodyCall>
  {
    if c == 0 then [] else SpawnLoop(c - 1, parent, base) + SpawnRound(parent, base + 2 * (c - 1))
  }

  /** The jobs of one round: a peer with one outstanding child, and that child. */
  function RoundJobs(parent: JobId, base: nat): seq<Job>
  {
    [Job(None, 1, Some(parent), false, false, true), Job(None, 0, Some(base), false, false, true)]
  }

  /** The jobs the spawn loop of a leaf of count c allocates, from JobId `base` on. */
  function SpawnedJobs(c: nat, parent: JobId, base: nat): seq<Job>
  {
    if c == 0 then [] else SpawnedJobs(c - 1, parent, base) + RoundJobs(parent, base + 2 * (c - 1))
  }

  /** The children the spawn loop hands to the pool. */
  function QueuedChildren(c: nat, base: nat): seq<JobId>
  {
    if c == 0 then [] else QueuedChildren(c - 1, base) + [base + 2 * (c - 1) + 1]
  }

  /** The leaf's parent with `k` more outstanding children. */
  function Raised(heap: seq<Job>, parent: JobId, k: nat): seq<Job>
    requires parent < |heap|
  {
    heap[parent := heap[parent].(dependencyCount := heap[parent].dependencyCount + k)]
  }

  lemma RaisedAppend(heap: seq<Job>, extra: seq<Job>, parent: JobId, k: nat)
    requires parent < |heap|
    ensures Raised(Raised(heap, parent, k) + extra, parent, 1) == Raised(heap, parent, k + 1) + extra
  {
  }

  /** The table after one round, from the calls' own definitions. */
  lemma RoundTable(heap: seq<Job>, parent: JobId)
    requires parent < |heap|
    ensures var m := |heap|;
      LinkChild(LinkChild(heap + [NewJob], parent, m) + [NewJob], m, m + 1) == Raised(heap, parent, 1) + RoundJobs(parent, m)
  {
    var m := |heap|;
    var h2 := LinkChild(heap + [NewJob], parent, m);
    assert h2 == Raised(heap, parent, 1) + [NewJob.(parent := Some(parent))];
  }

  /** The first half of a round: the peer is allocated and registered on the parent. */
  lemma PeerSteps(heap: seq<Job>, queue: seq<JobId>, quit: bool, parent: JobId, m: nat)
    requires parent < |heap| && m == |heap|
    ensures BodySpec(Sched(heap, queue, quit), [AllocateCall] + [AddChildCall(parent, m)]) ==
      Step(Ok, Sched(LinkChild(heap + [NewJob], parent, m), queue, quit))
  {
    var t := Sched(heap, queue, quit);
    var b0: seq<BodyCall> := [];
    BodySnoc(t, b0, AllocateCall);
    assert b0 + [AllocateCall] == [AllocateCall];
    BodySnoc(t, [AllocateCall], AddChildCall(parent, m));
    LinkStep(Sched(heap + [NewJob], queue, quit), parent, m);
  }

  /** The second half of a round: the child is allocated, registered on the peer, and queued. */
  lemma ChildSteps(heap: seq<Job>, queue: seq<JobId>, quit: bool, m: nat)
    requires m + 1 == |heap|
    ensures BodySpec(Sched(heap, queue, quit), [AllocateCall] + [AddChildCall(m, m + 1)] + [AddJobCall(m + 1)]) ==
      Step(Ok, Sched(LinkChild(heap + [NewJob], m, m + 1), queue + [m + 1], quit))
  {
    var t := Sched(heap, queue, quit);
    var b0: seq<BodyCall> := [];
    var b2 := [AllocateCall] + [AddChildCall(m, m + 1)];
    var h4 := LinkChild(heap + [NewJob], m, m + 1);
    BodySnoc(t, b0, AllocateCall);
    assert b0 + [AllocateCall] == [AllocateCall];
    BodySnoc(t, [AllocateCall], AddChildCall(m, m + 1));
    LinkStep(Sched(heap + [NewJob], queue, quit), m, m + 1);
    BodySnoc(t, b2, AddJobCall(m + 1));
    LinkChildEffect(heap + [NewJob], m, m + 1);
    AddJobStep(Sched(h4, queue, quit), m + 1);
  }

  /** One round adds its two jobs, raises the parent's count by one and queues the child. */
  lemma SpawnRoundEffect(heap: seq<Job>, queue: seq<JobId>, quit: bool, parent: JobId, m: nat)
    requires parent < |heap| && m == |heap|
    ensures BodySpec(Sched(heap, queue, quit), SpawnRound(parent, m)) ==
      Step(Ok, Sched(Raised(heap, parent, 1) + RoundJobs(parent, m), queue + [m + 1], quit))
  {
    var peer := [AllocateCall] + [AddChildCall(parent, m)];
    var child := [AllocateCall] + [AddChildCall(m, m + 1)] + [AddJobCall(m + 1)];
    var h2 := LinkChild(heap + [NewJob], parent, m);
    assert SpawnRound(parent, m) == peer + child;
    PeerSteps(heap, queue, quit, parent, m);
    BodyAppend(Sched(heap, queue, quit), peer, child);
    ChildSteps(h2, queue, quit, m);
    RoundTable(heap, parent);
  }

  /** SpawnRoundEffect on a whole state, with the state it ends in named. */
  lemma SpawnRoundTo(t: Sched, parent: JobId, fin: Sched)
    requires parent < |t.heap|
    requires fin == Sched(Raised(t.heap, parent, 1) + RoundJobs(parent, |t.heap|), t.queue + [|t.heap| + 1], t.shouldQuit)
    ensures BodySpec(t, SpawnRound(parent, |t.heap|)) == Step(Ok, fin)
  {
    SpawnRoundEffect(t.heap, t.queue, t.shouldQuit, parent, |t.heap|);
  }

  lemma Assoc<T>(a: seq<T>, b: seq<T>, c: seq<T>)
    ensures a + b + c == a + (b + c)
  {
  }

  /** The table and queue after c rounds, from those after c - 1 and one more round. */
  lemma SpawnedStep(s: Sched, c: nat, parent: JobId)
    requires parent < |s.heap| && c > 0
    ensures var n := |s.heap|;
      var heap := Raised(s.heap, parent, c - 1) + SpawnedJobs(c - 1, parent, n);
      var queue := s.queue + QueuedChildren(c - 1, n);
      var x := n + 2 * (c - 1);
      && |heap| == x
      && Sched(Raised(heap, parent, 1) + RoundJobs(parent, x), queue + [x + 1], s.shouldQuit)
           == Sched(Raised(s.heap, parent, c) + SpawnedJobs(c, parent, n), s.queue + QueuedChildren(c, n), s.shouldQuit)
  {
    var n := |s.heap|;
    SpawnedJobsLength(c - 1, parent, n);
    RaisedAppend(s.heap, SpawnedJobs(c - 1, parent, n), parent, c - 1);
    Assoc(Raised(s.heap, parent, c), SpawnedJobs(c - 1, parent, n), RoundJobs(parent, n + 2 * (c - 1)));
    Assoc(s.queue, QueuedChildren(c - 1, n), [n + 2 * (c - 1) + 1]);
  }

  /** The spawn loop allocates two jobs per round. */
  lemma {:induction false} SpawnedJobsLength(c: nat, parent: JobId, base: nat)
    ensures |SpawnedJobs(c, parent, base)| == |Spawned(c)|
    decreases c
  {
    if c > 0 {
      SpawnedJobsLength(c - 1, parent, base);
    }
  }

  /** The spawn loop's state after c rounds, from its state after c - 1. */
  lemma SpawnLoopStep(s: Sched, c: nat, parent: JobId, prev: seq<BodyCall>)
    requires parent < |s.heap| && c > 0
    requires BodySpec(s, prev) ==
      Step(Ok, Sched(Raised(s.heap, parent, c - 1) + SpawnedJobs(c - 1, parent, |s.heap|), s.queue + QueuedChildren(c - 1, |s.heap|), s.shouldQuit))
    ensures BodySpec(s, prev + SpawnRound(parent, |s.heap| + 2 * (c - 1))) ==
      Step(Ok, Sched(Raised(s.heap, parent, c) + SpawnedJobs(c, parent, |s.heap|), s.queue + QueuedChildren(c, |s.heap|), s.shouldQuit))
  {
    var n := |s.heap|;
    var heap := Raised(s.heap, parent, c - 1) + SpawnedJobs(c - 1, parent, n);
    var queue := s.queue + QueuedChildren(c - 1, n);
    var x := n + 2 * (c - 1);
    var t := Sched(heap, queue, s.shouldQuit);
    var fin := Sched(Raised(s.heap, parent, c) + SpawnedJobs(c, parent, n), s.queue + QueuedChildren(c, n), s.shouldQuit);
    SpawnedStep(s, c, parent);
    SpawnRoundTo(t, parent, fin);
    BodyCompose(s, prev, SpawnRound(parent, x), t, fin);
  }

  /**
   * The spawn loop of a leaf of count c, run from a state whose next free
   * JobId is n: it never fails, appends the 2c jobs of SpawnedJobs (one per
   * job Spawned(c) counts), raises the parent's count by c, changes no other
   * job, and queues the c children, in order.
   */
  lemma {:induction false} SpawnLoopEffect(s: Sched, c: nat, parent: JobId)
    requires parent < |s.heap|
    ensures BodySpec(s, SpawnLoop(c, parent, |s.heap|)) ==
      Step(Ok, Sched(Raised(s.heap, parent, c) + SpawnedJobs(c, parent, |s.heap|), s.queue + QueuedChildren(c, |s.heap|), s.shouldQuit))
    ensures |SpawnedJobs(c, parent, |s.heap|)| == |Spawned(c)|
    decreases c
  {
    var n := |s.heap|;
    SpawnedJobsLength(c, parent, n);
    if c == 0 {
      assert Raised(s.heap, parent, 0) + SpawnedJobs(0, parent, n) == s.heap;
      assert s.queue + QueuedChildren(0, n) == s.queue;
    } else {
      SpawnLoopEffect(s, c - 1, parent);
      SpawnLoopStep(s, c, parent, SpawnLoop(c - 1, parent, n));
    }
  }
}
