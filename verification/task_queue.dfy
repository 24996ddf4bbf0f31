/**
 * The background job queue (`TaskQueue`) as a state machine.
 *
 * The queue holds pending jobs and an "is processing" flag, both guarded by
 * one lock. Every `lock` region of the source is one atomic transition here:
 *   - `Enqueue`: append the job and, if no loop is marked active, mark one
 *     active and start it;
 *   - `LoopPop`: a drain loop takes the lock and either pops the head job or,
 *     seeing the queue empty, clears the flag and ends;
 *   - `LoopRun`: the loop creates a fresh scope, runs the popped job in it,
 *     and swallows whatever went wrong before checking again;
 *   - `Dequeue`: the manual single-step drain pops at most one job and runs it.
 *
 * Drain loops are kept as a sequence, so that "at most one loop is ever
 * active" is something proved of the transitions rather than built into the
 * state. The fields `submitted`, `taken` and `runs` record the history of
 * enqueued, dequeued and executed jobs, so that ordering and freshness of
 * scopes can be stated.
 */
module TaskQueue {
  import opened Wrappers

  /** How one job execution ended, as seen by the `try` around it. */
  datatype Outcome =
    | Completed     // the job ran to completion
    | Threw         // the job threw; the exception was logged and swallowed
    | ScopeFailed   // creating the scope threw; the job never ran

  /** One execution of a job: the scope it was given (none if scope creation threw) and how it ended. */
  datatype Run<J> = Run(job: J, scope: Option<nat>, outcome: Outcome)

  /** Where an active drain loop stands: about to check the queue, or running a popped job. */
  datatype Loop<J> = Checking | Running(job: J)

  datatype Queue<J> = Queue(
    pending: seq<J>,        // jobs waiting, head first
    processing: bool,       // the `_isProcessing` flag
    loops: seq<Loop<J>>,    // the drain loops currently active
    nextScope: nat,         // the identity the next created scope receives
    submitted: seq<J>,      // every job ever enqueued, in order
    taken: seq<J>,          // every job ever dequeued, in order
    runs: seq<Run<J>>)      // every job execution that has finished, in order

  /** A freshly constructed queue: empty and idle. */
  function Init<J>(): Queue<J> {
    Queue([], false, [], 0, [], [], [])
  }

  /** The atomic steps, each naming the loop it belongs to where there could be several. */
  datatype Step<J> =
    | DoEnqueue(job: J)
    | DoLoopPop(loop: nat)
    | DoLoopRun(loop: nat, outcome: Outcome)
    | DoDequeue(outcome: Outcome)

  /** The jobs of a sequence of executions. */
  function Jobs<J>(runs: seq<Run<J>>): (js: seq<J>)
    ensures |js| == |runs| && forall i | 0 <= i < |runs| :: js[i] == runs[i].job
  {
    seq(|runs|, i requires 0 <= i < |runs| => runs[i].job)
  }

  /** The jobs the given loops are running right now. */
  function Active<J>(loops: seq<Loop<J>>): (js: seq<J>)
    ensures |js| <= |loops|
  {
    if loops == [] then []
    else (if loops[0].Running? then [loops[0].job] else []) + Active(loops[1..])
  }

  /** The scope an execution receives: a new one, unless creating it threw. */
  function ScopeFor(outcome: Outcome, next: nat): (s: Option<nat>)
    ensures s.Some? <==> outcome != ScopeFailed
    ensures s.Some? ==> s.value == next
  {
    if outcome == ScopeFailed then None else Some(next)
  }

  /** `Enqueue`: append under the lock, and start a loop if none is marked active. */
  function Enqueue<J>(q: Queue<J>, job: J): (r: Queue<J>)
    ensures r.pending == q.pending + [job] && r.submitted == q.submitted + [job]
    ensures r.processing
    ensures q.processing ==> r.loops == q.loops
    ensures !q.processing ==> r.loops == q.loops + [Checking]
    ensures r.taken == q.taken && r.runs == q.runs && r.nextScope == q.nextScope
  {
    var q' := q.(pending := q.pending + [job], submitted := q.submitted + [job]);
    if q.processing then q'
    else q'.(processing := true, loops := q.loops + [Checking])
  }

  /**
   * One turn of the drain loop under the lock: pop the head job, or, when
   * the queue is empty, clear the flag and end the loop in the same step.
   */
  function LoopPop<J>(q: Queue<J>, i: nat): (r: Queue<J>)
    requires i < |q.loops| && q.loops[i].Checking?
    ensures q.pending == [] ==>
      && r == q.(processing := false, loops := q.loops[..i] + q.loops[i + 1..])
    ensures q.pending != [] ==>
      && r.pending == q.pending[1..]
      && r.loops == q.loops[i := Running(q.pending[0])]
      && r.taken == q.taken + [q.pending[0]]
      && r.processing == q.processing
    ensures r.submitted == q.submitted && r.runs == q.runs && r.nextScope == q.nextScope
  {
    if q.pending == [] then
      q.(processing := false, loops := q.loops[..i] + q.loops[i + 1..])
    else
      q.(pending := q.pending[1..], loops := q.loops[i := Running(q.pending[0])],
         taken := q.taken + [q.pending[0]])
  }

  /**
   * The loop runs its popped job in a freshly created scope. Whatever the
   * outcome, the failure (if any) is swallowed and the loop goes back to
   * checking the queue.
   */
  function LoopRun<J>(q: Queue<J>, i: nat, outcome: Outcome): (r: Queue<J>)
    requires i < |q.loops| && q.loops[i].Running?
    ensures r.loops == q.loops[i := Checking]
    ensures r.runs == q.runs + [Run(q.loops[i].job, ScopeFor(outcome, q.nextScope), outcome)]
    ensures r.nextScope == q.nextScope + (if outcome == ScopeFailed then 0 else 1)
    ensures r.pending == q.pending && r.processing == q.processing
    ensures r.submitted == q.submitted && r.taken == q.taken
  {
    var scope := ScopeFor(outcome, q.nextScope);
    q.(loops := q.loops[i := Checking],
       runs := q.runs + [Run(q.loops[i].job, scope, outcome)],
       nextScope := if scope.Some? then q.nextScope + 1 else q.nextScope)
  }

  /**
   * `DequeueAsync`: pop at most one job under the lock and run it in a fresh
   * scope. On an empty queue nothing changes; the flag is never touched.
   */
  function Dequeue<J>(q: Queue<J>, outcome: Outcome): (r: Queue<J>)
    ensures q.pending == [] ==> r == q
    ensures q.pending != [] ==>
      && r.pending == q.pending[1..]
      && r.taken == q.taken + [q.pending[0]]
      && r.runs == q.runs + [Run(q.pending[0], ScopeFor(outcome, q.nextScope), outcome)]
    ensures r.processing == q.processing && r.loops == q.loops && r.submitted == q.submitted
  {
    if q.pending == [] then q
    else
      var scope := ScopeFor(outcome, q.nextScope);
      q.(pending := q.pending[1..], taken := q.taken + [q.pending[0]],
         runs := q.runs + [Run(q.pending[0], scope, outcome)],
         nextScope := if scope.Some? then q.nextScope + 1 else q.nextScope)
  }

  /** Whether `step` can be taken: loop steps need a loop at the matching point. */
  predicate Enabled<J>(q: Queue<J>, step: Step<J>) {
    match step
    case DoEnqueue(_) => true
    case DoLoopPop(i) => i < |q.loops| && q.loops[i].Checking?
    case DoLoopRun(i, _) => i < |q.loops| && q.loops[i].Running?
    case DoDequeue(_) => true
  }

  /** One atomic step of any thread; a step that is not enabled leaves the queue as it is. */
  function Next<J>(q: Queue<J>, step: Step<J>): Queue<J> {
    if !Enabled(q, step) then q
    else
      match step
      case DoEnqueue(j) => Enqueue(q, j)
      case DoLoopPop(i) => LoopPop(q, i)
      case DoLoopRun(i, o) => LoopRun(q, i, o)
      case DoDequeue(o) => Dequeue(q, o)
  }

  /** Any interleaving of steps, applied in order. */
  function Replay<J>(q: Queue<J>, steps: seq<Step<J>>): Queue<J>
    decreases |steps|
  {
    if steps == [] then q else Replay(Next(q, steps[0]), steps[1..])
  }

  /** At most one drain loop is active, and the flag is set exactly when one is. */
  ghost predicate SingleLoop<J>(q: Queue<J>) {
    && |q.loops| <= 1
    && (q.processing <==> |q.loops| == 1)
  }

  /** A non-empty queue has its flag set: some loop will get to every pending job. */
  ghost predicate NoStranded<J>(q: Queue<J>) {
    q.pending != [] ==> q.processing
  }

  /** The dequeued jobs followed by the pending ones are exactly the enqueued jobs, in order. */
  ghost predicate Fifo<J>(q: Queue<J>) {
    q.taken + q.pending == q.submitted
  }

  /** Every dequeued job is either being run by a loop or has run, once. */
  ghost predicate AtMostOnce<J>(q: Queue<J>) {
    multiset(Jobs(q.runs)) + multiset(Active(q.loops)) == multiset(q.taken)
  }

  /** Scope identities handed out so far are below the counter and strictly increasing. */
  ghost predicate ScopesFresh<J>(runs: seq<Run<J>>, next: nat) {
    && (forall i | 0 <= i < |runs| && runs[i].scope.Some? :: runs[i].scope.value < next)
    && (forall i, j | 0 <= i < j < |runs| && runs[i].scope.Some? && runs[j].scope.Some? ::
          runs[i].scope.value < runs[j].scope.value)
  }

  /** The control part of the invariant: loops, flag and order. */
  ghost predicate Shape<J>(q: Queue<J>) {
    SingleLoop(q) && NoStranded(q) && Fifo(q)
  }

  /** The queue invariant. */
  ghost predicate Inv<J>(q: Queue<J>) {
    Shape(q) && AtMostOnce(q) && ScopesFresh(q.runs, q.nextScope)
  }

  /** The idle, empty queue satisfies the invariant. */
  lemma InitInv<J>()
    ensures Inv(Init<J>())
  {
  }

  /** Appending an execution with a new scope (or none) keeps scopes fresh. */
  lemma AppendRunKeepsFresh<J>(runs: seq<Run<J>>, next: nat, job: J, outcome: Outcome)
    requires ScopesFresh(runs, next)
    ensures ScopesFresh(runs + [Run(job, ScopeFor(outcome, next), outcome)],
                        next + (if outcome == ScopeFailed then 0 else 1))
  {
  }

  /** Appending one execution appends its job. */
  lemma JobsAppend<J>(runs: seq<Run<J>>, run: Run<J>)
    ensures Jobs(runs + [run]) == Jobs(runs) + [run.job]
  {
  }

  lemma EnqueueKeepsInv<J>(q: Queue<J>, job: J)
    requires Inv(q)
    ensures Inv(Enqueue(q, job))
  {
    var r := Enqueue(q, job);
    assert r.taken + r.pending == (q.taken + q.pending) + [job];
    if !q.processing {
      assert r.loops == [Checking];
      assert Active(r.loops) == [];
      assert Active(q.loops) == [];
    }
  }

  lemma EnqueueKeepsShapeIf<J>(q: Queue<J>, job: J)
    ensures Shape(q) ==> Shape(Enqueue(q, job))
  {
    var r := Enqueue(q, job);
    assert r.taken + r.pending == (q.taken + q.pending) + [job];
  }

  lemma EnqueueKeepsInvIf<J>(q: Queue<J>, job: J)
    ensures Inv(q) ==> Inv(Enqueue(q, job))
  {
    if Inv(q) { EnqueueKeepsInv(q, job); }
  }

  lemma LoopPopKeepsInv<J>(q: Queue<J>, i: nat)
    requires Inv(q) && i < |q.loops| && q.loops[i].Checking?
    ensures Inv(LoopPop(q, i))
  {
    var r := LoopPop(q, i);
    assert q.loops == [Checking];
    assert Active(q.loops) == [];
    if q.pending == [] {
      assert r.loops == [];
    } else {
      var j := q.pending[0];
      assert r.loops == [Running(j)];
      assert Active(r.loops) == [j];
      assert q.pending == [j] + r.pending;
      assert r.taken + r.pending == q.taken + q.pending;
    }
  }

  lemma LoopRunKeepsInv<J>(q: Queue<J>, i: nat, outcome: Outcome)
    requires Inv(q) && i < |q.loops| && q.loops[i].Running?
    ensures Inv(LoopRun(q, i, outcome))
  {
    var r := LoopRun(q, i, outcome);
    var j := q.loops[i].job;
    assert q.loops == [Running(j)];
    assert Active(q.loops) == [j];
    assert r.loops == [Checking];
    assert Active(r.loops) == [];
    JobsAppend(q.runs, Run(j, ScopeFor(outcome, q.nextScope), outcome));
    AppendRunKeepsFresh(q.runs, q.nextScope, j, outcome);
  }

  lemma DequeueKeepsInv<J>(q: Queue<J>, outcome: Outcome)
    requires Inv(q)
    ensures Inv(Dequeue(q, outcome))
  {
    if q.pending != [] {
      var r := Dequeue(q, outcome);
      var j := q.pending[0];
      assert q.pending == [j] + r.pending;
      assert r.taken + r.pending == q.taken + q.pending;
      JobsAppend(q.runs, Run(j, ScopeFor(outcome, q.nextScope), outcome));
      AppendRunKeepsFresh(q.runs, q.nextScope, j, outcome);
    }
  }

  /** Every atomic step preserves the queue invariant. */
  lemma NextKeepsInv<J>(q: Queue<J>, step: Step<J>)
    requires Inv(q)
    ensures Inv(Next(q, step))
  {
    if Enabled(q, step) {
      match step
      case DoEnqueue(j) => EnqueueKeepsInv(q, j);
      case DoLoopPop(i) => LoopPopKeepsInv(q, i);
      case DoLoopRun(i, o) => LoopRunKeepsInv(q, i, o);
      case DoDequeue(o) => DequeueKeepsInv(q, o);
    }
  }

  /** Every state reachable under any interleaving of steps satisfies the invariant. */
  lemma {:induction false} ReplayKeepsInv<J>(q: Queue<J>, steps: seq<Step<J>>)
    requires Inv(q)
    ensures Inv(Replay(q, steps))
    decreases |steps|
  {
    if steps != [] {
      NextKeepsInv(q, steps[0]);
      ReplayKeepsInv(Next(q, steps[0]), steps[1..]);
    }
  }

  /**
   * From a fresh queue, any interleaving keeps at most one loop active, never
   * strands a job, and dequeues jobs in submission order.
   */
  lemma ReachableIsSafe<J>(steps: seq<Step<J>>)
    ensures var q := Replay(Init<J>(), steps);
      && |q.loops| <= 1
      && (q.processing <==> |q.loops| == 1)
      && (q.pending != [] ==> q.processing)
      && q.taken + q.pending == q.submitted
  {
    InitInv<J>();
    ReplayKeepsInv(Init<J>(), steps);
  }

  /** The work left to the active loop: two steps per pending job, one to finish a running job. */
  function Remaining<J>(q: Queue<J>): nat {
    2 * |q.pending| + (if |q.loops| == 1 && q.loops[0].Running? then 1 else 0)
  }

  /** The loop's own steps keep the control part of the invariant. */
  lemma LoopStepsKeepShape<J>(q: Queue<J>, outcome: Outcome)
    requires Shape(q) && |q.loops| == 1
    ensures q.loops[0].Checking? ==> Shape(LoopPop(q, 0))
    ensures q.loops[0].Checking? && q.pending != [] ==> Remaining(LoopPop(q, 0)) < Remaining(q)
    ensures q.loops[0].Running? ==> Shape(LoopRun(q, 0, outcome))
    ensures q.loops[0].Running? ==> Remaining(LoopRun(q, 0, outcome)) < Remaining(q)
  {
    if q.loops[0].Checking? && q.pending != [] {
      var r := LoopPop(q, 0);
      assert q.pending == [q.pending[0]] + r.pending;
      assert r.taken + r.pending == q.taken + q.pending;
    }
  }

  /**
   * The active loop left to itself, each job ending as `outcomeOf` says: it
   * stops only once it finds the queue empty, clearing the flag, by which
   * time every enqueued job has been dequeued.
   */
  function Drain<J>(q: Queue<J>, outcomeOf: J -> Outcome): (r: Queue<J>)
    requires Shape(q)
    ensures Shape(r)
    ensures r.loops == [] && !r.processing && r.pending == []
    ensures r.submitted == q.submitted && r.taken == q.submitted
    decreases Remaining(q), |q.loops|
  {
    if q.loops == [] then q
    else if q.loops[0].Checking? then
      LoopStepsKeepShape(q, Completed);
      var q' := LoopPop(q, 0);
      if q.pending == [] then q' else Drain(q', outcomeOf)
    else
      var o := outcomeOf(q.loops[0].job);
      LoopStepsKeepShape(q, o);
      Drain(LoopRun(q, 0, o), outcomeOf)
  }

  /** The state a drained queue ends in still satisfies the whole invariant. */
  lemma {:induction false} DrainKeepsInv<J>(q: Queue<J>, outcomeOf: J -> Outcome)
    requires Inv(q)
    ensures Inv(Drain(q, outcomeOf))
    decreases Remaining(q), |q.loops|
  {
    if q.loops == [] {
    } else if q.loops[0].Checking? {
      LoopPopKeepsInv(q, 0);
      LoopStepsKeepShape(q, Completed);
      if q.pending != [] {
        DrainKeepsInv(LoopPop(q, 0), outcomeOf);
      }
    } else {
      var o := outcomeOf(q.loops[0].job);
      LoopRunKeepsInv(q, 0, o);
      LoopStepsKeepShape(q, o);
      DrainKeepsInv(LoopRun(q, 0, o), outcomeOf);
    }
  }

  /**
   * Draining runs the loop's current job and then every pending job, in
   * order, each exactly once: no outcome of one job keeps a later one from
   * running.
   */
  lemma {:induction false} DrainRunsInOrder<J>(q: Queue<J>, outcomeOf: J -> Outcome)
    requires Shape(q)
    ensures Jobs(Drain(q, outcomeOf).runs) == Jobs(q.runs) + Active(q.loops) + q.pending
    decreases Remaining(q), |q.loops|
  {
    if q.loops == [] {
    } else if q.loops[0].Checking? {
      LoopStepsKeepShape(q, Completed);
      if q.pending != [] {
        DrainRunsInOrder(LoopPop(q, 0), outcomeOf);
        PopShiftsJobs(q);
      }
    } else {
      var o := outcomeOf(q.loops[0].job);
      LoopStepsKeepShape(q, o);
      DrainRunsInOrder(LoopRun(q, 0, o), outcomeOf);
      RunShiftsJobs(q, o);
    }
  }

  /** Popping moves the head job from the pending list into the loop's hands. */
  lemma PopShiftsJobs<J>(q: Queue<J>)
    requires q.loops == [Checking] && q.pending != []
    ensures var q' := LoopPop(q, 0);
      Jobs(q'.runs) + Active(q'.loops) + q'.pending == Jobs(q.runs) + Active(q.loops) + q.pending
  {
    var q' := LoopPop(q, 0);
    assert Active(q.loops) == [];
    assert q'.loops == [Running(q.pending[0])];
    assert Active(q'.loops) == [q.pending[0]];
    assert q.pending == [q.pending[0]] + q'.pending;
  }

  /** Running moves the loop's job into the record of executions. */
  lemma RunShiftsJobs<J>(q: Queue<J>, outcome: Outcome)
    requires |q.loops| == 1 && q.loops[0].Running?
    ensures var q' := LoopRun(q, 0, outcome);
      Jobs(q'.runs) + Active(q'.loops) + q'.pending == Jobs(q.runs) + Active(q.loops) + q.pending
  {
    var j := q.loops[0].job;
    var q' := LoopRun(q, 0, outcome);
    assert q.loops == [Running(j)];
    assert Active(q.loops) == [j];
    assert q'.loops == [Checking];
    assert Active(q'.loops) == [];
    JobsAppend(q.runs, Run(j, ScopeFor(outcome, q.nextScope), outcome));
  }

  /** Enqueue each job in turn. */
  function EnqueueAll<J>(q: Queue<J>, jobs: seq<J>): (r: Queue<J>)
    ensures r.pending == q.pending + jobs && r.submitted == q.submitted + jobs
    ensures r.runs == q.runs && r.taken == q.taken
    ensures q.processing || jobs == [] ==> r.loops == q.loops
    ensures !q.processing && jobs != [] ==> r.loops == q.loops + [Checking]
    ensures Shape(q) ==> Shape(r)
    ensures Inv(q) ==> Inv(r)
    decreases |jobs|
  {
    if jobs == [] then q
    else
      var q' := Enqueue(q, jobs[0]);
      EnqueueKeepsInvIf(q, jobs[0]);
      EnqueueKeepsShapeIf(q, jobs[0]);
      assert q.pending + jobs == q'.pending + jobs[1..];
      assert q.submitted + jobs == q'.submitted + jobs[1..];
      EnqueueAll(q', jobs[1..])
  }

  /** Draining a queue whose loop holds `jobs` (running or pending) appends exactly them to the executions. */
  lemma DrainAppendsJobs<J>(e: Queue<J>, jobs: seq<J>, outcomeOf: J -> Outcome)
    requires Shape(e) && Active(e.loops) + e.pending == jobs
    ensures Jobs(Drain(e, outcomeOf).runs) == Jobs(e.runs) + jobs
  {
    DrainRunsInOrder(e, outcomeOf);
    assert Jobs(e.runs) + Active(e.loops) + e.pending == Jobs(e.runs) + (Active(e.loops) + e.pending);
  }

  /**
   * Jobs enqueued one after another on an idle queue are, once the loop has
   * drained, each executed exactly once and in submission order, even when
   * some of them throw or their scope cannot be created.
   */
  lemma SequentialJobsRunInOrder<J>(q: Queue<J>, jobs: seq<J>, outcomeOf: J -> Outcome)
    requires Shape(q) && q.loops == []
    ensures var r := Drain(EnqueueAll(q, jobs), outcomeOf);
      Jobs(r.runs) == Jobs(q.runs) + jobs && r.submitted == q.submitted + jobs
  {
    var e := EnqueueAll(q, jobs);
    assert e.loops == [] || e.loops == [Checking];
    assert Active(e.loops) == [];
    DrainAppendsJobs(e, jobs, outcomeOf);
  }
}
