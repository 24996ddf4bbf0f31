/**
 * The service, the queue and the store running together: producers submit
 * tasks, the drain loop pops and runs the queued jobs, and the manual
 * `DequeueAsync` runs one by hand. Each job's scope resolves the same
 * repository binding and the same store.
 */
module Worker {
  import opened Wrappers
  import opened Domain
  import opened TaskStore
  import opened Service
  import Commons
  import CurrentRepository
  import TaskQueue

  /** The queue, the store and every notification emitted so far, in order. */
  datatype System = System(queue: TaskQueue.Queue<Job>, db: Db, effects: seq<Effect>)

  /**
   * The events that move the system. `scopeFails` says that creating the
   * job's scope threw, so the job never ran; `fault` is an exception the
   * job's save throws.
   */
  datatype Event =
    | Produce(task: Tareas, now: Instant)
    | Pop
    | Execute(now: Instant, fault: Option<Fault>, scopeFails: bool)
    | RunByHand(now: Instant, fault: Option<Fault>, scopeFails: bool)

  /** A job run in its scope: nothing happens if the scope could not be created. */
  function Perform(impl: Commons.Impl, db: Db, job: Job, now: Instant, fault: Option<Fault>,
                   scopeFails: bool): (w: Write)
    requires WellFormed(db)
    ensures WellFormed(w.db)
    ensures scopeFails ==> w.db == db && w.effects == []
    ensures !scopeFails ==> w == RunJob(impl, db, job, now, fault)
  {
    if scopeFails then Write(Reply(false, ""), db, []) else RunJob(impl, db, job, now, fault)
  }

  /** The outcome the queue's `try` sees: every job body catches its own failures. */
  function OutcomeOf(scopeFails: bool): TaskQueue.Outcome {
    if scopeFails then TaskQueue.ScopeFailed else TaskQueue.Completed
  }

  /**
   * One event. A producer submits a task through the service; the drain
   * loop, when checking, pops; when running a job, performs it and goes back
   * to checking; a manual dequeue pops and performs the head job. An event
   * the loop is not ready for changes nothing.
   */
  function Apply(impl: Commons.Impl, s: System, e: Event): (r: System)
    requires WellFormed(s.db)
    ensures WellFormed(r.db)
    ensures forall k | k in s.db.tasks :: k in r.db.tasks && r.db.tasks[k] == s.db.tasks[k]
    ensures |s.effects| <= |r.effects| && r.effects[..|s.effects|] == s.effects
  {
    var q := s.queue;
    match e
    case Produce(t, now) => s.(queue := Submit(q, t, now).queue)
    case Pop =>
      if |q.loops| > 0 && q.loops[0].Checking? then s.(queue := TaskQueue.LoopPop(q, 0)) else s
    case Execute(now, fault, scopeFails) =>
      if |q.loops| > 0 && q.loops[0].Running? then
        var w := Perform(impl, s.db, q.loops[0].job, now, fault, scopeFails);
        System(TaskQueue.LoopRun(q, 0, OutcomeOf(scopeFails)), w.db, s.effects + w.effects)
      else s
    case RunByHand(now, fault, scopeFails) =>
      if q.pending == [] then s
      else
        var w := Perform(impl, s.db, q.pending[0], now, fault, scopeFails);
        System(TaskQueue.Dequeue(q, OutcomeOf(scopeFails)), w.db, s.effects + w.effects)
  }

  /** Events applied in order. */
  function Replay(impl: Commons.Impl, s: System, events: seq<Event>): (r: System)
    requires WellFormed(s.db)
    ensures WellFormed(r.db)
    decreases |events|
  {
    if events == [] then s else Replay(impl, Apply(impl, s, events[0]), events[1..])
  }

  /** The system invariant: the queue's invariant, a well-formed store, and unique descriptions. */
  ghost predicate SystemInv(s: System) {
    TaskQueue.Inv(s.queue) && WellFormed(s.db) && UniqueDescriptions(s.db.tasks)
  }

  /** Every event keeps the system invariant. */
  lemma ApplyKeepsInv(impl: Commons.Impl, s: System, e: Event)
    requires SystemInv(s)
    ensures SystemInv(Apply(impl, s, e))
  {
    var q := s.queue;
    match e
    case Produce(t, now) =>
      SubmitKeepsQueueInv(q, t, now);
    case Pop =>
      if |q.loops| > 0 && q.loops[0].Checking? {
        TaskQueue.LoopPopKeepsInv(q, 0);
      }
    case Execute(now, fault, scopeFails) =>
      if |q.loops| > 0 && q.loops[0].Running? {
        TaskQueue.LoopRunKeepsInv(q, 0, OutcomeOf(scopeFails));
        if !scopeFails {
          Commons.AddKeepsUnique(impl, s.db, Some(q.loops[0].job.task), now, fault);
        }
      }
    case RunByHand(now, fault, scopeFails) =>
      if q.pending != [] {
        TaskQueue.DequeueKeepsInv(q, OutcomeOf(scopeFails));
        if !scopeFails {
          Commons.AddKeepsUnique(impl, s.db, Some(q.pending[0].task), now, fault);
        }
      }
  }

  /**
   * Under any interleaving of producers, drain-loop steps and manual
   * dequeues, the queue keeps its invariant and no two stored tasks ever
   * share a description, provided each job runs as one step: a job's
   * description check and its insert never overlap another job's.
   * `OverlappedAddsCanDuplicate` shows what happens when they do.
   */
  lemma {:induction false} ReplayKeepsInv(impl: Commons.Impl, s: System, events: seq<Event>)
    requires SystemInv(s)
    ensures SystemInv(Replay(impl, s, events))
    decreases |events|
  {
    if events != [] {
      ApplyKeepsInv(impl, s, events[0]);
      ReplayKeepsInv(impl, Apply(impl, s, events[0]), events[1..]);
    }
  }

  /**
   * Two add jobs that overlap, as the drain loop's job and a job run by a
   * manual `DequeueAsync` can, each in its own scope: both make the current
   * repository's checks against the store as it was before either inserts,
   * then each inserts if its checks passed.
   */
  function OverlappedAdds(db: Db, a: Tareas, b: Tareas, now: Instant): (r: Db)
    requires WellFormed(db)
    ensures WellFormed(r)
    ensures forall k | k in db.tasks :: k in r.tasks && r.tasks[k] == db.tasks[k]
  {
    var aPasses := CurrentRepository.AddCommits(db, Some(a), now, None);
    var bPasses := CurrentRepository.AddCommits(db, Some(b), now, None);
    var afterA := if aPasses then Insert(db, a) else db;
    if bPasses then Insert(afterA, b) else afterA
  }

  /**
   * When two overlapping add jobs carry the same description and each would
   * be accepted on its own, both are stored: the description check does not
   * keep descriptions unique once jobs overlap.
   */
  lemma OverlappedAddsCanDuplicate(db: Db, a: Tareas, b: Tareas, now: Instant)
    requires WellFormed(db)
    requires CurrentRepository.AddCommits(db, Some(a), now, None)
    requires CurrentRepository.AddCommits(db, Some(b), now, None)
    requires a.description == b.description
    ensures !UniqueDescriptions(OverlappedAdds(db, a, b, now).tasks)
  {
    var afterA := Insert(db, a);
    var r := Insert(afterA, b);
    assert r.tasks[db.nextId] == afterA.tasks[db.nextId];
    assert r.tasks[db.nextId].description == r.tasks[afterA.nextId].description;
  }

  /**
   * A job that fails, because its scope could not be created or its store
   * refused or threw, sends the loop back to checking the queue; a pending
   * job still has the flag set, so the loop will pop it. Unless the throw
   * came after the store's save had committed, neither the store nor the
   * notifications change.
   */
  lemma FailedJobContinues(impl: Commons.Impl, s: System, now: Instant, fault: Option<Fault>, scopeFails: bool)
    requires SystemInv(s)
    requires |s.queue.loops| > 0 && s.queue.loops[0].Running?
    requires scopeFails || !RunJob(impl, s.db, s.queue.loops[0].job, now, fault).reply.isSuccess
    ensures var r := Apply(impl, s, Execute(now, fault, scopeFails));
      && r.queue.loops == [TaskQueue.Checking]
      && r.queue.pending == s.queue.pending
      && (r.queue.pending != [] ==> r.queue.processing)
      && (scopeFails || !AfterSave(fault) ==> r.db == s.db && r.effects == s.effects)
  {
    TaskQueue.LoopRunKeepsInv(s.queue, 0, OutcomeOf(scopeFails));
  }

  /**
   * A job whose store accepts the task adds it under the next identity and
   * ends with the service's notification of exactly that stored task.
   */
  lemma SucceededJobNotifies(impl: Commons.Impl, s: System, now: Instant, fault: Option<Fault>)
    requires WellFormed(s.db)
    requires |s.queue.loops| > 0 && s.queue.loops[0].Running?
    requires RunJob(impl, s.db, s.queue.loops[0].job, now, fault).reply.isSuccess
    ensures var r := Apply(impl, s, Execute(now, fault, false));
      var stored := s.queue.loops[0].job.task.(id := s.db.nextId);
      && r.db.tasks == s.db.tasks[s.db.nextId := stored]
      && |r.effects| > |s.effects|
      && r.effects[|r.effects| - 1] == Notified(stored)
  {
  }
}
