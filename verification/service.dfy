/**
 * The task service (`TaskService`). Adding a task validates it at once and
 * either refuses it or queues one background job that stores it; updating,
 * deleting and reading go straight to the repository and fold its result
 * into a `Response`.
 *
 * `impl` is the repository the interface is bound to, `now` the clock the
 * factories and the validator read, and `fault` an exception the save may
 * throw.
 */
module Service {
  import opened Wrappers
  import opened Domain
  import opened TaskStore
  import opened Responses
  import Validation
  import Factories
  import Commons
  import Calculations
  import TaskQueue

  const Invalid: string := "La tarea no es válida"
  const Queued: string := "Tarea agregada a la cola de procesamiento"
  const NothingToDelete: string := "No se encontró la tarea para eliminar"
  const NoInformation: string := "No se encontró información..."
  const NoTasks: string := "No se encontraron tareas"
  const RateComputed: string := "Porcentaje de tareas completadas calculado correctamente"
  /** The message of the `NullReferenceException` dereferencing a null task raises. */
  const NullReference: string := "Object reference not set to an instance of an object."

  /** A queued job: store this task, and notify if the store accepted it. */
  datatype Job = AddJob(task: Tareas)

  /** An add call's response and the queue after it. */
  datatype Submitted = Submitted(response: Response<string>, queue: TaskQueue.Queue<Job>)

  /** A direct call's response, the store after it and the notifications emitted, in order. */
  datatype Served<T> = Served(response: Response<T>, db: Db, effects: seq<Effect>)

  /** A completion-rate call's response and the rate cache after it. */
  datatype Rating = Rating(response: Response<real>, cache: Calculations.Cache)

  /** The response of a successful add: queued, with nothing stored yet. */
  function Accepted(): Response<string> {
    Response(true, Some(Queued), [], None, None)
  }

  /** The common tail of the three add methods: refuse an invalid task, otherwise queue one job for it. */
  function Submit(q: TaskQueue.Queue<Job>, t: Tareas, now: Instant): (s: Submitted)
    ensures !Validation.IsValid(t, now) ==> s == Submitted(Failed(Invalid), q)
    ensures Validation.IsValid(t, now) ==>
      && s.response == Accepted()
      && s.queue == TaskQueue.Enqueue(q, AddJob(t))
      && s.queue.pending == q.pending + [AddJob(t)]
      && s.queue.submitted == q.submitted + [AddJob(t)]
  {
    if !Validation.IsValid(t, now) then Submitted(Failed(Invalid), q)
    else Submitted(Accepted(), TaskQueue.Enqueue(q, AddJob(t)))
  }

  /**
   * `AddHighPriorityTaskAsync`: refused exactly when the description is
   * missing or empty; otherwise exactly one job for a high-priority task is
   * queued, whatever later becomes of it.
   */
  function AddHighPriorityTask(q: TaskQueue.Queue<Job>, description: Option<string>, userId: int, now: Instant): (s: Submitted)
    ensures s.response.successful <==> !Validation.IsNullOrEmpty(description)
    ensures !s.response.successful ==> s.response == Failed(Invalid) && s.queue == q
    ensures s.response.successful ==>
      && s.response == Accepted()
      && s.queue.pending == q.pending + [AddJob(Factories.CreateHighPriorityTask(description, userId, now))]
      && s.queue.submitted == q.submitted + [AddJob(Factories.CreateHighPriorityTask(description, userId, now))]
  {
    Factories.PriorityTaskValidIffDescribed(description, userId, now);
    Submit(q, Factories.CreateHighPriorityTask(description, userId, now), now)
  }

  /** `AddLowPriorityTaskAsync`: as the high-priority add, for a low-priority task. */
  function AddLowPriorityTask(q: TaskQueue.Queue<Job>, description: Option<string>, userId: int, now: Instant): (s: Submitted)
    ensures s.response.successful <==> !Validation.IsNullOrEmpty(description)
    ensures !s.response.successful ==> s.response == Failed(Invalid) && s.queue == q
    ensures s.response.successful ==>
      && s.response == Accepted()
      && s.queue.pending == q.pending + [AddJob(Factories.CreateLowPriorityTask(description, userId, now))]
      && s.queue.submitted == q.submitted + [AddJob(Factories.CreateLowPriorityTask(description, userId, now))]
  {
    Factories.PriorityTaskValidIffDescribed(description, userId, now);
    Submit(q, Factories.CreateLowPriorityTask(description, userId, now), now)
  }

  /** `AddCustomTaskAsync`: refused exactly when the description is missing or empty or the due date is not after `now`. */
  function AddCustomTask(q: TaskQueue.Queue<Job>, description: Option<string>, dueDate: Instant,
                         additionalData: Option<string>, userId: int, now: Instant): (s: Submitted)
    ensures s.response.successful <==> !Validation.IsNullOrEmpty(description) && dueDate > now
    ensures !s.response.successful ==> s.response == Failed(Invalid) && s.queue == q
    ensures s.response.successful ==>
      && s.response == Accepted()
      && s.queue.pending == q.pending + [AddJob(Factories.CreateCustomTask(description, dueDate, additionalData, userId))]
      && s.queue.submitted == q.submitted + [AddJob(Factories.CreateCustomTask(description, dueDate, additionalData, userId))]
  {
    Factories.CustomTaskValidIff(description, dueDate, additionalData, userId, now);
    Submit(q, Factories.CreateCustomTask(description, dueDate, additionalData, userId), now)
  }

  /** Queuing a job keeps the queue's invariant. */
  lemma SubmitKeepsQueueInv(q: TaskQueue.Queue<Job>, t: Tareas, now: Instant)
    requires TaskQueue.Inv(q)
    ensures TaskQueue.Inv(Submit(q, t, now).queue)
  {
    if Validation.IsValid(t, now) {
      TaskQueue.EnqueueKeepsInv(q, AddJob(t));
    }
  }

  /**
   * The body of a queued job, run in its own scope: store the task through
   * the repository, then notify with the stored task exactly when the store
   * reports success. The repository's own notifications come first. A
   * failure reported after the repository's save has committed leaves the
   * task stored, but the job does not notify.
   */
  function RunJob(impl: Commons.Impl, db: Db, job: Job, now: Instant, fault: Option<Fault>): (w: Write)
    requires WellFormed(db)
    ensures WellFormed(w.db)
    ensures var stored := Commons.Add(impl, db, Some(job.task), now, fault);
      && w.reply == stored.reply && w.db == stored.db
      && |w.effects| == |stored.effects| + (if w.reply.isSuccess then 1 else 0)
      && w.effects[..|stored.effects|] == stored.effects
    ensures !w.reply.isSuccess && !AfterSave(fault) ==> w.db == db && w.effects == []
    ensures w.reply.isSuccess ==>
      && db.nextId in w.db.tasks
      && w.effects[|w.effects| - 1] == Notified(job.task.(id := db.nextId))
      && w.db.tasks == db.tasks[db.nextId := job.task.(id := db.nextId)]
  {
    var stored := Commons.Add(impl, db, Some(job.task), now, fault);
    if stored.reply.isSuccess then
      Write(stored.reply, stored.db, stored.effects + [Notified(stored.db.tasks[db.nextId])])
    else stored
  }

  /**
   * `UpdateTaskAllAsync`. A null task throws on validation and the message
   * is recorded; an invalid task is refused without calling the repository.
   * Otherwise the response mirrors the repository's reply, and the service
   * notifies with the task it was given exactly when that reply succeeded.
   */
  function UpdateTask(impl: Commons.Impl, db: Db, tarea: Option<Tareas>, now: Instant, fault: Option<Fault>): (s: Served<string>)
    requires WellFormed(db)
    ensures WellFormed(s.db)
    ensures tarea.None? ==> s == Served(Caught(NullReference), db, [])
    ensures tarea.Some? && !Validation.IsValid(tarea.value, now) ==> s == Served(Failed(Invalid), db, [])
    ensures tarea.Some? && Validation.IsValid(tarea.value, now) ==>
      var w := Commons.Update(impl, db, tarea, now, fault);
      && s.response == Response(w.reply.isSuccess, Some(w.reply.message), [], None, None)
      && s.db == w.db
      && |s.effects| == |w.effects| + (if w.reply.isSuccess then 1 else 0)
      && s.effects[..|w.effects|] == w.effects
      && (w.reply.isSuccess ==> s.effects[|s.effects| - 1].Notified?)
      && (w.reply.isSuccess && tarea.value.id != 0 ==> s.effects[|s.effects| - 1] == Notified(tarea.value))
    ensures !s.response.successful && !AfterSave(fault) ==> s.db == db && s.effects == []
  {
    match tarea
    case None => Served(Caught(NullReference), db, [])
    case Some(t) =>
      if !Validation.IsValid(t, now) then Served(Failed(Invalid), db, [])
      else
        var w := Commons.Update(impl, db, tarea, now, fault);
        var response := Response(w.reply.isSuccess, Some(w.reply.message), [], None, None);
        if !w.reply.isSuccess then Served(response, w.db, w.effects)
        else
          // The legacy repository tracks the given object itself, so an
          // insert under the identity counter gives it its new id.
          var sent := if impl.Legacy? && t.id == 0 then t.(id := db.nextId) else t;
          Served(response, w.db, w.effects + [Notified(sent)])
  }

  /**
   * `DeleteTaskAllAsync`. The task is looked up first: a lookup that throws
   * is recorded, and a missing task is reported without calling delete.
   * Otherwise the response mirrors the repository's reply, and on success
   * the service notifies with the task as it was before deletion.
   */
  function DeleteTask(impl: Commons.Impl, db: Db, id: int, fault: Option<Fault>): (s: Served<string>)
    requires WellFormed(db)
    ensures WellFormed(s.db)
    ensures Commons.GetId(impl, db, id).Throws? ==>
      s == Served(Caught(Commons.GetId(impl, db, id).message), db, [])
    ensures Commons.GetId(impl, db, id).Ok? && id !in db.tasks ==>
      s == Served(Failed(NothingToDelete), db, [])
    ensures Commons.GetId(impl, db, id).Ok? && id in db.tasks ==>
      var w := Commons.Delete(impl, db, id, fault);
      && s.response == Response(w.reply.isSuccess, Some(w.reply.message), [], None, None)
      && s.db == w.db
      && s.effects == w.effects + (if w.reply.isSuccess then [Notified(db.tasks[id])] else [])
    ensures s.response.successful <==>
      Commons.GetId(impl, db, id).Ok? && id in db.tasks && Commons.Delete(impl, db, id, fault).reply.isSuccess
    ensures s.response.successful ==> s.db.tasks == db.tasks - {id}
  {
    match Commons.GetId(impl, db, id)
    case Throws(m) => Served(Caught(m), db, [])
    case Ok(found) =>
      if found.None? then Served(Failed(NothingToDelete), db, [])
      else
        var w := Commons.Delete(impl, db, id, fault);
        var response := Response(w.reply.isSuccess, Some(w.reply.message), [], None, None);
        Served(response, w.db, w.effects + (if w.reply.isSuccess then [Notified(found.value)] else []))
  }

  /**
   * `GetTaskByIdAllAsync`: successful exactly when the task exists, and then
   * carrying it; otherwise the not-found message, or the recorded exception.
   */
  function GetTaskById(impl: Commons.Impl, db: Db, id: int): (r: Response<Tareas>)
    ensures r.successful <==> Commons.GetId(impl, db, id).Ok? && id in db.tasks
    ensures r.successful ==> r.singleData == Some(db.tasks[id]) && r.message.None?
    ensures !r.successful ==> r.singleData.None?
    ensures Commons.GetId(impl, db, id).Ok? && id !in db.tasks ==> r.message == Some(NoInformation)
    ensures r.ThereIsError() <==> Commons.GetId(impl, db, id).Throws?
  {
    match Commons.GetId(impl, db, id)
    case Throws(m) => Caught(m)
    case Ok(found) =>
      if found.Some? then Response(true, None, [], None, Some(found.value))
      else Failed(NoInformation)
  }

  /** `GetTaskAllAsync`: every stored task, successful exactly when there is at least one. */
  function GetTasks(impl: Commons.Impl, db: Db): (r: Response<Tareas>)
    ensures r.successful <==> |db.tasks| > 0
    ensures r.dataList.Some? && |r.dataList.value| == |db.tasks|
    ensures forall k | k in db.tasks :: db.tasks[k] in r.dataList.value
    ensures !r.ThereIsError()
  {
    var all := Commons.GetAll(impl, db);
    Response(|all| > 0, None, [], Some(all), None)
  }

  /**
   * `GetTaskCompletionPercentageAsync`. No tasks is a refusal; a null status
   * is recorded as an error and leaves the cache as it was; otherwise the
   * memoised rate is returned.
   */
  function CompletionPercentage(impl: Commons.Impl, db: Db, cache: Calculations.Cache): (r: Rating)
    ensures |db.tasks| == 0 ==> r == Rating(Failed(NoTasks), cache)
    ensures |db.tasks| > 0 ==>
      var c := Calculations.CalculateCompletionRate(Commons.GetAll(impl, db), cache);
      && (c.Throws? ==> r == Rating(Caught(c.message), cache))
      && (c.Ok? ==> r == Rating(Response(true, Some(RateComputed), [], None, Some(c.value.rate)), c.value.cache))
    ensures r.response.successful <==>
      |db.tasks| > 0 && !Calculations.HasNullStatus(Commons.GetAll(impl, db))
  {
    var tasks := Commons.GetAll(impl, db);
    if |tasks| == 0 then Rating(Failed(NoTasks), cache)
    else
      match Calculations.CalculateCompletionRate(tasks, cache)
      case Throws(m) => Rating(Caught(m), cache)
      case Ok(rated) => Rating(Response(true, Some(RateComputed), [], None, Some(rated.rate)), rated.cache)
  }

  /**
   * With a sound cache, a successful percentage is the exact share of
   * completed tasks in the store, between 0 and 100, and the cache stays
   * sound.
   */
  lemma CompletionPercentageIsRate(impl: Commons.Impl, db: Db, cache: Calculations.Cache)
    requires Calculations.CacheSound(cache)
    ensures var r := CompletionPercentage(impl, db, cache);
      && Calculations.CacheSound(r.cache)
      && (r.response.successful ==>
            var tasks := Commons.GetAll(impl, db);
            && r.response.singleData == Some(Calculations.Percent(Calculations.NumCompleted(tasks), |tasks|))
            && 0.0 <= r.response.singleData.value <= 100.0)
  {
    var tasks := Commons.GetAll(impl, db);
    if |tasks| > 0 && Calculations.CalculateCompletionRate(tasks, cache).Ok? {
      Calculations.RateRange(tasks, cache);
    }
  }
}
