/**
 * The current task repository (`TaskRepository`): validated, user-checked,
 * duplicate-checked writes that notify and broadcast on success.
 *
 * `now` is the clock the registered validator reads; `fault`, when present,
 * is the exception thrown while saving, which the repository catches and
 * turns into a failed reply.
 */
module CurrentRepository {
  import opened Wrappers
  import opened Domain
  import opened TaskStore
  import Validation

  const NullTask: string := "La tarea no puede ser nula."
  const NotValidated: string := "La tarea no pasó la validación."
  const UnknownUser: string := "El usuario asignado a la tarea no existe en la base de datos."
  const DuplicateDescription: string := "Ya existe una tarea con ese nombre..."
  const SaveErrorPrefix: string := "Error al guardar la tarea: "
  const SaveError: string := "Error inesperado al guardar la tarea."
  const Saved: string := "La tarea se guardó correctamente..."
  const UpdateNotFound: string := "No se encontró la tarea a actualizar."
  const UpdateError: string := "Error inesperado al actualizar la tarea."
  const Updated: string := "La tarea se actualizó correctamente..."
  const InvalidId: string := "ID inválido."
  const DeleteNotFound: string := "No se encontró la tarea..."
  const DeleteError: string := "Error inesperado al eliminar la tarea."
  const Deleted: string := "La tarea se eliminó correctamente..."
  /** The message of the `ArgumentException` `GetIdAsync` throws. */
  const InvalidIdArgument: string := "ID inválido (Parameter 'id')"

  /** The text interpolated for a nullable description. */
  function Text(d: Option<string>): string {
    d.GetOr("")
  }

  /**
   * The tail of a write whose save committed: the change notifier, then the
   * hub broadcast. If either throws, the catch reports `failed` although the
   * change is already stored.
   */
  function AfterCommit(db: Db, saved: string, failed: string, notified: Effect, broadcast: Effect,
                       fault: Option<Fault>): Write
  {
    match fault
    case None => Write(Reply(true, saved), db, [notified, broadcast])
    case Some(f) => Write(Reply(false, failed), db, if f.BroadcastFailed? then [notified] else [])
  }

  /** `AddAsync` gets past every check and its save commits. */
  predicate AddCommits(db: Db, entry: Option<Tareas>, now: Instant, fault: Option<Fault>) {
    && entry.Some?
    && Validation.IsValid(entry.value, now)
    && entry.value.userId in db.users
    && !DescriptionTaken(db.tasks, entry.value.description)
    && !SaveThrows(fault)
  }

  /**
   * `AddAsync`. Rejections are checked in order: null entry, validator,
   * unknown user, duplicate description, then a failed save; each leaves the
   * store untouched. Past them the entry is inserted under a fresh id, the
   * notifier is called with it and its description is broadcast; a throw
   * from either of those is reported as a failure, with the task stored.
   */
  function Add(db: Db, entry: Option<Tareas>, now: Instant, fault: Option<Fault>): (w: Write)
    requires WellFormed(db)
    ensures w.reply.isSuccess <==> AddCommits(db, entry, now, fault) && fault.None?
    ensures entry.None? ==> w.reply.message == NullTask
    ensures entry.Some? && !Validation.IsValid(entry.value, now) ==> w.reply.message == NotValidated
    ensures entry.Some? && Validation.IsValid(entry.value, now) && entry.value.userId !in db.users
      ==> w.reply.message == UnknownUser
    ensures (entry.Some? && Validation.IsValid(entry.value, now) && entry.value.userId in db.users
             && DescriptionTaken(db.tasks, entry.value.description)) ==> w.reply.message == DuplicateDescription
    ensures (entry.Some? && Validation.IsValid(entry.value, now) && entry.value.userId in db.users
             && !DescriptionTaken(db.tasks, entry.value.description) && SaveThrows(fault))
      ==> w.reply.message == (if fault.value.DbUpdate? then SaveErrorPrefix + fault.value.message else SaveError)
    ensures AddCommits(db, entry, now, fault) && AfterSave(fault) ==> w.reply.message == SaveError
    ensures w.reply.isSuccess ==> w.reply.message == Saved
    ensures !AddCommits(db, entry, now, fault) ==> w.db == db && w.effects == []
    ensures AddCommits(db, entry, now, fault) ==>
      && w.db.tasks.Keys == db.tasks.Keys + {db.nextId}
      && db.nextId !in db.tasks
      && w.db.tasks[db.nextId] == entry.value.(id := db.nextId)
      && (forall k | k in db.tasks :: w.db.tasks[k] == db.tasks[k])
      && w.db.users == db.users
      && var notified := Notified(w.db.tasks[db.nextId]);
         var broadcast := Broadcast("Nueva tarea creada: " + Text(entry.value.description));
         w.effects == if fault.None? then [notified, broadcast]
                      else if fault.value.BroadcastFailed? then [notified] else []
    ensures WellFormed(w.db)
  {
    match entry
    case None => Reject(db, NullTask)
    case Some(e) =>
      if !Validation.IsValid(e, now) then Reject(db, NotValidated)
      else if e.userId !in db.users then Reject(db, UnknownUser)
      else if DescriptionTaken(db.tasks, e.description) then Reject(db, DuplicateDescription)
      else if SaveThrows(fault) then
        Reject(db, if fault.value.DbUpdate? then SaveErrorPrefix + fault.value.message else SaveError)
      else
        var db' := Insert(db, e);
        AfterCommit(db', Saved, SaveError, Notified(db'.tasks[db.nextId]),
                    Broadcast("Nueva tarea creada: " + Text(e.description)), fault)
  }

  /**
   * A throw from the notifier or the hub after the save is reported as a
   * failure, yet the task is stored under the next identity.
   */
  lemma FailedAddCanStore(db: Db, entry: Tareas, now: Instant, fault: Fault)
    requires WellFormed(db)
    requires AddCommits(db, Some(entry), now, Some(fault)) && AfterSave(Some(fault))
    ensures var w := Add(db, Some(entry), now, Some(fault));
      && !w.reply.isSuccess
      && db.nextId !in db.tasks && db.nextId in w.db.tasks
      && w.db.tasks[db.nextId] == entry.(id := db.nextId)
  {
  }

  /** `AddAsync` never creates two tasks with one description. */
  lemma AddKeepsUnique(db: Db, entry: Option<Tareas>, now: Instant, fault: Option<Fault>)
    requires WellFormed(db) && UniqueDescriptions(db.tasks)
    ensures UniqueDescriptions(Add(db, entry, now, fault).db.tasks)
  {
    if AddCommits(db, entry, now, fault) {
      InsertKeepsUnique(db, entry.value);
    }
  }

  /** `UpdateAsync` finds the stored task and its save commits. */
  predicate UpdateCommits(db: Db, entry: Option<Tareas>, now: Instant, fault: Option<Fault>) {
    entry.Some? && Validation.IsValid(entry.value, now) && entry.value.id in db.tasks && !SaveThrows(fault)
  }

  /**
   * `UpdateAsync`. A null, invalid or unknown task fails with no change, as
   * does a failed save. Otherwise the stored task takes the entry's
   * description, due date, status and extra data, keeping its id and owner;
   * no uniqueness check is made. A throw from the notifier or the hub after
   * the save is reported as a failure, with the change stored.
   */
  function Update(db: Db, entry: Option<Tareas>, now: Instant, fault: Option<Fault>): (w: Write)
    requires WellFormed(db)
    ensures w.reply.isSuccess <==> UpdateCommits(db, entry, now, fault) && fault.None?
    ensures entry.None? ==> w.reply.message == NullTask
    ensures entry.Some? && !Validation.IsValid(entry.value, now) ==> w.reply.message == NotValidated
    ensures entry.Some? && Validation.IsValid(entry.value, now) && entry.value.id !in db.tasks
      ==> w.reply.message == UpdateNotFound
    ensures (entry.Some? && Validation.IsValid(entry.value, now) && entry.value.id in db.tasks && fault.Some?)
      ==> w.reply.message == UpdateError
    ensures w.reply.isSuccess ==> w.reply.message == Updated
    ensures !UpdateCommits(db, entry, now, fault) ==> w.db == db && w.effects == []
    ensures UpdateCommits(db, entry, now, fault) ==>
      var e := entry.value;
      var prior := db.tasks[e.id];
      && w.db.tasks.Keys == db.tasks.Keys
      && w.db.tasks[e.id].id == prior.id && w.db.tasks[e.id].userId == prior.userId
      && w.db.tasks[e.id].description == e.description && w.db.tasks[e.id].dueDate == e.dueDate
      && w.db.tasks[e.id].status == e.status && w.db.tasks[e.id].additionalData == e.additionalData
      && (forall k | k in db.tasks && k != e.id :: w.db.tasks[k] == db.tasks[k])
      && w.db.users == db.users && w.db.nextId == db.nextId
      && var notified := Notified(w.db.tasks[e.id]);
         var broadcast := Broadcast("Tarea actualizada: " + Text(e.description));
         w.effects == if fault.None? then [notified, broadcast]
                      else if fault.value.BroadcastFailed? then [notified] else []
    ensures WellFormed(w.db)
  {
    match entry
    case None => Reject(db, NullTask)
    case Some(e) =>
      if !Validation.IsValid(e, now) then Reject(db, NotValidated)
      else if e.id !in db.tasks then Reject(db, UpdateNotFound)
      else if SaveThrows(fault) then Reject(db, UpdateError)
      else
        var updated := db.tasks[e.id].(description := e.description, dueDate := e.dueDate,
                                        status := e.status, additionalData := e.additionalData);
        AfterCommit(db.(tasks := db.tasks[e.id := updated]), Updated, UpdateError, Notified(updated),
                    Broadcast("Tarea actualizada: " + Text(e.description)), fault)
  }

  /**
   * `UpdateAsync` does not re-check uniqueness: renaming one of two tasks to
   * the other's description succeeds and leaves two tasks sharing it.
   */
  lemma UpdateCanDuplicateDescription()
    ensures
      var a := Tareas(1, Some("a"), 10, Some("Pending"), None, 7);
      var b := Tareas(2, Some("b"), 10, Some("Pending"), None, 7);
      var db := Db(map[1 := a, 2 := b], {7}, 3);
      var w := Update(db, Some(b.(description := Some("a"))), 0, None);
      && WellFormed(db) && UniqueDescriptions(db.tasks)
      && w.reply.isSuccess && !UniqueDescriptions(w.db.tasks)
  {
    var a := Tareas(1, Some("a"), 10, Some("Pending"), None, 7);
    var b := Tareas(2, Some("b"), 10, Some("Pending"), None, 7);
    var db := Db(map[1 := a, 2 := b], {7}, 3);
    var w := Update(db, Some(b.(description := Some("a"))), 0, None);
    assert w.db.tasks[1].description == w.db.tasks[2].description;
  }

  /** `DeleteAsync` finds the task and its save commits. */
  predicate DeleteCommits(db: Db, id: int, fault: Option<Fault>) {
    id > 0 && id in db.tasks && !SaveThrows(fault)
  }

  /**
   * `DeleteAsync`. A non-positive id fails before the table is read, an
   * unknown id or a failed save fails too, each with no change. Otherwise
   * exactly that task is removed and the notifier is called with it; a throw
   * from the notifier or the hub after the save is reported as a failure,
   * with the task already removed.
   */
  function Delete(db: Db, id: int, fault: Option<Fault>): (w: Write)
    requires WellFormed(db)
    ensures w.reply.isSuccess <==> DeleteCommits(db, id, fault) && fault.None?
    ensures id <= 0 ==> w.reply.message == InvalidId
    ensures id > 0 && id !in db.tasks ==> w.reply.message == DeleteNotFound
    ensures id > 0 && id in db.tasks && fault.Some? ==> w.reply.message == DeleteError
    ensures w.reply.isSuccess ==> w.reply.message == Deleted
    ensures !DeleteCommits(db, id, fault) ==> w.db == db && w.effects == []
    ensures DeleteCommits(db, id, fault) ==>
      && w.db.tasks == db.tasks - {id}
      && w.db.users == db.users && w.db.nextId == db.nextId
      && var notified := Notified(db.tasks[id]);
         var broadcast := Broadcast("Tarea eliminada: " + Text(db.tasks[id].description));
         w.effects == if fault.None? then [notified, broadcast]
                      else if fault.value.BroadcastFailed? then [notified] else []
    ensures WellFormed(w.db)
  {
    if id <= 0 then Reject(db, InvalidId)
    else if id !in db.tasks then Reject(db, DeleteNotFound)
    else if SaveThrows(fault) then Reject(db, DeleteError)
    else
      var t := db.tasks[id];
      AfterCommit(db.(tasks := db.tasks - {id}), Deleted, DeleteError, Notified(t),
                  Broadcast("Tarea eliminada: " + Text(t.description)), fault)
  }

  /** `GetIdAsync`: throws on a non-positive id, otherwise the task with that id or null. */
  function GetId(db: Db, id: int): (r: Result<Option<Tareas>>)
    ensures r.Throws? <==> id <= 0
    ensures r.Throws? ==> r.message == InvalidIdArgument
    ensures r.Ok? ==> (r.value.Some? <==> id in db.tasks)
    ensures r.Ok? && r.value.Some? ==> r.value.value == db.tasks[id]
  {
    if id <= 0 then Throws(InvalidIdArgument) else Ok(Lookup(db, id))
  }

  /** `ExistsAsync`: whether some stored task has that id. */
  function Exists(db: Db, id: int): (b: bool)
    requires WellFormed(db)
    ensures b <==> exists t | t in db.tasks.Values :: t.id == id
  {
    StoredUnderOwnId(db);
    assert id in db.tasks ==> db.tasks[id] in db.tasks.Values;
    id in db.tasks
  }

  /** `GetAllAsync`: every stored task. */
  function GetAll(db: Db): (r: seq<Tareas>)
    ensures |r| == |db.tasks|
    ensures forall k | k in db.tasks :: db.tasks[k] in r
    ensures forall i | 0 <= i < |r| :: r[i] in db.tasks.Values
  {
    Listing(db.tasks)
  }
}
