/**
 * The older task repository (`TaskReprository`), the implementation the web
 * host registers. It validates nothing, checks no user, emits no
 * notifications, and turns every exception into a failed reply. It predates
 * the user relation, so the store's user set plays no part here.
 *
 * `fault`, when present, is an exception thrown while saving. Nothing runs
 * after the save here, so a fault that would come from a notifier or a hub
 * broadcast cannot arise and the write succeeds.
 */
module LegacyRepository {
  import opened Wrappers
  import opened Domain
  import opened TaskStore

  const DuplicateDescription: string := "Ya existe una tarea con ese nombre..."
  const Saved: string := "La tarea se guardo correctamente..."
  const NotSaved: string := "No se pudo guardar la tarea..."
  const Updated: string := "La tarea se actualizo correctamente..."
  const NotUpdated: string := "No se pudo actualizar la tarea..."
  const Deleted: string := "La tarea se eliminó correctamente..."
  const NotFound: string := "No se encontró la tarea..."
  const NotDeleted: string := "No se pudo eliminar la tarea..."

  /**
   * `AddAsync`. A null entry throws inside the `try` and is reported as not
   * saved; an existing description is refused; otherwise the entry is
   * inserted under a fresh id unless the save fails.
   */
  function Add(db: Db, entry: Option<Tareas>, fault: Option<Fault>): (w: Write)
    requires WellFormed(db)
    ensures w.reply.isSuccess <==>
      entry.Some? && !DescriptionTaken(db.tasks, entry.value.description) && !SaveThrows(fault)
    ensures entry.None? ==> w.reply.message == NotSaved
    ensures entry.Some? && DescriptionTaken(db.tasks, entry.value.description)
      ==> w.reply.message == DuplicateDescription
    ensures !w.reply.isSuccess ==> w.db == db
    ensures w.reply.isSuccess ==>
      && w.reply.message == Saved
      && w.db.tasks.Keys == db.tasks.Keys + {db.nextId}
      && db.nextId !in db.tasks
      && w.db.tasks[db.nextId] == entry.value.(id := db.nextId)
      && (forall k | k in db.tasks :: w.db.tasks[k] == db.tasks[k])
    ensures w.effects == []
    ensures WellFormed(w.db)
  {
    match entry
    case None => Reject(db, NotSaved)
    case Some(e) =>
      if DescriptionTaken(db.tasks, e.description) then Reject(db, DuplicateDescription)
      else if SaveThrows(fault) then Reject(db, NotSaved)
      else Write(Reply(true, Saved), Insert(db, e), [])
  }

  /** The older `AddAsync` also never creates two tasks with one description. */
  lemma AddKeepsUnique(db: Db, entry: Option<Tareas>, fault: Option<Fault>)
    requires WellFormed(db) && UniqueDescriptions(db.tasks)
    ensures UniqueDescriptions(Add(db, entry, fault).db.tasks)
  {
    if Add(db, entry, fault).reply.isSuccess {
      InsertKeepsUnique(db, entry.value);
    }
  }

  /**
   * `UpdateAsync` (`DbSet.Update`). An entry whose id is stored replaces the
   * stored task wholesale. An entry with the unset id 0 is tracked as new and
   * inserted under a fresh id. Any other id makes the save throw, as does a
   * null entry or a failed save; all of these report not updated.
   */
  function Update(db: Db, entry: Option<Tareas>, fault: Option<Fault>): (w: Write)
    requires WellFormed(db)
    ensures w.reply.isSuccess <==>
      entry.Some? && (entry.value.id in db.tasks || entry.value.id == 0) && !SaveThrows(fault)
    ensures !w.reply.isSuccess ==> w.db == db && w.reply.message == NotUpdated
    ensures w.reply.isSuccess && entry.value.id in db.tasks ==>
      w.db == db.(tasks := db.tasks[entry.value.id := entry.value])
    ensures w.reply.isSuccess && entry.value.id == 0 ==>
      && w.db.tasks.Keys == db.tasks.Keys + {db.nextId}
      && w.db.tasks[db.nextId] == entry.value.(id := db.nextId)
      && (forall k | k in db.tasks :: w.db.tasks[k] == db.tasks[k])
    ensures w.reply.isSuccess ==> w.reply.message == Updated
    ensures w.effects == []
    ensures WellFormed(w.db)
  {
    match entry
    case None => Reject(db, NotUpdated)
    case Some(e) =>
      if SaveThrows(fault) then Reject(db, NotUpdated)
      else if e.id in db.tasks then Write(Reply(true, Updated), db.(tasks := db.tasks[e.id := e]), [])
      else if e.id == 0 then Write(Reply(true, Updated), Insert(db, e), [])
      else Reject(db, NotUpdated)
  }

  /** `DeleteAsync`: removes the task when found; otherwise not found, with no change. */
  function Delete(db: Db, id: int, fault: Option<Fault>): (w: Write)
    requires WellFormed(db)
    ensures w.reply.isSuccess <==> id in db.tasks && !SaveThrows(fault)
    ensures id !in db.tasks ==> w.reply.message == NotFound
    ensures id in db.tasks && SaveThrows(fault) ==> w.reply.message == NotDeleted
    ensures !w.reply.isSuccess ==> w.db == db
    ensures w.reply.isSuccess ==> w.reply.message == Deleted && w.db == db.(tasks := db.tasks - {id})
    ensures w.effects == []
    ensures WellFormed(w.db)
  {
    if id !in db.tasks then Reject(db, NotFound)
    else if SaveThrows(fault) then Reject(db, NotDeleted)
    else Write(Reply(true, Deleted), db.(tasks := db.tasks - {id}), [])
  }

  /** `GetIdAsync`: the task with that id, or null; it never throws. */
  function GetId(db: Db, id: int): (r: Option<Tareas>)
    ensures r.Some? <==> id in db.tasks
    ensures r.Some? ==> r.value == db.tasks[id]
    ensures WellFormed(db) && r.Some? ==> r.value.id == id
  {
    Lookup(db, id)
  }

  /** `GetAllAsync`: every stored task. */
  function GetAll(db: Db): (r: seq<Tareas>)
    ensures |r| == |db.tasks|
    ensures forall k | k in db.tasks :: db.tasks[k] in r
    ensures forall i | 0 <= i < |r| :: r[i] in db.tasks.Values
  {
    Listing(db.tasks)
  }
}
