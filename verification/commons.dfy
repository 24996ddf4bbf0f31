/**
 * The common repository interface (`ICommonsProcess<Tareas>`) the service
 * and the queued jobs call, bound to one of the two task repositories.
 */
module Commons {
  import opened Wrappers
  import opened Domain
  import opened TaskStore
  import CurrentRepository
  import LegacyRepository

  /** Which repository the interface is bound to. */
  datatype Impl = Current | Legacy

  /** `GetAllAsync`: every stored task, once each. */
  function GetAll(impl: Impl, db: Db): (r: seq<Tareas>)
    ensures |r| == |db.tasks|
    ensures forall k | k in db.tasks :: db.tasks[k] in r
  {
    match impl
    case Current => CurrentRepository.GetAll(db)
    case Legacy => LegacyRepository.GetAll(db)
  }

  /** `GetIdAsync`: only the current repository throws, and only on a non-positive id. */
  function GetId(impl: Impl, db: Db, id: int): (r: Result<Option<Tareas>>)
    ensures r.Throws? <==> impl.Current? && id <= 0
    ensures r.Ok? ==> (r.value.Some? <==> id in db.tasks)
    ensures r.Ok? && r.value.Some? ==> r.value.value == db.tasks[id]
  {
    match impl
    case Current => CurrentRepository.GetId(db, id)
    case Legacy => Ok(LegacyRepository.GetId(db, id))
  }

  /**
   * `AddAsync`: either nothing changes, or the entry, whose description
   * nobody holds, is inserted under the next identity. A success always
   * inserts; a failure changes nothing unless it was thrown after the save.
   */
  function Add(impl: Impl, db: Db, entry: Option<Tareas>, now: Instant, fault: Option<Fault>): (w: Write)
    requires WellFormed(db)
    ensures WellFormed(w.db)
    ensures w.db == db || (
      && entry.Some? && !SaveThrows(fault)
      && !DescriptionTaken(db.tasks, entry.value.description)
      && w.db.tasks == db.tasks[db.nextId := entry.value.(id := db.nextId)])
    ensures w.reply.isSuccess ==>
      && entry.Some? && !SaveThrows(fault)
      && !DescriptionTaken(db.tasks, entry.value.description)
      && w.db.tasks == db.tasks[db.nextId := entry.value.(id := db.nextId)]
    ensures !w.reply.isSuccess && !AfterSave(fault) ==> w.db == db && w.effects == []
  {
    match impl
    case Current => CurrentRepository.Add(db, entry, now, fault)
    case Legacy => LegacyRepository.Add(db, entry, fault)
  }

  /** Whichever repository is bound, adding keeps descriptions unique. */
  lemma AddKeepsUnique(impl: Impl, db: Db, entry: Option<Tareas>, now: Instant, fault: Option<Fault>)
    requires WellFormed(db) && UniqueDescriptions(db.tasks)
    ensures UniqueDescriptions(Add(impl, db, entry, now, fault).db.tasks)
  {
    match impl
    case Current => CurrentRepository.AddKeepsUnique(db, entry, now, fault);
    case Legacy => LegacyRepository.AddKeepsUnique(db, entry, fault);
  }

  /** `UpdateAsync`: a failure changes nothing unless it was thrown after the save. */
  function Update(impl: Impl, db: Db, entry: Option<Tareas>, now: Instant, fault: Option<Fault>): (w: Write)
    requires WellFormed(db)
    ensures WellFormed(w.db)
    ensures !w.reply.isSuccess && !AfterSave(fault) ==> w.db == db && w.effects == []
    ensures w.reply.isSuccess ==> entry.Some? && !SaveThrows(fault)
  {
    match impl
    case Current => CurrentRepository.Update(db, entry, now, fault)
    case Legacy => LegacyRepository.Update(db, entry, fault)
  }

  /**
   * `DeleteAsync`: either nothing changes or exactly the task with that id is
   * removed. A success always removes it; a failure changes nothing unless
   * it was thrown after the save.
   */
  function Delete(impl: Impl, db: Db, id: int, fault: Option<Fault>): (w: Write)
    requires WellFormed(db)
    ensures WellFormed(w.db)
    ensures w.db == db || (id in db.tasks && !SaveThrows(fault) && w.db.tasks == db.tasks - {id})
    ensures w.reply.isSuccess ==> id in db.tasks && w.db.tasks == db.tasks - {id}
    ensures !w.reply.isSuccess && !AfterSave(fault) ==> w.db == db && w.effects == []
  {
    match impl
    case Current => CurrentRepository.Delete(db, id, fault)
    case Legacy => LegacyRepository.Delete(db, id, fault)
  }

  /** Whichever repository is bound and however the delete ends, descriptions stay unique. */
  lemma DeleteKeepsUnique(impl: Impl, db: Db, id: int, fault: Option<Fault>)
    requires WellFormed(db) && UniqueDescriptions(db.tasks)
    ensures UniqueDescriptions(Delete(impl, db, id, fault).db.tasks)
  {
    RemoveKeepsInvariants(db, id);
  }
}
