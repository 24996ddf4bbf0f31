/**
 * The task factories. Each reads the clock (`DateTime.Now`), passed here
 * as `now`, and never rejects its input.
 */
module Factories {
  import opened Wrappers
  import opened Domain
  import Validation

  const Pending: string := "Pending"
  const HighPriority: string := "High Priority"
  const LowPriority: string := "Low Priority"

  /** A pending task due one day from now. */
  function CreateHighPriorityTask(description: Option<string>, userId: int, now: Instant): (t: Tareas)
    ensures t.status == Some(Pending) && t.additionalData == Some(HighPriority)
    ensures t.description == description && t.userId == userId
    ensures t.dueDate == now + TicksPerDay && t.id == 0
  {
    Tareas(0, description, AddDays(now, 1), Some(Pending), Some(HighPriority), userId)
  }

  /** A pending task due seven days from now. */
  function CreateLowPriorityTask(description: Option<string>, userId: int, now: Instant): (t: Tareas)
    ensures t.status == Some(Pending) && t.additionalData == Some(LowPriority)
    ensures t.description == description && t.userId == userId
    ensures t.dueDate == now + 7 * TicksPerDay && t.id == 0
  {
    Tareas(0, description, AddDays(now, 7), Some(Pending), Some(LowPriority), userId)
  }

  /** A pending task carrying the caller's due date and extra data unchanged. */
  function CreateCustomTask(description: Option<string>, dueDate: Instant, additionalData: Option<string>, userId: int): (t: Tareas)
    ensures t.status == Some(Pending)
    ensures t.description == description && t.dueDate == dueDate
    ensures t.additionalData == additionalData && t.userId == userId && t.id == 0
  {
    Tareas(0, description, dueDate, Some(Pending), additionalData, userId)
  }

  /**
   * A high- or low-priority task is valid exactly when its description is
   * non-empty: its due date always lies after the creation instant.
   */
  lemma PriorityTaskValidIffDescribed(description: Option<string>, userId: int, now: Instant)
    ensures Validation.IsValid(CreateHighPriorityTask(description, userId, now), now)
        <==> !Validation.IsNullOrEmpty(description)
    ensures Validation.IsValid(CreateLowPriorityTask(description, userId, now), now)
        <==> !Validation.IsNullOrEmpty(description)
  {
  }

  /** A custom task is valid exactly when its description is non-empty and its due date is after `now`. */
  lemma CustomTaskValidIff(description: Option<string>, dueDate: Instant, additionalData: Option<string>, userId: int, now: Instant)
    ensures Validation.IsValid(CreateCustomTask(description, dueDate, additionalData, userId), now)
        <==> !Validation.IsNullOrEmpty(description) && dueDate > now
  {
  }

  /** A high-priority task stays valid for a whole day after creation, and a low-priority one for seven. */
  lemma PriorityTaskValidityWindow(description: string, userId: int, now: Instant, later: Instant)
    requires description != ""
    ensures Validation.IsValid(CreateHighPriorityTask(Some(description), userId, now), later)
        <==> later < now + TicksPerDay
    ensures Validation.IsValid(CreateLowPriorityTask(Some(description), userId, now), later)
        <==> later < now + 7 * TicksPerDay
  {
  }
}
