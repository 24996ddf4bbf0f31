/** The task validator: a non-empty description and a due date strictly in the future. */
module Validation {
  import opened Wrappers
  import opened Domain

  /** `string.IsNullOrEmpty`. */
  predicate IsNullOrEmpty(s: Option<string>) {
    s.None? || |s.value| == 0
  }

  /** The validator registered for every service and store: description present, due date after `now`. */
  predicate IsValid(t: Tareas, now: Instant) {
    !IsNullOrEmpty(t.description) && t.dueDate > now
  }

  /** Validity spelled out field by field: both directions. */
  lemma ValidIff(t: Tareas, now: Instant)
    ensures IsValid(t, now) <==>
      (t.description.Some? && t.description.value != "" && now < t.dueDate)
  {
  }

  /** The date comparison is strict: a task due exactly now is already invalid. */
  lemma DueNowIsInvalid(t: Tareas)
    ensures !IsValid(t, t.dueDate)
  {
  }

  /** A null or empty description is invalid whatever the due date. */
  lemma MissingDescriptionIsInvalid(t: Tareas, now: Instant)
    requires t.description == None || t.description == Some("")
    ensures !IsValid(t, now)
  {
  }

  /** Only emptiness is checked: a description made only of blanks passes. */
  lemma BlankDescriptionIsValid(t: Tareas, now: Instant)
    requires t.description.Some? && |t.description.value| > 0
    requires forall c | c in t.description.value :: c in {' ', '\t', '\n', '\r'}
    requires t.dueDate > now
    ensures IsValid(t, now)
  {
  }

  /** Validity only decays with time: valid at `now` means valid at every earlier instant. */
  lemma ValidAntiMonotone(t: Tareas, now: Instant, earlier: Instant)
    requires earlier <= now
    ensures IsValid(t, now) ==> IsValid(t, earlier)
  {
  }
}
