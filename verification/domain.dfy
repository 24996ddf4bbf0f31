/** The task entity and the clock it is measured against. */
module Domain {
  import opened Wrappers

  /** A point in time, counted in 100-nanosecond ticks like .NET's `DateTime`. */
  type Instant = int

  /** Ticks in one day: 24 * 60 * 60 * 10^7. */
  const TicksPerDay: int := 864_000_000_000

  /** `DateTime.AddDays` for a whole number of days. */
  function AddDays(t: Instant, days: int): Instant {
    t + days * TicksPerDay
  }

  /**
   * A task (`Tareas`). `id` is the database identity (0 until stored);
   * `description` and `status` are nullable strings, since the code
   * inspects them for null; `additionalData` is only ever copied.
   */
  datatype Tareas = Tareas(
    id: int,
    description: Option<string>,
    dueDate: Instant,
    status: Option<string>,
    additionalData: Option<string>,
    userId: int)

  /** A change notification or broadcast emitted by a store or service. */
  datatype Effect =
    | Notified(task: Tareas)       // the change-notifier delegate was called with this task
    | Broadcast(message: string)   // a hub message was sent to all clients
}
