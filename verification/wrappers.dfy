/** Optional values (C# `null`) and results of operations that may throw. */
module Wrappers {

  /** A value that may be absent; `None` stands for a C# `null` reference. */
  datatype Option<+T> = None | Some(value: T) {

    /** The value, or `default` when absent. */
    function GetOr(default: T): T {
      match this
      case Some(v) => v
      case None => default
    }
  }

  /** The outcome of a call that either returns a value or throws an exception with a message. */
  datatype Result<+T> = Ok(value: T) | Throws(message: string)
}
