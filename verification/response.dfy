/** The service-layer response envelope (`Response<T>`). */
module Responses {
  import opened Wrappers

  /**
   * `Successful` and `Message` as set by the service, `Errors` collecting
   * caught exception messages, and the two payload slots; an unset slot
   * (left at its C# default) is `None`.
   */
  datatype Response<T> = Response(
    successful: bool,
    message: Option<string>,
    errors: seq<string>,
    dataList: Option<seq<T>>,
    singleData: Option<T>)
  {
    /** `ThereIsError`: some exception was recorded. */
    predicate ThereIsError() {
      |errors| > 0
    }
  }

  /** A freshly constructed response: unsuccessful, no message, no errors, no data. */
  function Empty<T>(): Response<T> {
    Response(false, None, [], None, None)
  }

  /** An unsuccessful response carrying only `message`. */
  function Failed<T>(message: string): Response<T> {
    Empty<T>().(message := Some(message))
  }

  /** The response of a `catch` block: the exception's message appended to `Errors`. */
  function Caught<T>(message: string): Response<T> {
    Empty<T>().(errors := [message])
  }
}
