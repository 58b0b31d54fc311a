/** Failure-carrying values shared by the model: an optional value and the
    outcome of an operation that either succeeds or throws `PhilDbException`
    with a message. */
module Results {

  /** A value that may be absent (PHP's `false`/`null` placeholders). */
  datatype Option<+T> = None | Some(value: T) {

    /** The value held, or `default` when absent. */
    function GetOr(default: T): T {
      match this
      case Some(v) => v
      case None => default
    }
  }

  /** Either the value an operation returns or the message of the exception it throws. */
  datatype Result<+T> = Success(value: T) | Failure(error: string)

  /** The state an operation leaves behind together with what it returned or threw. */
  datatype Step<+S, +T> = Step(state: S, result: Result<T>)
}
