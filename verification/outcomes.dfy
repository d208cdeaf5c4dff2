/** Success/failure carriers for the operations whose .NET counterparts throw or return null. */
module Outcomes {

  /** A value that may be absent (a null reference, a failed TryParse, a missing header). */
  datatype Option<+T> = None | Some(value: T) {

    /** The carried value, or `default` when absent. */
    function GetOr(default: T): T {
      match this
      case Some(v) => v
      case None => default
    }
  }

  /** The outcome of an operation that either yields a value or fails with an error. */
  datatype Result<+T, +E> = Success(value: T) | Failure(error: E)

  /** The outcome of an assertion: it passes, or fails with an error. */
  datatype Outcome<+E> = Pass | Fail(error: E)
}
