/** Optional values and results with an error, for the source's nulls and exceptions. */
module Results {

  datatype Option<+T> = None | Some(value: T) {
    /** The value, or `default` when there is none. */
    function GetOr(default: T): T {
      match this
      case Some(v) => v
      case None => default
    }
  }

  /** Either a value or the exception the source would have thrown. */
  datatype Result<+T, +E> = Success(value: T) | Failure(error: E)

  /** A void call that either returned normally or threw. */
  datatype Outcome<+E> = Pass | Fail(error: E)

  /** The Java exceptions the modelled operations throw. */
  datatype Error =
    | IllegalArgument
    | IndexOutOfBounds
    | NoSuchElement
}
