/** Optional values and success/failure results, standing in for
    java.util.Optional and for the exceptions the service raises. */
module Results {

  /** An optional value: `None` is the empty Optional. */
  datatype Option<+T> = None | Some(value: T)

  /** The outcome of an operation that either yields a value or fails. */
  datatype Result<+T, +E> = Success(value: T) | Failure(error: E)

  /** The outcome of a check that yields nothing when it passes. */
  datatype Outcome<+E> = Pass | Fail(error: E)
}
