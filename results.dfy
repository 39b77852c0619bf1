/** Failure-carrying values used in place of the exceptions the graph code throws. */
module Results {

  datatype Option<+T> = None | Some(value: T)

  /** A computed value, or the error that aborted the computation. */
  datatype Result<+T, +E> = Ok(value: T) | Err(error: E)

  /** Completion of an operation that returns nothing but may fail. */
  datatype Outcome<+E> = Pass | Fail(error: E)
}
