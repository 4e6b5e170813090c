/** Small wrapper datatypes for values that may be missing and steps that may fail. */
module Results {

  /** A value that may be absent: a Java `null`, or a call that threw. */
  datatype Option<+T> = None | Some(value: T)

  /** The outcome of a step that either yields a value or fails with an error. */
  datatype Result<+T, +E> = Success(value: T) | Failure(error: E)
}
