/** Optional values and results: Java's `null` and Java's exceptions. */
module Options {

  /** A value that may be absent (`null` in Java). */
  datatype Option<+T> = None | Some(value: T)

  /** A value, or the error a Java method would have thrown instead. */
  datatype Result<+T, +E> = Success(value: T) | Failure(error: E)

  /** Completion of a `void` Java method: it returned, or it threw `error`. */
  datatype Outcome<+E> = Pass | Fail(error: E)
}
