/** Failure-carrying return values standing in for Java's null returns and
    checked exceptions. */
module Results {

  /** A value that may be absent (Java's `null`). */
  datatype Option<+T> = None | Some(value: T) {

    /** The carried value, or `default` when absent. */
    function GetOr(default: T): T {
      match this
      case Some(v) => v
      case None => default
    }
  }

  /** Either a computed value or the exception the Java method throws instead. */
  datatype Result<+T, +E> = Success(value: T) | Failure(error: E)
}
