/** Option and Result: C#'s null and thrown exceptions, as values. */
module Results {

  /** A value that may be absent; `None` stands for a C# null reference. */
  datatype Option<+T> = None | Some(value: T)

  /** The outcome of an operation that either returns a value or throws. */
  datatype Result<+R, +E> = Success(value: R) | Failure(error: E)
}
