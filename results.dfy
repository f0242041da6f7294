/** Failure-carrying wrappers used across the model. */
module Results {

  /** An optional value: `None` stands for an absent or unusable value. */
  datatype Option<+T> = None | Some(value: T)

  /** The outcome of an operation that may fail with an error of type `E`. */
  datatype Result<+T, +E> = Success(value: T) | Failure(error: E)
}
