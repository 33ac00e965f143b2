/** Absent values and failures: JavaScript `null` and thrown errors. */
module Wrappers {

  /** `None` stands for JavaScript `null`, `Some(v)` for a present object. */
  datatype Option<+T> = None | Some(value: T)

  /** The outcome of an async step that either resolves or rejects. */
  datatype Result<+R, +E> = Success(value: R) | Failure(error: E)
}
