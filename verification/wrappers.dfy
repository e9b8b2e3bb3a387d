/** The two wrapper types of the model: `Option` for a frame grab or a
    camera read that may yield nothing, and `Result` for a set-up step
    that either succeeds with a value or fails with an error. */
module Wrappers {
  datatype Option<+T> = None | Some(value: T)
  datatype Result<+T, +E> = Success(value: T) | Failure(error: E)
}
