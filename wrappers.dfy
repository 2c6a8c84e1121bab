/** Option and Result: the model's stand-ins for Python's `None` returns and raised exceptions. */
module Wrappers {

  datatype Option<+T> = None | Some(value: T)

  /** `Failure(e)` stands for a raised exception of kind `e`. */
  datatype Result<+T, +E> = Success(value: T) | Failure(error: E)
}
