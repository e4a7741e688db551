/** Option and Result values standing in for Python's `None` returns and raised exceptions. */
module Wrappers {

  /** `None` is a Python function returning `None`; `Some(v)` is a real value. */
  datatype Option<+T> = None | Some(value: T)

  /** `Failure(e)` stands for an exception raised with error `e`. */
  datatype Result<+T, +E> = Success(value: T) | Failure(error: E)
}
