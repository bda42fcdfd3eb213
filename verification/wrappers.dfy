/** Option and Result, the two failure-carrying types the model uses for the
    source's `Option<_>` locals and `Result<_, AppError>` returns. */
module Wrappers {

  datatype Option<+T> = None | Some(value: T)

  datatype Result<+T, +E> = Success(value: T) | Failure(error: E)
}
