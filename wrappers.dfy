/** Failure-carrying datatypes shared by every module of the model:
    `Option` stands for Go's nil-able values and `error` results,
    `Result` for a value-or-error pair. */
module Wrappers {

  datatype Option<+T> = None | Some(value: T)

  datatype Result<+R, +E> = Success(value: R) | Failure(error: E)
}
