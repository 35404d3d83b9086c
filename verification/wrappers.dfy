/** Option and Result, the two failure-carrying shapes used throughout the model:
    `Option` stands for the source's nullable references and nullable ints,
    `Result` for an operation that either returns a value or throws. */
module Wrappers {

  datatype Option<+T> = None | Some(value: T)

  datatype Result<+R, +E> = Success(value: R) | Failure(error: E)
}
