/** Failure-carrying datatypes shared by the other modules: `Option` stands
    for the source's `null`/`undefined` values and `Result` for an operation
    that either produces a value or throws. */
module Wrappers {

  datatype Option<+T> = None | Some(value: T)

  datatype Result<+T, +E> = Ok(value: T) | Err(error: E)
}
