/** Failure-carrying datatypes shared by the model: `Option` for JavaScript values that
    may be absent (`undefined`, `NaN`), `Result` for operations that can be refused. */
module Wrappers {

  datatype Option<+T> = None | Some(value: T)

  datatype Result<+R, +E> = Success(value: R) | Failure(error: E)
}
