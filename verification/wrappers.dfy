/** Option and result datatypes shared by the other modules. */
module Wrappers {

  /** An optional value: `None` stands for an absent keyword argument. */
  datatype Option<+T> = None | Some(value: T)

  /** The outcome of an operation that can raise: a value, or the error it raises. */
  datatype Result<+R, +E> = Success(value: R) | Failure(error: E)
}
