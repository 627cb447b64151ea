/** Option and Result: a nullable value and an operation that either returns or throws. */
module Wrappers {

  /** `None` stands for a C# `null`. */
  datatype Option<+T> = None | Some(value: T)

  /** `Err` stands for an exception thrown instead of a return. */
  datatype Result<+T, +E> = Ok(value: T) | Err(error: E)
}
