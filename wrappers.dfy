/** Option and Result, for lookups that may miss and operations that may throw. */
module Wrappers {

  datatype Option<+T> = None | Some(value: T)

  /** `Failure` stands for an exception thrown by the modelled operation. */
  datatype Result<+R, +E> = Success(value: R) | Failure(error: E)
}
