/** The Option and Result types shared by the parser and the numeric stages. */
module Wrappers {

  /** A value that may be missing; `None` stands for a conversion that raised `ValueError`. */
  datatype Option<+T> = None | Some(value: T)

  /** Either a computed value or the error that aborted the call. */
  datatype Result<+R, +E> = Success(value: R) | Failure(error: E)
}
