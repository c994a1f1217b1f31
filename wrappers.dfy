/** Option and Result, used for the pandas missing values and for the one error the normaliser can raise. */
module Wrappers {

  /** A field that may be missing (None / NaN in a DataFrame cell). */
  datatype Option<+T> = None | Some(value: T)

  /** The outcome of an operation that can raise. */
  datatype Result<+R, +E> = Success(value: R) | Failure(error: E)
}
