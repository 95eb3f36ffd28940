/** Optional values and results with an error case, as used throughout the model. */
module Wrappers {

  /** A cell or field that may be absent (pandas' NaN / None). */
  datatype Option<+T> = None | Some(value: T)

  /** The outcome of an operation that can raise. */
  datatype Result<+R, +E> = Success(value: R) | Failure(error: E)
}
