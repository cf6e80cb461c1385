/** Option and Result: the two outcome shapes the extractor needs. */
module Wrappers {

  datatype Option<+T> = None | Some(value: T)

  /** Success or one of the extractor's error kinds. */
  datatype Result<+T, +E> = Success(value: T) | Failure(error: E)
}
