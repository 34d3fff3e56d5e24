/** The two failure-carrying wrappers the extractor uses: Python's `None` and
    a raised exception become `Option.None` and `Result.Failure`. */
module Wrappers {

  datatype Option<+T> = None | Some(value: T)

  datatype Result<+R, +E> = Success(value: R) | Failure(error: E)
}
