/** Option and Result, the two wrappers the model uses for JavaScript's
    `undefined` and for a settled promise (resolved value or rejection). */
module Wrappers {

  datatype Option<+T> = None | Some(value: T)

  datatype Result<+R, +E> = Success(value: R) | Failure(error: E)
}
