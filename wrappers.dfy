/** The two wrappers the model uses in place of JavaScript's `undefined`/`null`
    results and of the exceptions that stop a run. */
module Wrappers {

  datatype Option<+T> = None | Some(value: T)

  datatype Result<+T, +E> = Success(value: T) | Failure(error: E)
}
