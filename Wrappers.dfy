/** Result types shared by the modules of the model.
    A Java method that reports a problem by throwing an exception returns
    a `Result` or an `Outcome` here. */
module Wrappers {

  datatype Option<+T> = None | Some(value: T)

  datatype Result<+R, +E> = Success(value: R) | Failure(error: E)

  datatype Outcome<+E> = Pass | Fail(error: E)
}
