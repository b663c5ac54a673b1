/** Small failure-carrying datatypes shared by the model.
    `Optional` plays the part of boost::optional (an empty or filled slot),
    `Result` a value or the exception that would have been thrown instead,
    `Outcome` success or that exception, for operations that return nothing. */
module Wrappers {

  datatype Optional<+T> = None | Some(value: T)

  datatype Result<+T, +E> = Ok(value: T) | Err(error: E)

  datatype Outcome<+E> = Pass | Fail(error: E)
}
