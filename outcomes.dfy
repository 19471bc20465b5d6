/** Failure-carrying results: the model's stand-in for the exceptions the sorter throws. */
module Outcomes {

  datatype Option<+T> = None | Some(value: T)

  datatype Result<+T, +E> = Ok(value: T) | Err(error: E)
}
