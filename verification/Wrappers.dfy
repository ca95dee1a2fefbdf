// The two result shapes used throughout the model.
module Wrappers {

  datatype Option<+T> = None | Some(value: T)

  // A call that returns, or throws with a reason.
  datatype Result<+T, +E> = Ok(value: T) | Err(error: E)
}
