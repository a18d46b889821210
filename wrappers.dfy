/** Success/failure values shared by the modules of the model. */
module Wrappers {

  datatype Option<+T> = None | Some(value: T)

  /** The outcome of an operation of the host scripts that may raise. */
  datatype Result<+T, +E> = Ok(value: T) | Err(error: E)
}
