/** Option and Result values shared by every module of the model. */
module Wrappers {

  datatype Option<+T> = None | Some(value: T)

  /** A computation that either produced a value or raised an error, named by its message. */
  datatype Result<+T> = Ok(value: T) | Err(error: string)
}
