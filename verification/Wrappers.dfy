/** The optional value used throughout. */
module Wrappers {
  datatype Option<+T> = None | Some(value: T)
}

/** Results of operations whose errors are only messages. */
module Fallible {
  datatype Result<+T> = Ok(value: T) | Err
}
