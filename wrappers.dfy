/** Option and Result, used where the Python code returns None or raises. */
module Wrappers {

  datatype Option<+T> = None | Some(value: T)

  /** Ok carries a value; Err carries the text of the exception the source raises. */
  datatype Result<+T> = Ok(value: T) | Err(error: string)
}
