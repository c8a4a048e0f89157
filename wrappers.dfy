/** Option and Result stand for Python's None and for a raised exception's message. */
module Wrappers {

  datatype Option<+T> = None | Some(value: T)

  /** Err carries str(e) of the exception the Python code would raise. */
  datatype Result<+T> = Ok(value: T) | Err(error: string)
}
