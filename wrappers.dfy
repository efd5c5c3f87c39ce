/** Error-carrying results, standing for Go's (value, error) pairs, and optional values. */
module Wrappers {

  datatype Result<T, E> = Ok(value: T) | Err(error: E)

  datatype Option<T> = None | Some(value: T)
}
