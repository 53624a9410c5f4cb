// Values that may be missing, and results of operations that may fail.
module Wrappers {
  datatype Option<+T> = None | Some(value: T)

  // An exception or error return of the source is Err.
  datatype Result<+T> = Ok(value: T) | Err
}
