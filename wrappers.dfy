/** Option and Result, the failure-carrying values the model returns where
    the JavaScript code throws. */
module Wrappers {

  datatype Option<+T> = None | Some(value: T)

  datatype Result<+T, +E> = Ok(value: T) | Err(error: E)
}
