/** Option and Result, the failure-carrying values the model uses where the
    C# code returns a default or throws. */
module Wrappers {

  datatype Option<+T> = None | Some(value: T)

  datatype Result<+T, +E> = Ok(value: T) | Err(error: E)
}
