/** Results shared by the modules: a value that may be absent, and a value
    or the error that replaced it. */
module Wrappers {

  datatype Option<T> = None | Some(value: T)

  datatype Result<T, E> = Ok(value: T) | Err(error: E)
}
