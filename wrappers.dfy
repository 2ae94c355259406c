/** The optional value and the success-or-error value that the model returns
    where the Python code returns `None` or raises. */
module Wrappers {

  datatype Option<T> = None | Some(value: T)

  datatype Result<T, E> = Ok(value: T) | Err(error: E)
}
