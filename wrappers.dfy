/** Optional values and error-or-value results, as the service uses
    nullable columns and thrown HTTP exceptions. */
module Wrappers {

  datatype Option<+T> = None | Some(value: T)

  datatype Result<+T, +E> = Ok(value: T) | Err(error: E)
}
