/** Optional values and results with an error message, used where the source
    returns null, throws, or reports an error reply. */
module Wrappers {

  datatype Option<+T> = None | Some(value: T)

  datatype Result<+T> = Ok(value: T) | Err(message: string)
}
