/** Optional values and results with an error message, used for the
    JavaScript `undefined` and for the exceptions the action throws. */
module Wrappers {

  datatype Option<+T> = None | Some(value: T)

  datatype Result<+T> = Ok(value: T) | Err(error: string)
}
