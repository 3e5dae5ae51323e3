/** The two failure-carrying results the driver uses: an optional value and a value-or-errno. */
module Wrappers {

  datatype Option<+T> = None | Some(value: T)

  datatype Result<+T> = Ok(value: T) | Err(errno: int)
}
