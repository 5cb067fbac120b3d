/** The optional value used for the interval handle, which is either absent (JavaScript `null`) or an id. */
module Wrappers {

  datatype Option<+T> = None | Some(value: T)
}
