/** Optional values shared by the other modules. */
module Wrappers {

  /** A value that may be absent: a detector result without boxes, or a parse that fails. */
  datatype Option<+T> = None | Some(value: T)
}
