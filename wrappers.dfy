/** Optional values, used for lookups that may miss and for error results. */
module Wrappers {

  datatype Option<+T> = None | Some(value: T)

  /** The bytes of a file or of an HTTP body. */
  newtype byte = x: int | 0 <= x < 256
}
