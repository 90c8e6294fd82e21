/** Optional value written to `Get`'s output parameter. */
module Wrappers {

  /** A value that may be absent; used for the output parameter of `Get`,
      which the cache leaves untouched when the key is missing. */
  datatype Option<+T> = None | Some(value: T)
}
