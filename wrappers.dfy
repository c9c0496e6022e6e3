/** Optional values: an absent answer, an unparsable numeric entry, an unbound sex. */
module Wrappers {

  datatype Option<+T> = None | Some(value: T)
}
