/** Optional values, for fields the server may leave unset. */
module Wrappers {

  /** `None` stands for Python's `None` (or an absent dictionary key). */
  datatype Option<+T> = None | Some(value: T)
}
