/** Optional values. */
module Wrappers {

  /** A nullable field; `None` stands for a missing value (NaN). */
  datatype Option<T> = None | Some(value: T)
}
