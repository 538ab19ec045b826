/** Optional values: JavaScript's `null` for a value that may be missing. */
module Wrappers {

  /** `None` stands for `null`; `Some(v)` for a present value. */
  datatype Option<+T> = None | Some(value: T)
}
