/** Optional values, used wherever the client swallows an exception. */
module Wrappers {

  /** `None` stands for "the operation threw"; `Some(v)` for a value that was produced. */
  datatype Option<+T> = None | Some(value: T)
}
