/** Optional values: Python's `None` / JavaScript's `undefined` beside a present value. */
module Wrappers {

  datatype Option<+T> = None | Some(value: T)
}
