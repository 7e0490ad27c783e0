/** Optional values: the model's reading of Kotlin's nullable types (`T?`). */
module Wrappers {

  /** `None` stands for Kotlin's `null`, `Some(v)` for a present value. */
  datatype Option<+T> = None | Some(value: T)
}
