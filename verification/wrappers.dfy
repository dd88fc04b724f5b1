/** Optional values: an unbound reference, an omitted argument, a failed lookup. */
module Wrappers {

  /** `None` stands for JavaScript's `null` / `undefined`; `Some(v)` for a present value. */
  datatype Option<+T> = None | Some(value: T)
}
