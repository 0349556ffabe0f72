/** Python's `None`-or-value results, used by every search in the model. */
module Wrappers {
  datatype Option<+T> = None | Some(value: T)
}
