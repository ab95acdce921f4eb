/** Optional values: the model's stand-in for Python's `None`-or-value results and for calls that may raise. */
module Wrappers {

  datatype Option<+T> = None | Some(value: T)
}
