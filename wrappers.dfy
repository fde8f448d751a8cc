/** Optional values: the model's stand-in for null pointers and empty string views. */
module Wrappers {

  datatype Option<+T> = None | Some(value: T)
}
