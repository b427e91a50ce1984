/** Optional values: the model's stand-in for `undefined`, `null` and failed parses. */
module Wrappers {

  datatype Option<+T> = None | Some(value: T)
}
