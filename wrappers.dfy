/** Optional values, used for nullable references and for parsers that may fail. */
module Wrappers {
  datatype Option<+T> = None | Some(value: T)
}
