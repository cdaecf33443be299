/** Optional values; each optional parameter's own comment says which JavaScript values it maps to `None`. */
module Wrappers {
  datatype Option<T> = None | Some(value: T)
}
