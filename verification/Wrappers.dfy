/** Results that may be missing: null pointers and failed requests. */
module Wrappers {
  datatype Option<T> = None | Some(value: T)
}
