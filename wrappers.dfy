/** Option, for the source's `Option` returns. */
module Wrappers {

  datatype Option<T> = None | Some(value: T)
}
