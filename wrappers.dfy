/** An optional value: the PHP `null` / `false` returns of the runtime's functions. */
module Wrappers {
  datatype Option<T> = None | Some(value: T)
}
