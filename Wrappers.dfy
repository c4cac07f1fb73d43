/** The optional value used for the outcomes the source leaves undefined. */
module Wrappers {
  datatype Option<T> = None | Some(value: T)
}
