/** The optional value used where Python has `None`. */
module Wrappers {
  datatype Option<T> = None | Some(value: T)
}
