/** The optional value used for absent storage entries, absent markers and
    absent result fields. */
module Wrappers {
  datatype Option<T> = None | Some(value: T)
}
