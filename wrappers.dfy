/** The optional-value type used for results that the C code signals with a null pointer or an error return. */
module Wrappers {
  datatype Option<T> = None | Some(value: T)
}
