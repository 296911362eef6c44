/** Option type used where the program looks a name up and may not find it. */
module Wrappers {
  datatype Option<T> = None | Some(value: T)
}
