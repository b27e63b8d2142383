/** The Option type used wherever the source can fail or find nothing. */
module Wrappers {
  datatype Option<+T> = None | Some(value: T)
}
