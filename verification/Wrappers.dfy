/** An optional value: None stands for an absent result, or for a call on which the source panics. */
module Wrappers {
  datatype Option<T> = None | Some(value: T)
}
