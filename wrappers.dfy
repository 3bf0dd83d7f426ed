/** The optional value used for a state's previous action, which is null before the first step. */
module Wrappers {
  datatype Option<T> = None | Some(value: T)
}
