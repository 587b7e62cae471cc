/** An optional value: None where the modelled Python code raises an
    exception or has nothing to return yet. */
module Wrappers {
  datatype Option<+T> = None | Some(value: T)
}
