// Optional values: the null references, absent entries and aborted reads of
// the modelled code.
module Wrappers {
  datatype Option<T> = None | Some(value: T)
}
