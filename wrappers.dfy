/** An optional value: `None` where the modelled code has no answer. */
module Wrappers {
  datatype Option<+T> = None | Some(value: T)
}
