/** The "value or no value" wrapper that stands for java.util.Optional. */
module Wrappers {
  datatype Option<+T> = None | Some(value: T)
}
