// Shared value type for "maybe missing" results.
module Wrappers {
  datatype Option<+T> = None | Some(value: T)
}
