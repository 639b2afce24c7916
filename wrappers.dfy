/** Option, as Rust's `Option`, and nothing else. */
module Wrappers {
  datatype Option<+T> = None | Some(value: T)
}
