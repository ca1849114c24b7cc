/** The stock optional value, used wherever the runtime returns Rust's `Option`. */
module Wrappers {
  datatype Option<+T> = None | Some(value: T)
}
