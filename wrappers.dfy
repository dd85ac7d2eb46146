/** Rust's `Option`, as the tables use it for the selected row and for lookups. */
module Wrappers {

  datatype Option<+T> = None | Some(value: T)
}
