/** The optional result every lookup of the map returns (Rust's `Option`). */
module Wrappers {

  datatype Option<+T> = None | Some(value: T)
}
