/** The optional value used across the model (Rust's `Option`). */
module Wrappers {

  datatype Option<+T> = None | Some(value: T)

}
