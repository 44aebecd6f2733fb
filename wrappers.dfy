/** The optional value that the hypervisor's lookups return (Rust's `Option`). */
module Wrappers {

  datatype Option<+T> = None | Some(value: T)
}
