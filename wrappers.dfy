/** The optional result the resolver's probes return (Rust's Option). */
module Wrappers {

  datatype Option<+T> = None | Some(value: T)
}
