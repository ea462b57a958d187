/** The optional value the matcher and the rule list return (Rust's Option). */
module Wrappers {

  datatype Option<+T> = None | Some(value: T)
}

/** The symbols grids and rules are made of: Rust's `u8`. */
module Bytes {

  newtype byte = b: int | 0 <= b < 256
}
