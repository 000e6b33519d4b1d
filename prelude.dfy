/** The two Rust standard types every other module uses. */
module Prelude {

  /** An octet, Rust's `u8`. */
  type Byte = b: int | 0 <= b < 0x100

  /** Rust's `Option`. */
  datatype Option<T> = None | Some(value: T)
}
