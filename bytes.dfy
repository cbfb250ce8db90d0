/** Rust's `u8`. */
module Bytes {
  newtype byte = b: int | 0 <= b < 0x100
}
