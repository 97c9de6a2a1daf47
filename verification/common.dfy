/** Basic value types shared by every part of the model. */
module Common {

  /** One byte of host memory. */
  newtype byte = x: int | 0 <= x < 0x100

  /** A Rust `u32`, as used for the host's pending extended-input code points. */
  newtype u32 = x: int | 0 <= x < 0x1_0000_0000

  datatype Option<+T> = None | Some(value: T)

  /** A 256-entry byte-to-byte lookup table (simplify, uppercase, lowercase, capitalize). */
  type Table = t: seq<byte> | |t| == 256 witness seq(256, i => 0)
}
