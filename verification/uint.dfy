/** The fixed-width unsigned integers of the Rust code (`u8`, `u16`, `u64`),
    as subranges of the mathematical integers. */
module Uint {

  newtype u8 = x: int | 0 <= x < 0x100

  newtype u16 = x: int | 0 <= x < 0x1_0000

  newtype u64 = x: int | 0 <= x < 0x1_0000_0000_0000_0000
}
