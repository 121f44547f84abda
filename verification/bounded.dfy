/** Fixed-width unsigned integers of the client API, written out as bounded
    newtypes because Dafny's integers are unbounded. `usize` is assumed
    to be 64 bits wide. */
module Bounded {

  newtype byte = x: int | 0 <= x < 0x100

  newtype u16 = x: int | 0 <= x < 0x1_0000

  newtype u32 = x: int | 0 <= x < 0x1_0000_0000

  const USIZE_MAX: int := 0xFFFF_FFFF_FFFF_FFFF

  newtype usize = x: int | 0 <= x <= USIZE_MAX
}

module Wrappers {

  /** The usual Some/None datatype, standing for Rust's `Option`. */
  datatype Option<+T> = None | Some(value: T)
}
