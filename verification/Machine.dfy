/** The machine integers of the 64-bit target. */
module Machine {
  type byte = x: int | 0 <= x < 256

  type Bytes = seq<byte>

  type u16 = x: int | 0 <= x < 0x1_0000

  const U32_MAX: nat := 0xFFFF_FFFF

  const USIZE_MAX: nat := 0xFFFF_FFFF_FFFF_FFFF
}
