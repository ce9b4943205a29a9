/** Machine words of the source, as integers with their ranges written out. */
module Words {
  type byte = x: int | 0 <= x < 0x100
  type u16 = x: int | 0 <= x < 0x1_0000
  type u32 = x: int | 0 <= x < 0x1_0000_0000
  type u64 = x: int | 0 <= x < 0x1_0000_0000_0000_0000
  type i64 = x: int | -0x8000_0000_0000_0000 <= x < 0x8000_0000_0000_0000

  const MAX_U32: int := 0xFFFF_FFFF
  const MAX_I64: int := 0x7FFF_FFFF_FFFF_FFFF

  /** A value stored against an address: opaque bytes. */
  type Value = seq<byte>

  datatype Option<+T> = None | Some(value: T)
}
