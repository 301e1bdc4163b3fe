/** Fixed-width integers of the native side, and an optional value. */
module Machine {
  const TWO_16: int := 0x1_0000
  const TWO_31: int := 0x8000_0000
  const TWO_32: int := 0x1_0000_0000
  const TWO_64: int := 0x1_0000_0000_0000_0000

  type Byte = x: int | 0 <= x < 0x100
  type U16 = x: int | 0 <= x < 0x1_0000
  type U32 = x: int | 0 <= x < 0x1_0000_0000
  type U64 = x: int | 0 <= x < 0x1_0000_0000_0000_0000

  /** `(obj_id_t)-1`: the answer for an address nothing is known about. */
  const UNKNOWN: U32 := 0xFFFF_FFFF

  datatype Option<+T> = None | Some(value: T)
}
