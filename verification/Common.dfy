/** What several parts share. */
module Common {
  newtype Byte = x: int | 0 <= x < 256
  type Bytes = seq<Byte>

  /** Where a uint64_t wraps around. */
  const LIMIT64: nat := 0x1_0000_0000_0000_0000

  datatype Option<+T> = None | Some(value: T)
}
