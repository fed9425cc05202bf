/** Bytes, optional values, pages and the word sizes of the machine. */
module Machine {
  newtype byte = x: int | 0 <= x < 256

  datatype Option<T> = None | Some(value: T)

  const PAGE_SIZE: nat := 4096

  const TWO16: nat := 0x1_0000
  const TWO32: nat := 0x1_0000_0000
  const TWO64: nat := 0x1_0000_0000_0000_0000
  const TWO128: nat := 0x1_0000_0000_0000_0000_0000_0000_0000_0000
}
