/** Machine-level vocabulary shared by every module of the model: bytes,
    the ranges of the C fixed-width integer types, and an option type. */
module Machine {

  /** One byte of memory (C `uint8_t`). */
  newtype byte = x: int | 0 <= x < 256

  /** Number of values of `uint16_t`, `uint32_t` and `uint64_t`. */
  const U16: int := 0x1_0000
  const U32: int := 0x1_0000_0000
  const U64: int := 0x1_0000_0000_0000_0000

  /** An optional value (a C pointer that may be null, a case that may not happen). */
  datatype Option<T> = None | Some(value: T)
}
