/**
 Fixed-width integer types of the firmware library and the small helpers
 every other module shares.
 */
module Types {

  /** uint8_t */
  type byte = x: int | 0 <= x < 0x100

  /** uint16_t */
  type uint16 = x: int | 0 <= x < 0x1_0000

  /** A value that may be absent: a C "bool f(T * out)" pair seen as one result. */
  datatype Option<+T> = None | Some(value: T)

  function Min(a: int, b: int): int
  {
    if a <= b then a else b
  }
}
