/** Values the XIRR aggregate stores and returns (src/xirr.c:26-37). */
module XirrTypes {

  /** An eight-byte IEEE double (C `double`, SQL `float8`) as the aggregate sees it:
      the buffer only stores amounts and the final function only tests for NaN,
      so a finite value is kept as a real number and the rest by kind. */
  datatype Float8 = Finite(value: real) | Infinite(negative: bool) | NaN

  /** PostgreSQL's `TimestampTz`: a signed 64-bit count of microseconds. */
  newtype TimestampTz = t: int | -0x8000_0000_0000_0000 <= t < 0x8000_0000_0000_0000

  /** One accumulated cash flow: `XirrItem` of src/xirr.c:26-30. */
  datatype XirrItem = XirrItem(amount: Float8, time: TimestampTz)

  /** SQL NULL is `None`. */
  datatype Option<T> = None | Some(value: T)

  /** Capacity of a freshly created state (`initlen`, src/xirr.c:66). */
  const InitLen: int := 64
}
