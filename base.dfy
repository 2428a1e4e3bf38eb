/** Rust's fixed-width unsigned integers, the wrapping arithmetic the core uses
    on them, and the `Result` type that the core's fallible operations return.

    The model follows a release build throughout: `+=`, `-=` and `+` on these
    types wrap around (a debug build would panic instead). */
module Base {

  const U8_LIMIT: int := 0x100
  const U32_LIMIT: int := 0x1_0000_0000

  type u8 = x: int | 0 <= x < 0x100
  type u32 = x: int | 0 <= x < 0x1_0000_0000

  datatype Result<+T, +E> = Ok(value: T) | Err(error: E)

  datatype Option<+T> = None | Some(value: T)

  /** `n as u32` for a `usize` n: keeps the low 32 bits. */
  function AsU32(n: nat): (r: u32)
    ensures n < U32_LIMIT ==> r == n
    ensures r <= n
  {
    n % U32_LIMIT
  }

  /** `u8::wrapping_add`. */
  function WrappingAdd8(a: u8, b: u8): (r: u8)
    ensures a + b < U8_LIMIT ==> r == a + b
    ensures a + b >= U8_LIMIT ==> r == a + b - U8_LIMIT
  {
    (a + b) % U8_LIMIT
  }

  /** `u8::wrapping_sub`. */
  function WrappingSub8(a: u8, b: u8): (r: u8)
    ensures b <= a ==> r == a - b
    ensures a < b ==> r == a - b + U8_LIMIT
  {
    (a - b) % U8_LIMIT
  }

  /** `u32::wrapping_add`. */
  function WrappingAdd32(a: u32, b: u32): (r: u32)
    ensures a + b < U32_LIMIT ==> r == a + b
    ensures a + b >= U32_LIMIT ==> r == a + b - U32_LIMIT
  {
    (a + b) % U32_LIMIT
  }

  /** `u32::wrapping_sub`. */
  function WrappingSub32(a: u32, b: u32): (r: u32)
    ensures b <= a ==> r == a - b
    ensures a < b ==> r == a - b + U32_LIMIT
  {
    (a - b) % U32_LIMIT
  }

  /** Counting in u32 with wrap-around agrees with counting in `nat` and
      truncating at the end. */
  lemma AsU32Succ(n: nat)
    ensures AsU32(n + 1) == WrappingAdd32(AsU32(n), 1)
  {
  }
}
