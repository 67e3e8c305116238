/** Rust's fixed-width unsigned integers as they are used by the host program:
    `cl_uint` (u32) and `usize` (64 bits on the targets the program runs on).
    Arithmetic is on unbounded integers; every place where Rust would wrap,
    truncate or panic is written out explicitly.
 */
module Machine {

  const U32_LIMIT: int := 0x1_0000_0000
  const U32_MAX: int := 0xFFFF_FFFF
  const USIZE_LIMIT: int := 0x1_0000_0000_0000_0000
  const I32_LIMIT: int := 0x8000_0000

  /** `cl_uint` / `u32` */
  type u32 = x: int | 0 <= x < U32_LIMIT

  /** `usize` on a 64-bit target */
  type usize = x: int | 0 <= x < USIZE_LIMIT

  /** `size_of::<cl_uint>()` */
  const UINT_BYTES: usize := 4

  /** The run-time panics the host arithmetic can raise (debug build). */
  datatype Panic = AddOverflow | MulOverflow | RemainderByZero

  /** The outcome of an operation that either yields a value or panics. */
  datatype Result<T> = Ok(value: T) | Err(panic: Panic)

  /** `x.wrapping_mul(y)` on u32: the product reduced modulo 2^32. */
  function WrappingMul32(x: u32, y: u32): (r: u32)
    ensures x * y < U32_LIMIT ==> r == x * y
  {
    ProductIsNat(x, y);
    (x * y) % U32_LIMIT
  }

  /** `x & 65535` on u32: the low 16 bits, i.e. the value below 2^16 that
      differs from `x` by a multiple of 2^16. */
  function Low16(x: u32): (r: u32)
    ensures r < 0x1_0000
    ensures (x - r) % 0x1_0000 == 0
  {
    x % 0x1_0000
  }

  /** `x >> 16` on u32: the high 16 bits, i.e. the number of whole 2^16
      blocks in `x`. */
  function High16(x: u32): (r: u32)
    ensures r < 0x1_0000
    ensures 0x1_0000 * r <= x < 0x1_0000 * (r + 1)
  {
    x / 0x1_0000
  }

  /** The two halves together give back the word. */
  lemma SplitHalves(x: u32)
    ensures x == 0x1_0000 * High16(x) + Low16(x)
  {
  }

  /** On a 32-bit word the mask `& 0xFFFF` is the remainder modulo 2^16. */
  lemma MaskIsRemainder(x: bv32)
    ensures x & 0xFFFF == x % 0x1_0000
  {
  }

  /** On a 32-bit word the shift `>> 16` is the quotient by 2^16. */
  lemma ShiftIsQuotient(x: bv32)
    ensures x >> 16 == x / 0x1_0000
  {
  }

  /** `x + y` on u32 in a debug build: panics instead of wrapping. */
  function CheckedAdd32(x: u32, y: u32): (r: Result<u32>)
    ensures r.Ok? ==> r.value == x + y
    ensures r.Err? ==> r.panic == AddOverflow && x + y > U32_MAX
  {
    if x + y < U32_LIMIT then Ok(x + y) else Err(AddOverflow)
  }

  /** `x + y` on usize in a debug build. */
  function CheckedAddUsize(x: usize, y: usize): (r: Result<usize>)
    ensures r.Ok? ==> r.value == x + y
    ensures r.Err? ==> r.panic == AddOverflow && x + y >= USIZE_LIMIT
  {
    if x + y < USIZE_LIMIT then Ok(x + y) else Err(AddOverflow)
  }

  /** `x * y` on usize in a debug build. */
  function CheckedMulUsize(x: usize, y: usize): (r: Result<usize>)
    ensures r.Ok? ==> r.value == x * y
    ensures r.Err? ==> r.panic == MulOverflow && x * y >= USIZE_LIMIT
  {
    ProductIsNat(x, y);
    if x * y < USIZE_LIMIT then Ok(x * y) else Err(MulOverflow)
  }

  /** `x % y` on usize: panics when the divisor is zero. */
  function CheckedRem(x: usize, y: usize): (r: Result<usize>)
    ensures r.Err? <==> y == 0
    ensures r.Err? ==> r.panic == RemainderByZero
    ensures r.Ok? ==> r.value < y
  {
    if y == 0 then Err(RemainderByZero) else Ok(x % y)
  }

  /** The product of two naturals is a natural. */
  lemma ProductIsNat(x: nat, y: nat)
    ensures x * y >= 0
  {
  }

  /** `x as cl_int`: keeps the low 32 bits and reads them as two's complement. */
  function AsI32(x: usize): (r: int)
    ensures -I32_LIMIT <= r < I32_LIMIT
    ensures x < I32_LIMIT ==> r == x
  {
    var low := x % U32_LIMIT;
    if low < I32_LIMIT then low else low - U32_LIMIT
  }
}
