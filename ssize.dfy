/** The signed size type `r_ssize` of the dynamic-array code, its checked
    multiplication, and the small result types the model uses for the fatal
    overflow error. The definitions of `r_ssize`, its maximum and
    `r_ssize_mult` are not part of this model: it assumes a 64-bit
    `ptrdiff_t`, and defines `Mult` by the behaviour its callers rely on. */
module Ssize {

  /** Largest and smallest `r_ssize` values, assuming `r_ssize` is a 64-bit
      `ptrdiff_t` (the bounds `PTRDIFF_MAX` and `PTRDIFF_MIN`). */
  const SSIZE_MAX: int := 0x7FFF_FFFF_FFFF_FFFF
  const SSIZE_MIN: int := -0x8000_0000_0000_0000

  /** True when `x` is representable as an `r_ssize`. */
  predicate InRange(x: int) {
    SSIZE_MIN <= x <= SSIZE_MAX
  }

  /** The one error this core raises itself: a size product that does not
      fit in an `r_ssize`. */
  datatype Error = Overflow

  datatype Option<T> = None | Some(value: T)

  datatype Result<T> = Ok(value: T) | Err(error: Error)

  /** Outcome of an operation that returns nothing in the source. */
  datatype Outcome = Pass | Fail(error: Error)

  /** `r_ssize_mult`: the product of two `r_ssize` values, or `None` where
      the exact product leaves the assumed `r_ssize` range and the call
      aborts instead of wrapping around. */
  function Mult(x: int, y: int): (r: Option<int>)
    ensures r.Some? <==> InRange(x * y)
    ensures r.Some? ==> r.value == x * y
  {
    if InRange(x * y) then Some(x * y) else None
  }

  /** `r_ssize_min`. */
  function Min(x: int, y: int): (r: int)
    ensures r <= x && r <= y
    ensures r == x || r == y
  {
    if x <= y then x else y
  }
}
