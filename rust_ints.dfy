/** The fixed-width integer types the game uses, with Rust's checked
    (debug-build) semantics: an arithmetic result outside the type's range
    is a panic, which the model reports as `None`. */
module RustInts {
  import opened Wrappers

  const I8_MIN: int := -128
  const I8_MAX: int := 127
  const USIZE_MAX: int := 0xFFFF_FFFF_FFFF_FFFF

  type i8 = x: int | I8_MIN <= x <= I8_MAX
  type usize = x: int | 0 <= x <= USIZE_MAX

  predicate IsI8(x: int) { I8_MIN <= x <= I8_MAX }

  /** `a - b` on `i8`: the difference, or a panic when it leaves the range. */
  function CheckedSubI8(a: i8, b: i8): (r: Option<i8>)
    ensures r.Some? <==> IsI8(a - b)
    ensures r.Some? ==> r.value + b == a
  {
    if IsI8(a - b) then Some(a - b) else None
  }
}
