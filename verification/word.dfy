/** The machine integers the stream code is written in. Sizes and positions
    are `size_t` / `uint64_t` (unsigned, 64 bits), seek offsets are
    `std::streamoff` (signed, 64 bits) and the reference count is an `int`
    (signed, 32 bits). Dafny integers are unbounded, so every wrap-around
    the C++ arithmetic performs is written out with `ToUsize`. */
module Word {

  const WordModulus: int := 0x1_0000_0000_0000_0000
  const MinOff: int := -0x8000_0000_0000_0000
  const MaxOff: int := 0x7fff_ffff_ffff_ffff
  const MinInt32: int := -0x8000_0000
  const MaxInt32: int := 0x7fff_ffff

  /** `size_t` and `uint64_t` */
  type usize = x: int | 0 <= x < WordModulus

  /** `std::streamoff` */
  type streamoff = x: int | MinOff <= x <= MaxOff

  /** `int` */
  type int32 = x: int | MinInt32 <= x <= MaxInt32

  /** Conversion of an exact integer result to `size_t`: unsigned arithmetic
      and signed-to-unsigned conversion both reduce modulo 2^64. */
  function ToUsize(x: int): (r: usize)
    ensures 0 <= x < WordModulus ==> r == x
    ensures -WordModulus <= x < 0 ==> r == x + WordModulus
    ensures WordModulus <= x < 2 * WordModulus ==> r == x - WordModulus
  {
    x % WordModulus
  }
}
