/** Fixed-width integer types of the C++ drivers. */
module IntTypes {

  const INT32_MAX: int := 0x7fff_ffff
  const INT64_MAX: int := 0x7fff_ffff_ffff_ffff

  /** C++ `int` on the targeted platforms. */
  newtype int32 = x: int | -0x8000_0000 <= x <= INT32_MAX

  /** C++ `int64_t`. */
  newtype int64 = x: int | -0x8000_0000_0000_0000 <= x <= INT64_MAX

  /** The value an `int` receives when a `size_t` is stored into it: the low 32 bits,
      read as a two's-complement number. */
  function NarrowToInt32(x: nat): (r: int32)
    ensures (r as int - x) % 0x1_0000_0000 == 0
    ensures x <= INT32_MAX ==> r as int == x
  {
    var low := x % 0x1_0000_0000;
    if low <= INT32_MAX then low as int32 else (low - 0x1_0000_0000) as int32
  }
}
