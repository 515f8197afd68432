/**
 Machine words and the shared wrappers. A C `uint64_t` is a natural number below 2^64;
 a mask or a shift by a constant is written as division and remainder by a power of two.
 */
module Words {

  const TWO_64: nat := 0x1_0000_0000_0000_0000
  const PAGE: nat := 4096

  type Word = w: nat | w < TWO_64
  type Byte = b: nat | b < 256

  datatype Option<+T> = None | Some(value: T)

  /** `x + y` in 64-bit arithmetic. */
  function WrapAdd(x: Word, y: Word): (r: Word)
  {
    if x + y < TWO_64 then x + y else x + y - TWO_64
  }

  /** `x--` in 64-bit arithmetic. */
  function WrapDec(x: Word): (r: Word)
  {
    if x == 0 then TWO_64 - 1 else x - 1
  }

  /** `x -= y` in 64-bit arithmetic. */
  function WrapSub(x: Word, y: Word): (r: Word)
  {
    if x >= y then x - y else x + TWO_64 - y
  }
}
