/** Machine integers of the source that are narrower than the numbers they hold. */
module Integers {

  /** The value of a signed 32-bit integer after arithmetic that may have wrapped. */
  function Int32(n: int): (r: int)
    ensures -0x8000_0000 <= r < 0x8000_0000
    ensures -0x8000_0000 <= n < 0x8000_0000 ==> r == n
  {
    (n + 0x8000_0000) % 0x1_0000_0000 - 0x8000_0000
  }
}
