/** The 32-bit machine the kernel runs on. */
module Machine {
  /** The number of values of a 32-bit word. */
  const WORD: nat := 0x1_0000_0000
  const PAGE_SIZE: nat := 4096

  /** The values of an `int`; results outside it are undefined. */
  const INT_MAX: int := 0x7fff_ffff
  type Int = x: int | -INT_MAX - 1 <= x <= INT_MAX

  /** The `int` with a given bit pattern. */
  function Signed(w: nat): (i: Int)
    requires w < WORD
  {
    if w >= WORD / 2 then w - WORD else w
  }

  /** Arithmetic of `unsigned int`, `unsigned long` and pointers. */
  function U32(x: int): (r: nat)
    ensures r < WORD
  {
    x % WORD
  }
}
