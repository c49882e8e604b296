/** 32-bit words as integers below 2^32, with the wrap-around of C's `uint32_t` written out. */
module Words {

  const WORD_LIMIT := 0x1_0000_0000

  type Word = n: nat | n < WORD_LIMIT

  const PAGE_SIZE := 4096

  function Wrap(n: int): Word
  {
    n % WORD_LIMIT
  }

  /** The number of pages that n bytes touch when they start on a page boundary. */
  function PagesFor(n: nat): nat
  {
    (n + PAGE_SIZE - 1) / PAGE_SIZE
  }

  function Max(a: nat, b: nat): nat
  {
    if a > b then a else b
  }

  function Min(a: nat, b: nat): nat
  {
    if a < b then a else b
  }
}
