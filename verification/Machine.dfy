/** Sizes of words, pages and the physical address space that the other modules share. */
module Machine {
  /** 2^64 */
  const WORD: nat := 0x1_0000_0000_0000_0000
  /** 2^31: the first size that a 32-bit int does not hold. */
  const INT_LIMIT: nat := 0x8000_0000
  const PAGE_SIZE: nat := 0x1000
  /** 2^52: entries of page tables hold physical addresses below this. */
  const PHYSICAL_LIMIT: nat := 0x10_0000_0000_0000
}
