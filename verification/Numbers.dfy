/** The widths of machine integers. */
module Numbers {

  const WORD_LIMIT: nat := 0x1_0000_0000_0000_0000

  type u16 = n: nat | n < 0x1_0000
  type u32 = n: nat | n < 0x1_0000_0000
  type u64 = n: nat | n < WORD_LIMIT
}
