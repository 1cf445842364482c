/** Sizes of machine words, and bytes. */
module Words {
  type byte = x: int | 0 <= x < 256

  const U32: nat := 0x1_0000_0000
  const WORD: nat := 0x1_0000_0000_0000_0000
}
