/** The machine's bytes and words. */
module Words {
  type Byte = x: int | 0 <= x < 0x100

  type Word = x: int | 0 <= x < 0x1_0000_0000

  /** Truncation to uint32_t. */
  function Wrap(x: int): Word { x % 0x1_0000_0000 }
}
