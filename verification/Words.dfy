/** Machine words with a byte packed above a 24-bit value. */
module Words {
  /** One more than the largest value of the low part. */
  const LOW := 0x1000000

  /** One more than the largest 32-bit word. */
  const WORD := 0x1_0000_0000
}
