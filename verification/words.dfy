/** The width of the machine words the counters and hashes live in. */
module Words {
  const TWO_64: int := 0x1_0000_0000_0000_0000
}
