/** Bytes and 32-bit words. */
module MachineWords {
  const W: int := 0x1_0000_0000

  type Word = x: int | 0 <= x < 0x1_0000_0000

  type Byte = x: int | 0 <= x < 256
}
