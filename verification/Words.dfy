/** Machine words as bounded naturals. */
module Words {
  type uint8 = x: nat | x < 0x100
  type uint32 = x: nat | x < 0x1_0000_0000
}
