/** Machine words shared by the models, as ranges of the mathematical integers. */
module Words {
  type Byte = b: int | 0 <= b < 0x100
  type U16 = w: int | 0 <= w < 0x1_0000
  type U32 = w: int | 0 <= w < 0x1_0000_0000
  type S16 = w: int | -0x8000 <= w < 0x8000

  const UINT16_MAX := 0xFFFF
}
