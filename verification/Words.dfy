/** Machine words as bounded integers, with the wrap-around of the C++ unsigned types written out. */
module Words {

  datatype Option<+T> = None | Some(value: T)

  type Byte = x: int | 0 <= x < 0x100
  type Word32 = x: int | 0 <= x < 0x1_0000_0000
  type Word64 = x: int | 0 <= x < 0x1_0000_0000_0000_0000

  const TWO32: int := 0x1_0000_0000
  const TWO63: int := 0x8000_0000_0000_0000
  const TWO64: int := 0x1_0000_0000_0000_0000

  /** Any integer as a `uint64_t`. */
  function Wrap(x: int): (w: Word64) {
    x % 0x1_0000_0000_0000_0000
  }

  /** The low half of a `uint64_t`, which is what the 32-bit instruction forms keep. */
  function Low32(x: int): (w: Word32) {
    x % 0x1_0000_0000
  }

  /** The value a two's complement reader sees. */
  function Signed64(x: Word64): int {
    if x < 0x8000_0000_0000_0000 then x else x - 0x1_0000_0000_0000_0000
  }

  function Signed32(x: Word32): int {
    if x < 0x8000_0000 then x else x - 0x1_0000_0000
  }

  /** `+` and `-` on `uint64_t`, without a division for the solver to chew on. */
  function Add64(x: Word64, y: Word64): Word64 {
    if x + y < 0x1_0000_0000_0000_0000 then x + y else x + y - 0x1_0000_0000_0000_0000
  }

  function Sub64(x: Word64, y: Word64): Word64 {
    if x >= y then x - y else x - y + 0x1_0000_0000_0000_0000
  }

  function Mul64(x: Word64, y: Word64): Word64 {
    Wrap(x * y)
  }
}
