/** Fixed-width integers of the source, written out over unbounded ones. */
module Words {

  const U32: nat := 0x1_0000_0000
  const U64: nat := 0x1_0000_0000_0000_0000

  /** A 32-bit word read as a signed int. */
  function Signed32(w: int): (i: int)
    ensures (i - w) % U32 == 0 && -0x8000_0000 <= i < 0x8000_0000
  {
    var v := w % U32;
    if v < 0x8000_0000 then v else v - U32
  }

  /** A 64-bit word read as a signed long. */
  function Signed64(w: int): int {
    var v := w % U64;
    if v < U64 / 2 then v else v - U64
  }
}
