/** Java's 32-bit two's-complement `int`. */
module Int32 {

  const Min: int := -0x8000_0000
  const Max: int := 0x7fff_ffff
  const Modulus: int := 0x1_0000_0000

  newtype int32 = x: int | -0x8000_0000 <= x < 0x8000_0000

  /** The Java `int` an unbounded integer result wraps to. */
  function Wrap(x: int): (r: int32)
    ensures (r as int - x) % Modulus == 0
    ensures Min <= x <= Max ==> r as int == x
  {
    ((x - Min) % Modulus + Min) as int32
  }
}
