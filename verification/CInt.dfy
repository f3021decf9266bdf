/** The range of a C int of 32 bits. */
module CInt {
  const INT_MIN: int := -0x8000_0000
  const INT_MAX: int := 0x7FFF_FFFF

  lemma ThirtyTwoBits(x: int)
    ensures INT_MIN <= x <= INT_MAX <==> 0 <= x + 0x8000_0000 < 0x1_0000_0000
  {
  }
}
