/** Machine words. */
module Powers {
  /** 2^64, the modulus of a 64-bit word. */
  const WORD := 0x1_0000_0000_0000_0000

  function Pow2(k: nat): (p: nat)
    ensures p > 0
  {
    if k == 0 then 1 else 2 * Pow2(k - 1)
  }
}
