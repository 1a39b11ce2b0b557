/** Seeds that advance as those of the SplitMix64 generator do, whatever words are mixed from them. */
module Draws {
  const WORD: nat := 0x1_0000_0000_0000_0000
  const DRAW_STEP: nat := 0x9e37_79b9_7f4a_7c15

  /** The generator's output mixing, of which only determinism matters here. */
  type Mix = nat -> nat
}
