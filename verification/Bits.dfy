/** 64-bit words used as bit sets. A word is the set of the positions of its one bits, so that `a | b` is
    `a + b`, `a & !b` is `a - b`, `1 << i` is `{i}` and `a & (1 << i) != 0` is `i in a`. */
module Bits {
  type Byte = b: int | 0 <= b < 256

  type Word = w: set<nat> | forall i :: i in w ==> i < 64

  /** `trailing_zeros` of a word with a one bit at or above position `i`: the lowest such position. */
  function LowestBit(w: Word, i: nat): (r: nat)
    requires exists j :: j in w && i <= j
    ensures i <= r && r in w
    ensures forall j :: j in w && i <= j ==> r <= j
    decreases 64 - i
  {
    if i in w then i else LowestBit(w, i + 1)
  }
}
