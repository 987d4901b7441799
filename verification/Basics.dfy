/** What several components share: an optional result, 16-bit numbers and two facts about products. */
module Basics {

  datatype Option<T> = None | Some(value: T)

  type u16 = x: int | 0 <= x < 0x1_0000

  lemma MulMono(a: int, b: int, s: nat)
    requires a <= b
    ensures a * s <= b * s
  {
  }

  lemma Distribute(a: int, b: int, s: int)
    ensures (a + b) * s == a * s + b * s
  {
  }
}
