/** Integer facts the screen layout and the quick hash share. */
module Arith {

  function Min(a: int, b: int): int {
    if a < b then a else b
  }

  /** Multiplying by a non-negative factor keeps the order. */
  lemma MulMono(a: int, b: int, d: int)
    requires d >= 0
    ensures a <= b ==> a * d <= b * d
  {
    assert (b - a) * d == b * d - a * d;
    if a <= b {
      assert (b - a) * d >= 0;
    }
  }
}
