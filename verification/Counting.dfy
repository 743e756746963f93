/** Counting helpers that several modules share. */
module Counting {
  function Bit(b: bool): nat { if b then 1 else 0 }

  lemma SubsetSize<T>(a: set<T>, b: set<T>)
    requires a <= b
    ensures |a| <= |b|
  {
    assert b == a + (b - a);
  }
}
