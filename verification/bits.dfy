/** Bitmaps. */
module Bits {

  /** The number of clear bits. */
  function NumClear(bits: seq<bool>): nat {
    if bits == [] then 0 else NumClear(bits[..|bits| - 1]) + (if bits[|bits| - 1] then 0 else 1)
  }

  lemma {:induction false} NumClearUpdate(bits: seq<bool>, i: nat, v: bool)
    requires i < |bits| && bits[i] != v
    ensures NumClear(bits[i := v]) == if v then NumClear(bits) - 1 else NumClear(bits) + 1
  {
    var n := |bits| - 1;
    if i < n {
      assert bits[i := v][..n] == bits[..n][i := v];
      NumClearUpdate(bits[..n], i, v);
    } else {
      assert bits[i := v][..n] == bits[..n];
    }
  }
}
