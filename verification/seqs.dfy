/** Sequences of sequences. */
module Seqs {

  function Flat<T>(gs: seq<seq<T>>): seq<T> {
    if gs == [] then [] else gs[0] + Flat(gs[1..])
  }

  lemma {:induction false} FlatConcat<T>(a: seq<seq<T>>, b: seq<seq<T>>)
    ensures Flat(a + b) == Flat(a) + Flat(b)
  {
    if a == [] {
      assert a + b == b;
    } else {
      assert (a + b)[1..] == a[1..] + b;
      FlatConcat(a[1..], b);
      assert a[0] + (Flat(a[1..]) + Flat(b)) == (a[0] + Flat(a[1..])) + Flat(b);
    }
  }

  lemma FlatOne<T>(g: seq<T>)
    ensures Flat([g]) == g
  {
    assert [g][1..] == [];
  }

  /** The `j`th sequence and what is before and after it. */
  lemma FlatAt<T>(gs: seq<seq<T>>, j: nat)
    requires j < |gs|
    ensures Flat(gs) == Flat(gs[..j]) + gs[j] + Flat(gs[j + 1..])
  {
    SplitAt(gs, j);
    FlatThree(gs[..j], gs[j], gs[j + 1..]);
  }

  lemma SplitAt<T>(s: seq<T>, j: nat)
    requires j < |s|
    ensures s == s[..j] + [s[j]] + s[j + 1..]
  {
  }

  lemma FlatThree<T>(a: seq<seq<T>>, g: seq<T>, b: seq<seq<T>>)
    ensures Flat(a + [g] + b) == Flat(a) + g + Flat(b)
  {
    hide Flat;
    FlatConcat(a + [g], b);
    FlatConcat(a, [g]);
    FlatOne(g);
  }
}
