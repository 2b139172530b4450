/** Free extents, their order, and the sequence facts that the free-space B-tree
    proofs are built from. */
module FsmKeys {

  /** A free extent: `length` blocks starting at block `offset`. */
  datatype Key = Key(offset: nat, length: nat)

  /** The tree order: by offset, then by length. */
  predicate Lt(a: Key, b: Key) {
    a.offset < b.offset || (a.offset == b.offset && a.length < b.length)
  }

  predicate Sorted(s: seq<Key>) {
    forall i, j :: 0 <= i < j < |s| ==> Lt(s[i], s[j])
  }

  predicate AllBelow(s: seq<Key>, k: Key) {
    forall i :: 0 <= i < |s| ==> Lt(s[i], k)
  }

  predicate AllAbove(k: Key, s: seq<Key>) {
    forall i :: 0 <= i < |s| ==> Lt(k, s[i])
  }

  /** `s` without the first occurrence of `k`. */
  function Without(s: seq<Key>, k: Key): seq<Key> {
    if s == [] then []
    else if s[0] == k then s[1..]
    else [s[0]] + Without(s[1..], k)
  }

  lemma {:induction false} WithoutAbsent(s: seq<Key>, k: Key)
    requires k !in s
    ensures Without(s, k) == s
  {
    if s != [] {
      WithoutAbsent(s[1..], k);
    }
  }

  lemma {:induction false} WithoutMiddle(a: seq<Key>, m: seq<Key>, b: seq<Key>, k: Key)
    requires k !in a && k !in b
    ensures Without(a + m + b, k) == a + Without(m, k) + b
  {
    if a == [] {
      assert a + m + b == m + b;
      WithoutLeft(m, b, k);
    } else {
      WithoutMiddle(a[1..], m, b, k);
      var s := a + m + b;
      assert s[1..] == a[1..] + m + b && s[0] == a[0] != k;
      assert a + Without(m, k) + b == [a[0]] + (a[1..] + Without(m, k) + b);
    }
  }

  lemma {:induction false} WithoutLeft(m: seq<Key>, b: seq<Key>, k: Key)
    requires k !in b
    ensures Without(m + b, k) == Without(m, k) + b
  {
    if m == [] {
      assert m + b == b;
      WithoutAbsent(b, k);
    } else if m[0] != k {
      assert (m + b)[1..] == m[1..] + b;
      WithoutLeft(m[1..], b, k);
    }
  }

  lemma WithoutOne(a: seq<Key>, k: Key, b: seq<Key>)
    requires k !in a && k !in b
    ensures Without(a + [k] + b, k) == a + b
  {
    WithoutMiddle(a, [k], b, k);
  }

  lemma SortedParts(a: seq<Key>, b: seq<Key>)
    requires Sorted(a + b)
    ensures Sorted(a) && Sorted(b)
    ensures forall i, j :: 0 <= i < |a| && 0 <= j < |b| ==> Lt(a[i], b[j])
  {
    var s := a + b;
    forall i, j | 0 <= i < |a| && 0 <= j < |b| ensures Lt(a[i], b[j]) {
      assert s[i] == a[i] && s[|a| + j] == b[j];
    }
    forall i, j | 0 <= i < j < |b| ensures Lt(b[i], b[j]) {
      assert s[|a| + i] == b[i] && s[|a| + j] == b[j];
    }
    forall i, j | 0 <= i < j < |a| ensures Lt(a[i], a[j]) {
      assert s[i] == a[i] && s[j] == a[j];
    }
  }

  /** A key in the middle of a sorted sequence bounds both sides. */
  lemma SortedAround(a: seq<Key>, k: Key, b: seq<Key>)
    requires Sorted(a + [k] + b)
    ensures Sorted(a) && Sorted(b) && AllBelow(a, k) && AllAbove(k, b)
    ensures k !in a && k !in b
  {
    assert a + [k] + b == a + ([k] + b);
    SortedParts(a, [k] + b);
    SortedParts([k], b);
    assert ([k] + b)[0] == k && [k][0] == k;
  }

  lemma SortedMiddle(a: seq<Key>, m: seq<Key>, b: seq<Key>)
    requires Sorted(a + m + b)
    ensures Sorted(m)
  {
    SortedParts(a + m, b);
    SortedParts(a, m);
  }

  lemma {:induction false} WithoutSorted(s: seq<Key>, k: Key)
    requires Sorted(s)
    ensures Sorted(Without(s, k))
    ensures forall x :: x in Without(s, k) <==> x in s && x != k
    decreases |s|
  {
    if s != [] {
      assert s == [s[0]] + s[1..];
      SortedParts([s[0]], s[1..]);
      WithoutSorted(s[1..], k);
      var r := Without(s[1..], k);
      if s[0] == k {
        assert forall x :: x in s[1..] ==> x != k;
      } else {
        assert forall i :: 0 <= i < |r| ==> r[i] in s[1..];
      }
    }
  }

  /** `s` with `k` put in its place. */
  function With(s: seq<Key>, k: Key): seq<Key> {
    if s == [] || Lt(k, s[0]) then [k] + s else [s[0]] + With(s[1..], k)
  }

  lemma {:induction false} WithMiddle(a: seq<Key>, k: Key, b: seq<Key>)
    requires AllBelow(a, k) && AllAbove(k, b)
    ensures With(a + b, k) == a + [k] + b
  {
    if a == [] {
      assert a + b == b && a + [k] + b == [k] + b;
    } else {
      assert (a + b)[1..] == a[1..] + b;
      WithMiddle(a[1..], k, b);
    }
  }

  lemma WithCons(s: seq<Key>, k: Key)
    ensures With(s, k) == if s == [] || Lt(k, s[0]) then [k] + s else [s[0]] + With(s[1..], k)
  {
  }

  lemma SortedTail(s: seq<Key>)
    requires Sorted(s) && s != []
    ensures Sorted(s[1..]) && forall x :: x in s[1..] ==> Lt(s[0], x)
  {
  }

  lemma {:induction false} WithSorted(s: seq<Key>, k: Key)
    requires Sorted(s) && k !in s
    ensures Sorted(With(s, k)) && multiset(With(s, k)) == multiset(s) + multiset{k}
  {
    hide With, Sorted;
    WithCons(s, k);
    if s != [] {
      SortedTail(s);
      assert s == [s[0]] + s[1..];
    }
    if s == [] || Lt(k, s[0]) {
      forall j | 0 <= j < |s| ensures Lt(k, s[j]) {
        assert j > 0 ==> s[j] in s[1..];
      }
      SortedCons(k, s);
    } else {
      WithSorted(s[1..], k);
      var w := With(s[1..], k);
      forall j | 0 <= j < |w| ensures Lt(s[0], w[j]) {
        assert w[j] in multiset(w);
        assert w[j] == k || w[j] in s[1..];
      }
      SortedCons(s[0], w);
    }
  }

  lemma SortedCons(x: Key, w: seq<Key>)
    requires Sorted(w) && forall j :: 0 <= j < |w| ==> Lt(x, w[j])
    ensures Sorted([x] + w)
  {
  }
}
