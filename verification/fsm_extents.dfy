/** Free space as a set of disjoint extents: what taking and giving back a range of blocks does to it. */
module FsmExtents {
  import opened FsmKeys

  /** Block `b` lies in extent `k`. */
  predicate Has(k: Key, b: nat) {
    k.offset <= b < k.offset + k.length
  }

  predicate Apart(a: Key, b: Key) {
    a.offset + a.length <= b.offset || b.offset + b.length <= a.offset
  }

  /** Sorted, non-empty, pairwise disjoint extents. */
  ghost predicate Extents(s: seq<Key>) {
    && Sorted(s)
    && (forall k :: k in s ==> k.length > 0)
    && (forall a, b :: a in s && b in s && a != b ==> Apart(a, b))
  }

  /** Block `b` is free. */
  ghost predicate Covers(s: seq<Key>, b: nat) {
    exists k :: k in s && Has(k, b)
  }

  /** The number of free blocks. */
  function Total(s: seq<Key>): nat {
    if s == [] then 0 else s[0].length + Total(s[1..])
  }

  lemma {:induction false} TotalConcat(a: seq<Key>, b: seq<Key>)
    ensures Total(a + b) == Total(a) + Total(b)
  {
    if a == [] {
      assert a + b == b;
    } else {
      assert (a + b)[1..] == a[1..] + b;
      TotalConcat(a[1..], b);
    }
  }

  lemma {:induction false} TotalWithout(s: seq<Key>, k: Key)
    requires k in s
    ensures Total(s) == Total(Without(s, k)) + k.length
  {
    if s[0] != k {
      TotalWithout(s[1..], k);
      assert ([s[0]] + Without(s[1..], k))[1..] == Without(s[1..], k);
    }
  }

  lemma {:induction false} TotalWith(s: seq<Key>, k: Key)
    ensures Total(With(s, k)) == Total(s) + k.length
  {
    if s == [] || Lt(k, s[0]) {
      assert ([k] + s)[1..] == s;
    } else {
      TotalWith(s[1..], k);
      assert ([s[0]] + With(s[1..], k))[1..] == With(s[1..], k);
    }
  }

  lemma WithMembers(s: seq<Key>, k: Key)
    requires Sorted(s) && k !in s
    ensures Sorted(With(s, k)) && forall x :: x in With(s, k) <==> x in s || x == k
  {
    WithSorted(s, k);
    forall x ensures x in With(s, k) <==> x in s || x == k {
      assert x in With(s, k) <==> x in multiset(With(s, k));
    }
  }

  /** Removing an extent frees nothing and takes exactly its blocks. */
  lemma WithoutExtents(s: seq<Key>, k: Key)
    requires Extents(s) && k in s
    ensures Extents(Without(s, k)) && Total(Without(s, k)) == Total(s) - k.length
    ensures forall b: nat :: Covers(Without(s, k), b) <==> Covers(s, b) && !Has(k, b)
  {
    hide Without, Total, Sorted;
    WithoutSorted(s, k);
    TotalWithout(s, k);
  }

  /** Adding an extent that is apart from all others adds exactly its blocks. */
  lemma WithExtents(s: seq<Key>, k: Key)
    requires Extents(s) && k.length > 0 && forall x :: x in s ==> Apart(x, k)
    ensures k !in s && Extents(With(s, k)) && Total(With(s, k)) == Total(s) + k.length
    ensures forall b: nat :: Covers(With(s, k), b) <==> Covers(s, b) || Has(k, b)
  {
    hide With, Total, Sorted;
    assert k !in s;
    WithMembers(s, k);
    TotalWith(s, k);
    assert forall x :: x in With(s, k) <==> x in s || x == k;
    assert k in With(s, k);
  }

  /** Taking `n` blocks from the front of extent `k`. */
  function Take(s: seq<Key>, k: Key, n: nat): seq<Key> {
    if n < k.length then With(Without(s, k), Key(k.offset + n, k.length - n)) else Without(s, k)
  }

  lemma TakeExtents(s: seq<Key>, k: Key, n: nat)
    requires Extents(s) && k in s && n <= k.length
    ensures Extents(Take(s, k, n)) && Total(Take(s, k, n)) == Total(s) - n
    ensures forall b: nat :: Covers(Take(s, k, n), b) <==> Covers(s, b) && !(k.offset <= b < k.offset + n)
    ensures n < k.length ==> Key(k.offset + n, k.length - n) !in Without(s, k)
  {
    hide With, Without, Total, Sorted;
    WithoutSorted(s, k);
    WithoutExtents(s, k);
    if n < k.length {
      var rest := Key(k.offset + n, k.length - n);
      forall x | x in Without(s, k) ensures Apart(x, rest) {
        assert Apart(x, k);
      }
      WithExtents(Without(s, k), rest);
      assert forall b: nat :: Has(k, b) <==> (k.offset <= b < k.offset + n || Has(rest, b));
      assert forall b: nat :: Has(k, b) ==> Covers(s, b);
    }
  }

  /** The range `[off, off + len)` is entirely in use. */
  ghost predicate InUse(s: seq<Key>, off: nat, len: nat) {
    forall b: nat :: off <= b < off + len ==> !Covers(s, b)
  }

  /** The range lies in one extent. */
  ghost predicate Whole(s: seq<Key>, off: nat, len: nat) {
    exists k :: k in s && k.offset <= off && off + len <= k.offset + k.length
  }

  /** No extent is broken. */
  ghost predicate Unbroken(s: seq<Key>, r: seq<Key>) {
    forall k :: k in s ==> Whole(r, k.offset, k.length)
  }

  /** What giving the range back must achieve. */
  ghost predicate GivenBack(s: seq<Key>, r: seq<Key>, off: nat, len: nat) {
    && Extents(r) && Total(r) == Total(s) + len
    && (forall b: nat :: Covers(r, b) <==> Covers(s, b) || off <= b < off + len)
    && (len > 0 ==> Whole(r, off, len)) && Unbroken(s, r)
  }

  lemma WholeTrans(s: seq<Key>, r: seq<Key>, off: nat, len: nat)
    requires Whole(s, off, len) && Unbroken(s, r)
    ensures Whole(r, off, len)
  {
    var k :| k in s && k.offset <= off && off + len <= k.offset + k.length;
    assert Whole(r, k.offset, k.length);
  }

  /** Joining extents after a range was given back. */
  lemma GivenTrans(s: seq<Key>, m: seq<Key>, r: seq<Key>, off: nat, len: nat)
    requires GivenBack(s, m, off, len) && GivenBack(m, r, 0, 0) && len > 0
    ensures GivenBack(s, r, off, len)
  {
    hide Whole, Covers, Total;
    WholeTrans(m, r, off, len);
    forall k | k in s ensures Whole(r, k.offset, k.length) {
      WholeTrans(m, r, k.offset, k.length);
    }
  }

  /** All of `s` but `k` stays, and `j` takes in both `k` and the range. */
  lemma UnbrokenBy(s: seq<Key>, r: seq<Key>, k: Key, j: Key, off: nat, len: nat)
    requires j in r && (forall x :: x in s && x != k ==> x in r) && j.offset <= off && off + len <= j.offset + j.length
    requires k in s ==> j.offset <= k.offset && k.offset + k.length <= j.offset + j.length
    ensures Whole(r, off, len) && Unbroken(s, r)
  {
    forall x | x in s ensures Whole(r, x.offset, x.length) {
      assert x in r || x == k;
    }
  }

  lemma InUseApart(s: seq<Key>, off: nat, len: nat, k: Key)
    requires Extents(s) && len > 0 && InUse(s, off, len) && k in s
    ensures Apart(k, Key(off, len))
  {
    if !Apart(k, Key(off, len)) {
      var b := if k.offset >= off then k.offset else off;
      assert Has(k, b) && Covers(s, b);
    }
  }

  lemma GiveAlone(s: seq<Key>, off: nat, len: nat)
    requires Extents(s) && len > 0 && InUse(s, off, len)
    ensures Key(off, len) !in s && GivenBack(s, With(s, Key(off, len)), off, len)
  {
    forall x | x in s ensures Apart(x, Key(off, len)) {
      InUseApart(s, off, len, x);
    }
    WithExtents(s, Key(off, len));
    hide With, Total, Sorted;
    WithMembers(s, Key(off, len));
    UnbrokenBy(s, With(s, Key(off, len)), Key(off, len), Key(off, len), off, len);
  }

  /** Replacing extent `k`, next to the range, by the two together. */
  lemma GiveJoined(s: seq<Key>, k: Key, off: nat, len: nat, j: Key)
    requires Extents(s) && len > 0 && InUse(s, off, len) && k in s
    requires (k.offset + k.length == off && j == Key(k.offset, k.length + len))
          || (off + len == k.offset && j == Key(off, len + k.length))
    ensures j !in Without(s, k) && GivenBack(s, With(Without(s, k), j), off, len)
  {
    hide With, Without, Total, Sorted;
    WithoutSorted(s, k);
    WithoutExtents(s, k);
    forall x | x in Without(s, k) ensures Apart(x, j) {
      assert Apart(x, k);
      InUseApart(s, off, len, x);
    }
    WithExtents(Without(s, k), j);
    WithMembers(Without(s, k), j);
    UnbrokenBy(s, With(Without(s, k), j), k, j, off, len);
    hide Whole, Unbroken;
    assert forall b: nat :: Has(j, b) <==> Has(k, b) || off <= b < off + len;
    assert forall b: nat :: Has(k, b) ==> Covers(s, b);
  }

  // Which neighbour is joined.

  /** Extent `k` ends where the range starts, or starts where it ends. */
  predicate Touches(k: Key, off: nat, len: nat) {
    k.offset + k.length == off || off + len == k.offset
  }

  /** The first key of `ks` that touches the range, or their number. */
  function Touching(ks: seq<Key>, off: nat, len: nat): (i: nat)
    ensures i <= |ks| && (forall j :: 0 <= j < i ==> !Touches(ks[j], off, len))
            && (i < |ks| ==> Touches(ks[i], off, len))
  {
    if ks == [] then 0 else if Touches(ks[0], off, len) then 0 else 1 + Touching(ks[1..], off, len)
  }

  lemma {:induction false} TouchingIs(ks: seq<Key>, off: nat, len: nat, i: nat)
    requires i <= |ks| && (forall j :: 0 <= j < i ==> !Touches(ks[j], off, len))
             && (i < |ks| ==> Touches(ks[i], off, len))
    ensures Touching(ks, off, len) == i
  {
  }

  /** Extent `k` replaced by `j`. */
  function Replaced(s: seq<Key>, k: Key, j: Key): seq<Key> {
    With(Without(s, k), j)
  }

  /** The extents `s` after the range is joined to key `i` of `ks`, and if that key precedes the range, to the next key
      as well. */
  function JoinedAt(s: seq<Key>, ks: seq<Key>, i: nat, off: nat, len: nat): seq<Key>
    requires i < |ks|
  {
    var k := ks[i];
    if k.offset + k.length == off then
      var j := Key(k.offset, k.length + len);
      if i + 1 < |ks| && ks[i + 1].offset == off + len
      then Without(Replaced(Replaced(s, k, j), j, Key(k.offset, j.length + ks[i + 1].length)), ks[i + 1])
      else Replaced(s, k, j)
    else Replaced(s, k, Key(off, len + k.length))
  }

  /** The extents `s` after the range is given back: it is joined to the first extent that touches it, where only the
      keys `nodes` of the nodes on the walk are looked at; or it is an extent of its own. */
  function Coalesced(s: seq<Key>, nodes: seq<seq<Key>>, off: nat, len: nat): seq<Key> {
    if nodes == [] then With(s, Key(off, len))
    else
      var i := Touching(nodes[0], off, len);
      if i < |nodes[0]| then JoinedAt(s, nodes[0], i, off, len) else Coalesced(s, nodes[1..], off, len)
  }

  lemma {:induction false} CoalescedIn(s: seq<Key>, nodes: seq<seq<Key>>, d: nat, off: nat, len: nat)
    requires d < |nodes| && forall x :: 0 <= x < d ==> Touching(nodes[x], off, len) == |nodes[x]|
    requires Touching(nodes[d], off, len) < |nodes[d]|
    ensures Coalesced(s, nodes, off, len) == JoinedAt(s, nodes[d], Touching(nodes[d], off, len), off, len)
    decreases d
  {
    if d > 0 {
      CoalescedIn(s, nodes[1..], d - 1, off, len);
    }
  }

  lemma {:induction false} CoalescedNot(s: seq<Key>, nodes: seq<seq<Key>>, off: nat, len: nat)
    requires forall x :: 0 <= x < |nodes| ==> Touching(nodes[x], off, len) == |nodes[x]|
    ensures Coalesced(s, nodes, off, len) == With(s, Key(off, len))
  {
    if nodes != [] {
      CoalescedNot(s, nodes[1..], off, len);
    }
  }

  lemma GivenExtents(s: seq<Key>, r: seq<Key>, off: nat, len: nat)
    requires GivenBack(s, r, off, len)
    ensures Extents(r) && Sorted(r)
  {
  }

  // What joining achieves.

  predicate Spans(j: Key, off: nat, len: nat) {
    j.offset <= off && off + len <= j.offset + j.length
  }

  /** An extent of `s` that touches the range and the range itself are in one extent of `r`. */
  ghost predicate JoinsOne(s: seq<Key>, r: seq<Key>, off: nat, len: nat) {
    exists k, j :: k in s && Touches(k, off, len) && j in r && Spans(j, k.offset, k.length) && Spans(j, off, len)
  }

  /** If a key of the nodes on the walk touches the range, some extent that does is joined to it, and there are no more
      extents than before. */
  ghost predicate Achieved(nodes: seq<seq<Key>>, s: seq<Key>, r: seq<Key>, off: nat, len: nat) {
    (exists ks, k :: ks in nodes && k in ks && Touches(k, off, len)) ==> |r| <= |s| && JoinsOne(s, r, off, len)
  }

  lemma ReplacedMembers(s: seq<Key>, k: Key, j: Key)
    requires Sorted(s) && k in s && j !in Without(s, k)
    ensures |Replaced(s, k, j)| == |s| && Sorted(Replaced(s, k, j))
    ensures forall x :: x in Replaced(s, k, j) <==> (x in s && x != k) || x == j
  {
    hide With, Without, Sorted;
    WithoutSorted(s, k);
    WithoutMultiset(s, k);
    WithSorted(Without(s, k), j);
    WithMembers(Without(s, k), j);
    assert |multiset(Replaced(s, k, j))| == |multiset(s)|;
    assert |Replaced(s, k, j)| == |multiset(Replaced(s, k, j))| && |s| == |multiset(s)|;
  }

  lemma OneJoined(s: seq<Key>, k: Key, off: nat, len: nat, j: Key)
    requires Extents(s) && len > 0 && InUse(s, off, len) && k in s
    requires (k.offset + k.length == off && j == Key(k.offset, k.length + len))
          || (off + len == k.offset && j == Key(off, len + k.length))
    ensures var r := Replaced(s, k, j);
            Extents(r) && |r| == |s| && forall x :: x in r <==> (x in s && x != k) || x == j
    ensures j !in s
  {
    hide With, Without, InUse, Covers, Total;
    GiveJoined(s, k, off, len, j);
    ReplacedMembers(s, k, j);
    assert j in s ==> Apart(j, k);
  }

  lemma NextJoined(s: seq<Key>, k: Key, n: Key)
    requires Extents(s) && k in s && n in s && k.offset + k.length == n.offset
    ensures var j := Key(k.offset, k.length + n.length); var r := Without(Replaced(s, k, j), n);
            |r| <= |s| && forall x :: x in r <==> (x in s && x != k && x != n) || x == j
  {
    hide With, Without, Total;
    var j := Key(k.offset, k.length + n.length);
    JoinNext(s, k, n, j);
    ReplacedMembers(s, k, j);
    var m := Replaced(s, k, j);
    assert n in m && j != n;
    WithoutSorted(m, n);
    LessLong(m, n);
  }

  /** The members after the range was joined to key `i`. */
  lemma JoinedMembers(s: seq<Key>, ks: seq<Key>, i: nat, off: nat, len: nat)
    requires Extents(s) && len > 0 && InUse(s, off, len) && i < |ks| && Touches(ks[i], off, len)
    requires forall x :: x in ks ==> x in s
    ensures var k := ks[i]; var r := JoinedAt(s, ks, i, off, len);
            var both := k.offset + k.length == off && i + 1 < |ks| && ks[i + 1].offset == off + len;
            var j := if both then Key(k.offset, k.length + len + ks[i + 1].length)
                     else if k.offset + k.length == off then Key(k.offset, k.length + len)
                         else Key(off, len + k.length);
            && j in r && Spans(j, k.offset, k.length) && Spans(j, off, len) && |r| <= |s|
            && (forall x :: x in r <==> x == j || (x in s && x != k && !(both && x == ks[i + 1])))
  {
    hide With, Without, Sorted, InUse, Covers, Total, Replaced;
    var k := ks[i];
    assert k in ks;
    if k.offset + k.length == off {
      var j := Key(k.offset, k.length + len);
      OneJoined(s, k, off, len, j);
      if i + 1 < |ks| && ks[i + 1].offset == off + len {
        assert ks[i + 1] in ks;
        NextJoined(Replaced(s, k, j), j, ks[i + 1]);
      }
    } else {
      OneJoined(s, k, off, len, Key(off, len + k.length));
    }
  }

  lemma {:induction false} LessLong(s: seq<Key>, k: Key)
    ensures |Without(s, k)| <= |s|
  {
    if s != [] && s[0] != k {
      LessLong(s[1..], k);
    }
  }

  /** If an extent that the walk looks at touches the range, some such extent and the range are one extent afterwards,
      and there are no more extents than before. */
  lemma {:induction false} CoalescedJoins(s: seq<Key>, nodes: seq<seq<Key>>, off: nat, len: nat, k: Key)
    requires Extents(s) && len > 0 && InUse(s, off, len)
    requires (forall ks, x :: ks in nodes && x in ks ==> x in s) && Touches(k, off, len)
    requires exists ks :: ks in nodes && k in ks
    ensures var r := Coalesced(s, nodes, off, len);
            |r| <= |s| && JoinsOne(s, r, off, len)
  {
    hide With, Without, Sorted, InUse, Covers, Total, Replaced, JoinedAt;
    var i := Touching(nodes[0], off, len);
    assert nodes[0] in nodes;
    if i < |nodes[0]| {
      assert nodes[0][i] in nodes[0];
      JoinedMembers(s, nodes[0], i, off, len);
    } else {
      var ks :| ks in nodes && k in ks;
      assert ks != nodes[0];
      assert ks in nodes[1..];
      CoalescedJoins(s, nodes[1..], off, len, k);
    }
  }

  /** No two extents touch. */
  ghost predicate Maximal(s: seq<Key>) {
    forall a, b :: a in s && b in s ==> a.offset + a.length != b.offset
  }

  /** In sorted extents the one that starts behind the range is the next after the one that ends before it. */
  lemma NextOne(s: seq<Key>, i: nat, n: nat, off: nat, len: nat)
    requires Extents(s) && len > 0 && InUse(s, off, len) && i < |s| && s[i].offset + s[i].length == off
    requires n < |s| && s[n].offset == off + len
    ensures n == i + 1
  {
    assert s[i] in s && s[n] in s;
    if n <= i {
      assert false;
    }
    if n > i + 1 {
      var m := s[i + 1];
      assert m in s && Lt(s[i], m) && Lt(m, s[n]);
      Ordered(s, s[i], m);
      Ordered(s, m, s[n]);
      InUseApart(s, off, len, m);
      assert false;
    }
  }

  /** In a tree of one node everything is joined: extents that do not touch each other stay so. */
  lemma CoalescedMaximal(s: seq<Key>, off: nat, len: nat)
    requires Extents(s) && len > 0 && InUse(s, off, len) && Maximal(s)
    ensures Maximal(Coalesced(s, [s], off, len))
  {
    hide With, Without, Sorted, InUse, Covers, Total, Replaced, JoinedAt;
    var i := Touching(s, off, len);
    if i < |s| {
      JoinedMembers(s, s, i, off, len);
      forall n | n in s && n.offset == off + len && s[i].offset + s[i].length == off
        ensures i + 1 < |s| && s[i + 1] == n
      {
        var x :| 0 <= x < |s| && s[x] == n;
        NextOne(s, i, x, off, len);
      }
      forall n | n in s && n.offset + n.length == off ensures n == s[i] {
        var x :| 0 <= x < |s| && s[x] == n;
        OnlyBefore(s, i, x, off, len);
      }
    } else {
      GiveAlone(s, off, len);
      WithMembers(s, Key(off, len));
      forall k | k in s ensures !Touches(k, off, len) {
        var x :| 0 <= x < |s| && s[x] == k;
      }
    }
  }

  /** The extent that ends before the range is the first one that touches it. */
  lemma OnlyBefore(s: seq<Key>, i: nat, n: nat, off: nat, len: nat)
    requires Extents(s) && len > 0 && i == Touching(s, off, len) < |s| && n < |s| && s[n].offset + s[n].length == off
    ensures n == i
  {
    assert Touches(s[n], off, len) && s[i] in s && s[n] in s;
    if n > i {
      assert Lt(s[i], s[n]);
      Ordered(s, s[i], s[n]);
      assert false;
    }
  }

  lemma {:induction false} WithoutMultiset(s: seq<Key>, k: Key)
    ensures multiset(Without(s, k)) == multiset(s) - multiset{k}
  {
    if s != [] {
      assert s == [s[0]] + s[1..];
      if s[0] != k {
        WithoutMultiset(s[1..], k);
      }
    }
  }

  lemma {:induction false} SortedUnique(a: seq<Key>, b: seq<Key>)
    requires Sorted(a) && Sorted(b) && multiset(a) == multiset(b)
    ensures a == b
    decreases |a|
  {
    assert |a| == |multiset(a)| == |multiset(b)| == |b|;
    if a != [] {
      assert a[0] in multiset(b) && b[0] in multiset(a);
      assert a[0] == b[0];
      assert a == [a[0]] + a[1..] && b == [b[0]] + b[1..];
      assert multiset(a[1..]) == multiset(a) - multiset{a[0]} && multiset(b[1..]) == multiset(b) - multiset{b[0]};
      SortedParts([a[0]], a[1..]);
      SortedParts([b[0]], b[1..]);
      SortedUnique(a[1..], b[1..]);
    }
  }

  /** Two adjacent extents made one: the first grows over the second, which is then removed. */
  lemma JoinNext(s: seq<Key>, k: Key, n: Key, j: Key)
    requires Extents(s) && k in s && n in s && k.offset + k.length == n.offset
             && j == Key(k.offset, k.length + n.length)
    ensures j !in Without(s, k) && Sorted(With(Without(s, k), j))
    ensures GivenBack(s, Without(With(Without(s, k), j), n), 0, 0)
  {
    hide With, Without, Total, Sorted;
    var s1 := Without(s, n);
    WithoutSorted(s, n);
    WithoutExtents(s, n);
    GiveJoined(s1, k, n.offset, n.length, j);
    assert Unbroken(s, With(Without(s1, k), j)) by {
      hide Whole;
      assert forall x :: x in s ==> x in s1 || x == n;
    }
    hide Whole, Unbroken;
    assert forall b: nat :: Has(n, b) ==> Covers(s, b);
    BetweenMembers(s, k, n, j);
  }

  /** The order in which the three changes are made does not matter. */
  lemma BetweenMembers(s: seq<Key>, k: Key, n: Key, j: Key)
    requires Extents(s) && k in s && n in s && j.offset == k.offset && j.length > k.length && n != k
             && n.offset != j.offset
    ensures j !in Without(s, k) && Sorted(With(Without(s, k), j))
    ensures Without(With(Without(s, k), j), n) == With(Without(Without(s, n), k), j)
  {
    hide With, Without, Total, Sorted;
    var w := Without(s, k);
    WithoutSorted(s, k);
    WithoutSorted(s, n);
    WithoutSorted(Without(s, n), k);
    assert j !in s by {
      assert j in s ==> Apart(j, k);
    }
    var v := Without(Without(s, n), k);
    WithSorted(w, j);
    WithSorted(v, j);
    WithoutSorted(With(w, j), n);
    WithoutMultiset(s, k);
    WithoutMultiset(s, n);
    WithoutMultiset(Without(s, n), k);
    WithoutMultiset(With(w, j), n);
    assert multiset(Without(With(w, j), n)) == multiset(With(v, j));
    SortedUnique(Without(With(w, j), n), With(v, j));
  }

  /** An extent that grows in place keeps its position. */
  lemma GrowInPlace(a: seq<Key>, k: Key, b: seq<Key>, j: Key)
    requires Sorted(a + [k] + b) && AllBelow(a, j) && AllAbove(j, b)
    ensures With(Without(a + [k] + b, k), j) == a + [j] + b
  {
    SortedAround(a, k, b);
    WithoutOne(a, k, b);
    WithMiddle(a, j, b);
  }

  lemma Ordered(s: seq<Key>, x: Key, y: Key)
    requires Extents(s) && x in s && y in s && Lt(x, y)
    ensures x.offset + x.length <= y.offset && x.length > 0
  {
    assert Apart(x, y);
  }

  /** Lengthening an extent keeps the keys in order. */
  lemma LongerKey(s: seq<Key>, a: seq<Key>, k: Key, b: seq<Key>, j: Key)
    requires Extents(s) && s == a + [k] + b && j.offset == k.offset
    ensures With(Without(s, k), j) == a + [j] + b
  {
    hide With, Without, Total;
    SortedAround(a, k, b);
    assert k in s;
    assert AllBelow(a, j) by {
      forall i | 0 <= i < |a| ensures Lt(a[i], j) {
        assert a[i] in s;
        Ordered(s, a[i], k);
      }
    }
    assert AllAbove(j, b) by {
      forall i | 0 <= i < |b| ensures Lt(j, b[i]) {
        assert b[i] in s;
        Ordered(s, k, b[i]);
      }
    }
    GrowInPlace(a, k, b, j);
  }
}
