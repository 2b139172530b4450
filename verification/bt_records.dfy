/** Records of the on-disk B+tree, sequences of nodes, and the search inside one node. */
module BtRecords {
  import opened Seqs

  /** A record: its key, by its rank in the tree's order, the length of the key, the value (the id of a
      child, in an index node) and the length of the whole record. */
  datatype Rec = Rec(key: int, klen: nat, val: nat, len: nat)

  /** sizeof the node descriptor, of an offset slot and of an index value; what the end of a node keeps free. */
  const DESCR: nat := 19
  const SLOT: nat := 4
  const INDEX_VALUE: nat := 4
  const FIRST_OFFSET: nat := 4
  /** What an empty node uses: the descriptor and the offset of its free area. */
  const OVERHEAD: nat := 27

  /** The record that stands for node `id` one level up. */
  function IndexRec(r: Rec, id: nat): Rec {
    Rec(r.key, r.klen, id, r.klen + INDEX_VALUE)
  }

  /** Neither the record nor an index record with its key exceeds the longest record. */
  predicate RecOk(r: Rec, max: nat) {
    r.len <= max && r.klen + INDEX_VALUE <= max
  }

  predicate RecsOk(s: seq<Rec>, max: nat) {
    forall i :: 0 <= i < |s| ==> RecOk(s[i], max)
  }

  predicate Sorted(s: seq<Rec>) {
    forall i, j :: 0 <= i < j < |s| ==> s[i].key < s[j].key
  }

  /** The bytes that records and their offset slots take. */
  function Size(s: seq<Rec>): nat {
    if s == [] then 0 else Size(s[..|s| - 1]) + s[|s| - 1].len + SLOT
  }

  lemma {:induction false} SizeConcat(a: seq<Rec>, b: seq<Rec>)
    ensures Size(a + b) == Size(a) + Size(b)
    decreases |b|
  {
    if b == [] {
      assert a + b == a;
    } else {
      assert (a + b)[..|a + b| - 1] == a + b[..|b| - 1];
      SizeConcat(a, b[..|b| - 1]);
    }
  }

  lemma SizeOne(r: Rec)
    ensures Size([r]) == r.len + SLOT
  {
    assert [r][..0] == [];
  }

  // Sequences of nodes.

  /** The position in the level of record `i` of node `j`. */
  ghost function Place(gs: seq<seq<Rec>>, j: nat, i: nat): nat
    requires j < |gs| && i < |gs[j]|
  {
    |Flat(gs[..j])| + i
  }

  lemma PlaceAt(gs: seq<seq<Rec>>, j: nat, i: nat)
    requires j < |gs| && i < |gs[j]|
    ensures Place(gs, j, i) < |Flat(gs)| && Flat(gs)[Place(gs, j, i)] == gs[j][i]
  {
    FlatAt(gs, j);
  }

  lemma SortedParts(a: seq<Rec>, m: seq<Rec>, b: seq<Rec>)
    requires Sorted(a + m + b)
    ensures Sorted(a) && Sorted(m) && Sorted(b)
    ensures forall i, j :: 0 <= i < |a| && 0 <= j < |m| ==> a[i].key < m[j].key
    ensures forall i, j :: 0 <= i < |m| && 0 <= j < |b| ==> m[i].key < b[j].key
    ensures forall i, j :: 0 <= i < |a| && 0 <= j < |b| ==> a[i].key < b[j].key
  {
    var s := a + m + b;
    assert forall i :: 0 <= i < |a| ==> s[i] == a[i];
    assert forall i :: 0 <= i < |m| ==> s[|a| + i] == m[i];
    assert forall i :: 0 <= i < |b| ==> s[|a| + |m| + i] == b[i];
  }

  // Where a key belongs.

  /** `g` is the position of the last record whose key is at most `k`. */
  predicate Last(s: seq<Rec>, k: int, g: nat) {
    g < |s| && s[g].key <= k && (g + 1 < |s| ==> k < s[g + 1].key)
  }

  lemma LastUnique(s: seq<Rec>, k: int, g: nat, h: nat)
    requires Sorted(s) && Last(s, k, g) && Last(s, k, h)
    ensures g == h
  {
  }

  /** `s` with `r` put right after position `g`. */
  function After(s: seq<Rec>, g: nat, r: Rec): seq<Rec>
    requires g < |s|
  {
    s[..g + 1] + [r] + s[g + 1..]
  }

  lemma AroundSorted(a: seq<Rec>, r: Rec, b: seq<Rec>)
    requires Sorted(a + b) && (forall i :: 0 <= i < |a| ==> a[i].key < r.key)
             && (forall i :: 0 <= i < |b| ==> r.key < b[i].key)
    ensures Sorted(a + [r] + b)
  {
    var s, t := a + b, a + [r] + b;
    forall i, j | 0 <= i < j < |t| ensures t[i].key < t[j].key {
      if i != |a| && j != |a| {
        var x, y := if i < |a| then i else i - 1, if j < |a| then j else j - 1;
        assert t[i] == s[x] && t[j] == s[y];
      }
    }
  }

  lemma AfterSorted(s: seq<Rec>, g: nat, r: Rec)
    requires Sorted(s) && Last(s, r.key, g) && s[g].key != r.key
    ensures Sorted(After(s, g, r)) && multiset(After(s, g, r)) == multiset(s) + multiset{r}
  {
    var a, b := s[..g + 1], s[g + 1..];
    assert s == a + b;
    forall i | 0 <= i < |a| ensures a[i].key < r.key {
      assert a[i] == s[i] && s[i].key <= s[g].key;
    }
    forall i | 0 <= i < |b| ensures r.key < b[i].key {
      assert b[i] == s[g + 1 + i] && s[g + 1].key <= b[i].key;
    }
    AroundSorted(a, r, b);
  }

  /** What a search yields: a record equal to the key, else the last smaller one, else the first. */
  ghost predicate Found(n: nat, comp: int --> int, pos: nat)
    requires forall i :: 0 <= i < n ==> comp.requires(i)
  {
    && pos < n
    && ((exists i :: 0 <= i < n && comp(i) == 0) ==> comp(pos) == 0)
    && ((forall i :: 0 <= i < n ==> comp(i) != 0) ==>
          if comp(0) > 0 then pos == 0 else comp(pos) < 0 && (pos + 1 < n ==> comp(pos + 1) > 0))
  }

  /** The comparator agrees with the order of the records. */
  ghost predicate Monotone(n: nat, comp: int --> int)
    requires forall i :: 0 <= i < n ==> comp.requires(i)
  {
    forall i, j :: 0 <= i < j < n ==> (comp(i) > 0 ==> comp(j) > 0) && (comp(j) < 0 ==> comp(i) < 0)
  }

  /** The search in a node of `n` records; `comp(i)` compares record `i` with the key. */
  method FindPos(n: nat, comp: int --> int) returns (pos: int)
    requires n > 0 && (forall i :: 0 <= i < n ==> comp.requires(i)) && Monotone(n, comp)
    ensures pos >= 0 && Found(n, comp, pos)
  {
    var first, last, prevPos := 0, n, -1;
    pos := -1;
    var cmpRes := comp(first);
    if cmpRes > 0 {
      prevPos, first := first, last;
    }
    cmpRes := comp(last - 1);
    if cmpRes < 0 {
      pos, first := last - 1, last;
    }
    ghost var decided := first == last;
    while first < last
      invariant 0 <= first <= last <= n
      invariant decided ==> first == last
                            && if comp(0) > 0 then cmpRes > 0 && prevPos == 0 else cmpRes < 0 && pos == n - 1
      invariant decided <==> comp(0) > 0 || comp(n - 1) < 0
      invariant !decided ==> prevPos == first - 1
      invariant !decided ==> forall i :: 0 <= i < first ==> comp(i) < 0
      invariant !decided ==> forall i :: last <= i < n ==> comp(i) > 0
      invariant !decided && (first > 0 || last < n) ==> cmpRes != 0 && (cmpRes < 0 ==> pos == first - 1)
    {
      var mid := first + (last - first) / 2;
      pos := mid;
      cmpRes := comp(mid);
      if cmpRes == 0 {
        break;
      } else if cmpRes > 0 {
        last := mid;
      } else {
        prevPos, first := mid, mid + 1;
      }
    }
    if cmpRes > 0 {
      pos := prevPos;
    }
  }

  function Compare(a: int, b: int): int {
    if a < b then -1 else if a == b then 0 else 1
  }

  /** The search for `k` in a node. */
  method Search(s: seq<Rec>, k: int) returns (pos: int)
    requires s != [] && Sorted(s)
    ensures 0 <= pos < |s| && (k < s[0].key ==> pos == 0) && (s[0].key <= k ==> Last(s, k, pos))
  {
    var comp := i requires 0 <= i < |s| => Compare(s[i].key, k);
    pos := FindPos(|s|, comp);
    assert forall i :: 0 <= i < |s| ==> comp(i) == Compare(s[i].key, k);
  }
}
