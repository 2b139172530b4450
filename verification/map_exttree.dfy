/** The extents overflow tree, as the ordered sequence of records that its B+tree holds. */
module MapExtTree {
  import opened BtRecords

  /** `length` blocks from `begin` on hold the blocks of inode `ino` from `iblock` on. */
  datatype Ext = Ext(ino: nat, iblock: nat, begin: nat, length: nat)

  const IBLOCK_DOES_NOT_MATTER: nat := 0xFFFF_FFFF
  const IBLOCK_MAX_NUMBER: nat := 0xFFFF_FFFE
  const ORPHAN_INODES_INO: nat := 8

  predicate Before(a: Ext, b: Ext) {
    a.ino < b.ino || (a.ino == b.ino && a.iblock < b.iblock)
  }

  ghost predicate Ordered(s: seq<Ext>) {
    forall i, j :: 0 <= i < j < |s| ==> Before(s[i], s[j])
  }

  function Compare64(a: nat, b: nat): int {
    if a == b then 0 else if a > b then 1 else -1
  }

  /** Compares a record with a key; a key without a block number stands for any record of its inode. */
  function CompareExt(e: Ext, ino: nat, iblock: nat): int {
    if e.ino != ino || iblock == IBLOCK_DOES_NOT_MATTER then Compare64(e.ino, ino) else Compare64(e.iblock, iblock)
  }

  // The records of one inode are consecutive.

  function Low(s: seq<Ext>, ino: nat): (n: nat)
    ensures n <= |s|
  {
    if s == [] || s[0].ino >= ino then 0 else 1 + Low(s[1..], ino)
  }

  lemma {:induction false} LowSplits(s: seq<Ext>, ino: nat)
    requires Ordered(s)
    ensures forall i :: 0 <= i < Low(s, ino) ==> s[i].ino < ino
    ensures forall i :: Low(s, ino) <= i < |s| ==> s[i].ino >= ino
  {
    if s != [] && s[0].ino < ino {
      LowSplits(s[1..], ino);
      assert forall i :: 0 < i < |s| ==> s[i] == s[1..][i - 1];
    }
  }

  lemma {:induction false} LowUnique(s: seq<Ext>, ino: nat, n: nat)
    requires n <= |s| && (forall i :: 0 <= i < n ==> s[i].ino < ino) && (forall i :: n <= i < |s| ==> s[i].ino >= ino)
    ensures Low(s, ino) == n
  {
    if n > 0 {
      assert forall i :: 0 <= i < |s| - 1 ==> s[1..][i] == s[i + 1];
      LowUnique(s[1..], ino, n - 1);
    }
  }

  lemma {:induction false} LowHigh(s: seq<Ext>, ino: nat)
    ensures Low(s, ino) <= Low(s, ino + 1)
  {
    if s != [] && s[0].ino < ino {
      LowHigh(s[1..], ino);
    }
  }

  /** The records of an inode. */
  ghost function Own(s: seq<Ext>, ino: nat): seq<Ext> {
    if Low(s, ino) <= Low(s, ino + 1) then s[Low(s, ino)..Low(s, ino + 1)] else []
  }

  lemma OwnAt(s: seq<Ext>, ino: nat, i: nat)
    requires Ordered(s) && i < |s|
    ensures Low(s, ino) <= Low(s, ino + 1) && |Own(s, ino)| == Low(s, ino + 1) - Low(s, ino)
    ensures s[i].ino == ino <==> Low(s, ino) <= i < Low(s, ino + 1)
    ensures s[i].ino == ino ==> Own(s, ino)[i - Low(s, ino)] == s[i]
  {
    LowSplits(s, ino);
    LowSplits(s, ino + 1);
    LowHigh(s, ino);
  }

  lemma OwnIs(s: seq<Ext>, ino: nat, a: nat, b: nat)
    requires Ordered(s) && a <= b <= |s|
    requires forall i :: 0 <= i < |s| ==> (s[i].ino < ino <==> i < a) && (s[i].ino <= ino <==> i < b)
    ensures Low(s, ino) == a && Low(s, ino + 1) == b && Own(s, ino) == s[a..b]
  {
    LowUnique(s, ino, a);
    LowUnique(s, ino + 1, b);
  }

  /** The place of a key: the last record not after it, or the first. */
  ghost predicate ExtAt(s: seq<Ext>, ino: nat, iblock: nat, pos: nat) {
    && pos < |s|
    && (CompareExt(s[pos], ino, iblock) > 0 ==> pos == 0)
    && (pos + 1 < |s| ==> CompareExt(s[pos + 1], ino, iblock) > 0)
  }

  /** The search, for a given block or for any record of the inode. */
  method FindExt(s: seq<Ext>, ino: nat, iblock: nat) returns (pos: nat)
    requires Ordered(s) && s != []
    ensures pos < |s|
    ensures iblock != IBLOCK_DOES_NOT_MATTER ==> ExtAt(s, ino, iblock, pos)
    ensures iblock == IBLOCK_DOES_NOT_MATTER ==> (s[pos].ino == ino <==> Own(s, ino) != [])
  {
    var comp := i requires 0 <= i < |s| => CompareExt(s[i], ino, iblock);
    assert forall i :: 0 <= i < |s| ==> comp(i) == CompareExt(s[i], ino, iblock);
    var p := FindPos(|s|, comp);
    pos := p;
    if iblock == IBLOCK_DOES_NOT_MATTER {
      AnyPlace(s, ino, pos, comp);
    } else {
      ExactPlace(s, ino, iblock, pos, comp);
    }
  }

  lemma AnyPlace(s: seq<Ext>, ino: nat, pos: nat, comp: int --> int)
    requires Ordered(s)
    requires forall i :: 0 <= i < |s| ==> comp.requires(i) && comp(i) == CompareExt(s[i], ino, IBLOCK_DOES_NOT_MATTER)
    requires Found(|s|, comp, pos)
    ensures s[pos].ino == ino <==> Own(s, ino) != []
  {
    hide Own, Low, Ordered;
    OwnAt(s, ino, pos);
    if Own(s, ino) != [] {
      var i := Low(s, ino);
      Bounds(s, ino);
      OwnAt(s, ino, i);
      assert comp(i) == 0;
    }
  }

  lemma ExactPlace(s: seq<Ext>, ino: nat, iblock: nat, pos: nat, comp: int --> int)
    requires Ordered(s) && iblock != IBLOCK_DOES_NOT_MATTER
    requires (forall i :: 0 <= i < |s| ==> comp.requires(i) && comp(i) == CompareExt(s[i], ino, iblock))
             && Found(|s|, comp, pos)
    ensures ExtAt(s, ino, iblock, pos)
  {
    if i :| 0 <= i < |s| && comp(i) == 0 {
      assert comp(pos) == 0;
      assert pos + 1 < |s| ==> Before(s[pos], s[pos + 1]);
    }
  }

  /** `s` with `e` at its place. */
  ghost predicate AddedAt(s: seq<Ext>, s': seq<Ext>, e: Ext, h: nat) {
    h <= |s| && s' == s[..h] + [e] + s[h..]
  }

  class ExtTree {
    var recs: seq<Ext>

    /** There is always a first record. */
    ghost predicate Valid()
      reads this
    {
      Ordered(recs) && recs != []
    }

    constructor (recs: seq<Ext>)
      requires Ordered(recs) && recs != []
      ensures Valid() && this.recs == recs
    {
      this.recs := recs;
    }

    /** Inserts a record after the last one before it. */
    method Insert(e: Ext)
      requires Valid() && e.iblock != IBLOCK_DOES_NOT_MATTER && Before(recs[0], e)
      requires forall x :: x in recs ==> x.ino != e.ino || x.iblock != e.iblock
      modifies this
      ensures Valid() && recs[0] == old(recs)[0] && exists h :: AddedAt(old(recs), recs, e, h)
    {
      var pos := FindExt(recs, e.ino, e.iblock);
      ghost var s := recs;
      assert recs[pos] in recs;
      recs := recs[..pos + 1] + [e] + recs[pos + 1..];
      AddOrdered(s, e, pos);
      assert AddedAt(s, recs, e, pos + 1);
    }

    method RemoveAt(pos: nat)
      requires Valid() && 0 < pos < |recs|
      modifies this
      ensures Valid() && recs == old(recs)[..pos] + old(recs)[pos + 1..]
    {
      recs := recs[..pos] + recs[pos + 1..];
    }

    method SetLength(pos: nat, length: nat)
      requires Valid() && pos < |recs|
      modifies this
      ensures Valid() && recs == old(recs)[pos := old(recs)[pos].(length := length)]
    {
      recs := recs[pos := recs[pos].(length := length)];
    }
  }

  lemma AddOrdered(s: seq<Ext>, e: Ext, pos: nat)
    requires Ordered(s) && s != [] && e.iblock != IBLOCK_DOES_NOT_MATTER && Before(s[0], e)
             && ExtAt(s, e.ino, e.iblock, pos)
    requires s[pos].ino != e.ino || s[pos].iblock != e.iblock
    ensures Ordered(s[..pos + 1] + [e] + s[pos + 1..])
  {
    assert Before(s[pos], e);
    assert pos + 1 < |s| ==> Before(e, s[pos + 1]);
    forall i | 0 <= i < pos ensures Before(s[i], e) {}
    forall i | pos + 1 < i < |s| ensures Before(e, s[i]) {
      assert Before(s[pos + 1], s[i]);
    }
  }

  // What edits do to the records of each inode.

  /** Only the records of `ino` differ. */
  ghost predicate OthersKept(s: seq<Ext>, s': seq<Ext>, ino: nat) {
    forall x: nat :: x != ino ==> Own(s', x) == Own(s, x)
  }

  /** Bounds of an inode's records, as index conditions. */
  lemma Bounds(s: seq<Ext>, ino: nat)
    requires Ordered(s)
    ensures Low(s, ino) <= Low(s, ino + 1) <= |s| && Own(s, ino) == s[Low(s, ino)..Low(s, ino + 1)]
    ensures forall i :: 0 <= i < |s| ==> (s[i].ino < ino <==> i < Low(s, ino))
                                         && (s[i].ino <= ino <==> i < Low(s, ino + 1))
  {
    LowSplits(s, ino);
    LowSplits(s, ino + 1);
    LowHigh(s, ino);
  }

  lemma OtherBounds(s: seq<Ext>, ino: nat, x: nat)
    requires Ordered(s) && x != ino
    ensures x < ino ==> Low(s, x + 1) <= Low(s, ino)
    ensures x > ino ==> Low(s, ino + 1) <= Low(s, x)
  {
    Bounds(s, ino);
    Bounds(s, x);
    if x < ino {
      LowMono(s, x + 1, ino);
    } else {
      LowMono(s, ino + 1, x);
    }
  }

  lemma {:induction false} LowMono(s: seq<Ext>, a: nat, b: nat)
    requires a <= b
    ensures Low(s, a) <= Low(s, b)
  {
    if s != [] && s[0].ino < a {
      LowMono(s[1..], a, b);
    }
  }

  /** A record behind all of its inode goes to the end of them. */
  lemma AddPlace(s: seq<Ext>, s': seq<Ext>, e: Ext, h: nat)
    requires Ordered(s) && Ordered(s') && AddedAt(s, s', e, h)
    requires forall x :: x in Own(s, e.ino) ==> x.iblock < e.iblock
    ensures h == Low(s, e.ino + 1)
  {
    Bounds(s, e.ino);
    var a, b := Low(s, e.ino), Low(s, e.ino + 1);
    forall i | a <= i < b ensures s[i].iblock < e.iblock {
      assert s[i] == Own(s, e.ino)[i - a];
    }
    forall i | 0 <= i < h ensures s[i].ino < e.ino + 1 {
      assert Before(s'[i], s'[h]);
    }
    forall i | h <= i < |s| ensures s[i].ino >= e.ino + 1 {
      assert Before(s'[h], s'[i + 1]);
    }
    LowUnique(s, e.ino + 1, h);
  }

  lemma {:induction false} LowBound(s: seq<Ext>, ino: nat, h: nat)
    requires h <= |s|
    ensures (forall i :: h <= i < |s| ==> s[i].ino >= ino) ==> Low(s, ino) <= h
    ensures (forall i :: 0 <= i < h ==> s[i].ino < ino) ==> h <= Low(s, ino)
  {
    if s != [] {
      assert forall i :: 0 <= i < |s| - 1 ==> s[1..][i] == s[i + 1];
      if h > 0 {
        LowBound(s[1..], ino, h - 1);
      }
    }
  }

  /** A new record of one inode leaves the records of the others alone. */
  lemma OthersAdded(s: seq<Ext>, s': seq<Ext>, e: Ext, h: nat)
    requires Ordered(s) && Ordered(s') && AddedAt(s, s', e, h)
    ensures OthersKept(s, s', e.ino)
  {
    hide Low, Own;
    forall i | 0 <= i < h ensures s[i].ino < e.ino + 1 {
      assert Before(s'[i], s'[h]);
    }
    forall i | h <= i < |s| ensures s[i].ino >= e.ino {
      assert Before(s'[h], s'[i + 1]);
    }
    LowBound(s, e.ino, h);
    LowBound(s, e.ino + 1, h);
    forall x: nat | x != e.ino ensures Own(s', x) == Own(s, x) {
      AddedOthers(s, s', e, h, x);
    }
  }

  lemma OwnAdded(s: seq<Ext>, s': seq<Ext>, e: Ext, h: nat)
    requires Ordered(s) && Ordered(s') && AddedAt(s, s', e, h)
    requires forall x :: x in Own(s, e.ino) ==> x.iblock < e.iblock
    ensures Own(s', e.ino) == Own(s, e.ino) + [e] && OthersKept(s, s', e.ino)
  {
    hide Low, Own;
    AddPlace(s, s', e, h);
    Bounds(s, e.ino);
    assert forall i :: 0 <= i < |s'| ==> s'[i] == if i < h then s[i] else if i == h then e else s[i - 1];
    OwnIs(s', e.ino, Low(s, e.ino), h + 1);
    forall x: nat | x != e.ino ensures Own(s', x) == Own(s, x) {
      AddedOthers(s, s', e, h, x);
    }
  }

  lemma AddedOthers(s: seq<Ext>, s': seq<Ext>, e: Ext, h: nat, x: nat)
    requires Ordered(s) && Ordered(s') && AddedAt(s, s', e, h) && x != e.ino && Low(s, e.ino) <= h <= Low(s, e.ino + 1)
    ensures Own(s', x) == Own(s, x)
  {
    hide Low, Own;
    Bounds(s, e.ino);
    Bounds(s, x);
    OtherBounds(s, e.ino, x);
    assert forall i :: 0 <= i < |s'| ==> s'[i] == if i < h then s[i] else if i == h then e else s[i - 1];
    var lo, hi := Low(s, x), Low(s, x + 1);
    if x < e.ino {
      OwnIs(s', x, lo, hi);
    } else {
      OwnIs(s', x, lo + 1, hi + 1);
    }
  }

  lemma OwnSet(s: seq<Ext>, ino: nat, length: nat)
    requires Ordered(s) && Own(s, ino) != []
    ensures var b := Low(s, ino + 1); b > 0 && var s' := s[b - 1 := s[b - 1].(length := length)];
            var own := Own(s, ino); var k := |own| - 1;
            s[b - 1] == own[k] && Ordered(s') && Own(s', ino) == own[k := own[k].(length := length)]
                && OthersKept(s, s', ino)
  {
    hide Low, Own;
    Bounds(s, ino);
    var a, b := Low(s, ino), Low(s, ino + 1);
    var s' := s[b - 1 := s[b - 1].(length := length)];
    assert forall i :: 0 <= i < |s| ==> s'[i].ino == s[i].ino && s'[i].iblock == s[i].iblock;
    OwnIs(s', ino, a, b);
    forall x: nat | x != ino ensures Own(s', x) == Own(s, x) {
      Bounds(s, x);
      OtherBounds(s, ino, x);
      OwnIs(s', x, Low(s, x), Low(s, x + 1));
    }
  }

  /** Removing record `k` of an inode. */
  lemma OwnRemoved(s: seq<Ext>, ino: nat, k: nat)
    requires Ordered(s) && k < |Own(s, ino)|
    ensures var p := Low(s, ino) + k; p < |s| && var s' := s[..p] + s[p + 1..]; var own := Own(s, ino);
            s[p] == own[k] && Ordered(s') && Own(s', ino) == own[..k] + own[k + 1..] && OthersKept(s, s', ino)
  {
    hide Low, Own;
    Bounds(s, ino);
    var a, b := Low(s, ino), Low(s, ino + 1);
    var p := a + k;
    var s' := s[..p] + s[p + 1..];
    assert forall i :: 0 <= i < |s'| ==> s'[i] == if i < p then s[i] else s[i + 1];
    OwnIs(s', ino, a, b - 1);
    CutSlice(s, a, p, b);
    forall x: nat | x != ino ensures Own(s', x) == Own(s, x) {
      RemovedOthers(s, s', ino, p, x);
    }
  }

  lemma RemovedOthers(s: seq<Ext>, s': seq<Ext>, ino: nat, p: nat, x: nat)
    requires Ordered(s) && Low(s, ino) <= p < Low(s, ino + 1) <= |s| && s' == s[..p] + s[p + 1..] && x != ino
    ensures Own(s', x) == Own(s, x)
  {
    hide Low, Own;
    Bounds(s, ino);
    Bounds(s, x);
    OtherBounds(s, ino, x);
    assert forall i :: 0 <= i < |s'| ==> s'[i] == if i < p then s[i] else s[i + 1];
    var lo, hi := Low(s, x), Low(s, x + 1);
    if x < ino {
      OwnIs(s', x, lo, hi);
      CutAfter(s, p, lo, hi);
    } else {
      OwnIs(s', x, lo - 1, hi - 1);
      CutBefore(s, p, lo, hi);
    }
  }

  lemma CutSlice(s: seq<Ext>, a: nat, p: nat, b: nat)
    requires a <= p < b <= |s|
    ensures (s[..p] + s[p + 1..])[a..b - 1] == s[a..b][..p - a] + s[a..b][p - a + 1..]
  {
    var t, u := (s[..p] + s[p + 1..])[a..b - 1], s[a..b][..p - a] + s[a..b][p - a + 1..];
    forall i | 0 <= i < |t| ensures t[i] == u[i] {
      assert t[i] == s[if a + i < p then a + i else a + i + 1];
    }
  }

  lemma CutAfter(s: seq<Ext>, p: nat, lo: nat, hi: nat)
    requires lo <= hi <= p < |s|
    ensures (s[..p] + s[p + 1..])[lo..hi] == s[lo..hi]
  {
  }

  lemma CutBefore(s: seq<Ext>, p: nat, lo: nat, hi: nat)
    requires p < lo <= hi <= |s|
    ensures (s[..p] + s[p + 1..])[lo - 1..hi - 1] == s[lo..hi]
  {
    var t := (s[..p] + s[p + 1..])[lo - 1..hi - 1];
    forall i | 0 <= i < |t| ensures t[i] == s[lo..hi][i] {
      assert t[i] == s[lo + i];
    }
  }

  /** At or behind the last record of an inode, the search ends there; without records, elsewhere. */
  lemma FindsLast(s: seq<Ext>, ino: nat, iblock: nat, pos: nat)
    requires Ordered(s) && s != [] && s[0].ino < ino && ExtAt(s, ino, iblock, pos) && iblock != IBLOCK_DOES_NOT_MATTER
    requires forall x :: x in Own(s, ino) ==> x.iblock <= iblock
    ensures Own(s, ino) == [] ==> s[pos].ino != ino
    ensures Own(s, ino) != [] ==> pos + 1 == Low(s, ino + 1)
  {
    Bounds(s, ino);
    var a, b := Low(s, ino), Low(s, ino + 1);
    forall i | a <= i < b ensures s[i].iblock <= iblock {
      assert s[i] == Own(s, ino)[i - a];
    }
  }

  /** Between two records of an inode, the search ends at the first of them. */
  lemma FindsBetween(s: seq<Ext>, ino: nat, iblock: nat, pos: nat, k: nat)
    requires Ordered(s) && ExtAt(s, ino, iblock, pos) && iblock != IBLOCK_DOES_NOT_MATTER
    requires k < |Own(s, ino)| && Own(s, ino)[k].iblock <= iblock
    requires k + 1 < |Own(s, ino)| ==> iblock < Own(s, ino)[k + 1].iblock
    ensures pos == Low(s, ino) + k && s[pos] == Own(s, ino)[k]
  {
    hide Low, Own;
    Bounds(s, ino);
    var a, b := Low(s, ino), Low(s, ino + 1);
    assert s[a + k] == Own(s, ino)[k];
    assert k + 1 < |Own(s, ino)| ==> s[a + k + 1] == Own(s, ino)[k + 1];
    assert pos == 0 || CompareExt(s[pos], ino, iblock) <= 0;
  }
}
