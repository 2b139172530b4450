/** The blocks of a file in logical order: inline extents, then the records of the overflow tree. */
module MapBlocks {
  import opened MapExtTree

  datatype Extent = Extent(first: nat, count: nat)

  const EXTENTS_COUNT_IN_FORK: nat := 9

  function Range(first: nat, count: nat): (s: seq<nat>)
    ensures |s| == count
  {
    seq(count, i requires 0 <= i < count => first + i)
  }

  /** The blocks of a list of extents. */
  function Blocks(es: seq<Extent>): seq<nat> {
    if es == [] then [] else Blocks(es[..|es| - 1]) + Range(es[|es| - 1].first, es[|es| - 1].count)
  }

  lemma BlocksAppend(es: seq<Extent>, e: Extent)
    ensures Blocks(es + [e]) == Blocks(es) + Range(e.first, e.count)
  {
    assert (es + [e])[..|es|] == es;
  }

  /** The part of the map before extent `k` is a prefix. */
  lemma {:induction false} BlocksPrefix(es: seq<Extent>, k: nat)
    requires k <= |es|
    ensures |Blocks(es[..k])| <= |Blocks(es)| && Blocks(es)[..|Blocks(es[..k])|] == Blocks(es[..k])
    decreases |es|
  {
    if k < |es| {
      var n := |es| - 1;
      BlocksPrefix(es[..n], k);
      assert es[..n][..k] == es[..k];
    } else {
      assert es[..k] == es;
    }
  }

  /** Block `i` of extent `k`. */
  lemma BlockIn(es: seq<Extent>, k: nat, i: nat)
    requires k < |es| && i < es[k].count
    ensures |Blocks(es[..k])| + i < |Blocks(es)| && Blocks(es)[|Blocks(es[..k])| + i] == es[k].first + i
    ensures |Blocks(es[..k + 1])| == |Blocks(es[..k])| + es[k].count
  {
    assert es[..k + 1][..k] == es[..k];
    BlocksPrefix(es, k + 1);
    var a := Blocks(es[..k + 1]);
    assert a[|Blocks(es[..k])| + i] == Range(es[k].first, es[k].count)[i];
    assert Blocks(es)[|Blocks(es[..k])| + i] == Blocks(es)[..|a|][|Blocks(es[..k])| + i];
  }

  lemma LastGrown(es: seq<Extent>, n: nat)
    requires es != []
    ensures var k := |es| - 1; var e := es[k];
            Blocks(es[k := e.(count := e.count + n)]) == Blocks(es) + Range(e.first + e.count, n)
  {
    var k := |es| - 1;
    var e := es[k];
    assert es[k := e.(count := e.count + n)][..k] == es[..k];
    assert Range(e.first, e.count + n) == Range(e.first, e.count) + Range(e.first + e.count, n);
  }

  lemma RangeLength(first: nat, n: nat)
    ensures |Range(first, n)| == n
  {
  }

  lemma Ends(a: seq<nat>, b: seq<nat>, s: seq<nat>)
    requires s == a + b
    ensures |b| <= |s| && s[..|s| - |b|] == a && s[|s| - |b|..] == b
  {
  }

  lemma LastCut(es: seq<Extent>, n: nat)
    requires es != [] && n <= es[|es| - 1].count
    ensures var k := |es| - 1; var e := es[k];
            Blocks(es[k := e.(count := e.count - n)]) == Blocks(es)[..|Blocks(es)| - n]
            && Blocks(es)[|Blocks(es)| - n..] == Range(e.first + e.count - n, n) && n <= |Blocks(es)|
  {
    hide Blocks, Range;
    var k := |es| - 1;
    var e := es[k];
    var es' := es[k := e.(count := e.count - n)];
    LastGrown(es', n);
    assert es'[k := es'[k].(count := es'[k].count + n)] == es;
    RangeLength(e.first + e.count - n, n);
    Ends(Blocks(es'), Range(e.first + e.count - n, n), Blocks(es));
  }

  // The overflow records of one inode.

  ghost function Extents(own: seq<Ext>): seq<Extent> {
    seq(|own|, i requires 0 <= i < |own| => Extent(own[i].begin, own[i].length))
  }

  /** Each record starts where the one before ends, the first at `start`. */
  ghost predicate Chained(own: seq<Ext>, start: nat) {
    forall k :: 0 <= k < |own| ==> own[k].length > 0 && own[k].iblock == start + |Blocks(Extents(own)[..k])|
  }

  /** The whole map. */
  ghost function Map(extents: seq<Extent>, own: seq<Ext>): seq<nat> {
    Blocks(extents) + Blocks(Extents(own))
  }

  ghost predicate FileOk(extents: seq<Extent>, own: seq<Ext>, total: nat) {
    && |extents| <= EXTENTS_COUNT_IN_FORK && (forall i :: 0 <= i < |extents| ==> extents[i].count > 0)
    && Chained(own, |Blocks(extents)|) && (own != [] ==> |extents| == EXTENTS_COUNT_IN_FORK)
    && total == |Map(extents, own)| <= IBLOCK_MAX_NUMBER
  }

  /** The mapped blocks are distinct, and in use. */
  ghost predicate Mapped(m: seq<nat>, bits: seq<bool>) {
    && (forall i :: 0 <= i < |m| ==> 0 < m[i] < |bits| && bits[m[i]])
    && (forall i, j :: 0 <= i < j < |m| ==> m[i] != m[j])
  }

  lemma ChainedAppend(own: seq<Ext>, start: nat, e: Ext)
    requires Chained(own, start) && e.length > 0 && e.iblock == start + |Blocks(Extents(own))|
    ensures Chained(own + [e], start) && Blocks(Extents(own + [e])) == Blocks(Extents(own)) + Range(e.begin, e.length)
  {
    var es := Extents(own);
    assert Extents(own + [e]) == es + [Extent(e.begin, e.length)];
    BlocksAppend(es, Extent(e.begin, e.length));
    forall k | 0 <= k <= |own| ensures Extents(own + [e])[..k] == es[..k] {}
    assert es[..|own|] == es;
  }

  lemma ChainedSet(own: seq<Ext>, start: nat, m: nat)
    requires Chained(own, start) && own != [] && m > 0
    ensures var k := |own| - 1; var own' := own[k := own[k].(length := m)];
            Chained(own', start) && Extents(own') == Extents(own)[k := Extents(own)[k].(count := m)]
  {
    hide Blocks;
    var k := |own| - 1;
    var own' := own[k := own[k].(length := m)];
    forall i | 0 <= i <= k ensures Extents(own')[..i] == Extents(own)[..i] {}
  }

  lemma ChainedGrow(own: seq<Ext>, start: nat, n: nat)
    requires Chained(own, start) && own != []
    ensures var k := |own| - 1; var e := own[k]; var own' := own[k := e.(length := e.length + n)];
            Chained(own', start) && Blocks(Extents(own')) == Blocks(Extents(own)) + Range(e.begin + e.length, n)
  {
    hide Blocks;
    ChainedSet(own, start, own[|own| - 1].length + n);
    LastGrown(Extents(own), n);
  }

  lemma ChainedCut(own: seq<Ext>, start: nat, n: nat)
    requires Chained(own, start) && own != [] && n < own[|own| - 1].length
    ensures var k := |own| - 1; var e := own[k]; var own' := own[k := e.(length := e.length - n)];
            var bs := Blocks(Extents(own));
            Chained(own', start) && n <= |bs| && Blocks(Extents(own')) == bs[..|bs| - n]
            && bs[|bs| - n..] == Range(e.begin + e.length - n, n)
  {
    hide Blocks;
    ChainedSet(own, start, own[|own| - 1].length - n);
    LastCut(Extents(own), n);
  }

  lemma ChainedDrop(own: seq<Ext>, start: nat)
    requires Chained(own, start) && own != []
    ensures var k := |own| - 1; var e := own[k]; var bs := Blocks(Extents(own));
            Chained(own[..k], start) && e.length <= |bs| && Blocks(Extents(own[..k])) == bs[..|bs| - e.length]
            && bs[|bs| - e.length..] == Range(e.begin, e.length) && start + |bs| == e.iblock + e.length
  {
    var k := |own| - 1;
    var es := Extents(own);
    assert Extents(own[..k]) == es[..k];
    forall i | 0 <= i < k ensures Extents(own[..k])[..i] == es[..i] {}
    assert own[k].iblock == start + |Blocks(es[..k])|;
  }

  /** Where the record of a block is. */
  lemma ChainedOrder(own: seq<Ext>, start: nat, k: nat)
    requires Chained(own, start) && k + 1 < |own|
    ensures own[k + 1].iblock == own[k].iblock + own[k].length
  {
    var es := Extents(own);
    BlockIn(es, k, 0);
    assert own[k + 1].iblock == start + |Blocks(es[..k + 1])|;
  }

  lemma ChainedEnd(own: seq<Ext>, start: nat)
    requires Chained(own, start) && own != []
    ensures own[|own| - 1].iblock + own[|own| - 1].length == start + |Blocks(Extents(own))|
  {
    ChainedDrop(own, start);
  }

  lemma ChainedBlock(own: seq<Ext>, start: nat, k: nat, i: nat)
    requires Chained(own, start) && k < |own| && i < own[k].length
    ensures own[k].iblock >= start && own[k].iblock - start + i < |Blocks(Extents(own))|
    ensures Blocks(Extents(own))[own[k].iblock - start + i] == own[k].begin + i
  {
    BlockIn(Extents(own), k, i);
  }

  lemma ChainedBelow(own: seq<Ext>, start: nat)
    requires Chained(own, start)
    ensures forall x :: x in own ==> start <= x.iblock < start + |Blocks(Extents(own))|
  {
    forall x | x in own ensures start <= x.iblock < start + |Blocks(Extents(own))| {
      var k :| 0 <= k < |own| && own[k] == x;
      ChainedBlock(own, start, k, 0);
    }
  }

  /** A new record at the end of the map. */
  lemma AppendRecord(es: seq<Extent>, own: seq<Ext>, total: nat, e: Ext)
    requires FileOk(es, own, total) && |es| == EXTENTS_COUNT_IN_FORK && e.iblock == total && e.length > 0
    requires total + e.length <= IBLOCK_MAX_NUMBER
    ensures FileOk(es, own + [e], total + e.length) && Map(es, own + [e]) == Map(es, own) + Range(e.begin, e.length)
  {
    hide Blocks;
    ChainedAppend(own, |Blocks(es)|, e);
  }

  lemma GrowRecord(es: seq<Extent>, own: seq<Ext>, total: nat, n: nat)
    requires FileOk(es, own, total) && own != [] && total + n <= IBLOCK_MAX_NUMBER
    ensures var k := |own| - 1; var e := own[k]; var own' := own[k := e.(length := e.length + n)];
            FileOk(es, own', total + n) && Map(es, own') == Map(es, own) + Range(e.begin + e.length, n)
  {
    hide Blocks;
    ChainedGrow(own, |Blocks(es)|, n);
  }

  lemma NothingMapped()
    ensures Blocks([]) == [] && Blocks(Extents([])) == []
  {
    assert Extents([]) == [];
  }

  /** From block `r` of extent `k` to its end, the map is one range. */
  lemma ExtentSlice(es: seq<Extent>, k: nat, r: nat)
    requires k < |es| && r < es[k].count
    ensures var a, e := |Blocks(es[..k])|, es[k];
            a + e.count <= |Blocks(es)| && Blocks(es)[a + r..a + e.count] == Range(e.first + r, e.count - r)
  {
    hide Blocks;
    var a, e := |Blocks(es[..k])|, es[k];
    BlockIn(es, k, e.count - 1);
    var x, y := Blocks(es)[a + r..a + e.count], Range(e.first + r, e.count - r);
    forall i | 0 <= i < e.count - r ensures x[i] == y[i] {
      BlockIn(es, k, r + i);
    }
  }

  /** From block `n` of the blocks of `es` to the end of the extent that holds it. */
  function RunLeft(es: seq<Extent>, n: nat): nat {
    if es == [] then 0 else if n < es[0].count then es[0].count - n else RunLeft(es[1..], n - es[0].count)
  }

  lemma {:induction false} RunLeftAt(es: seq<Extent>, k: nat, r: nat)
    requires k < |es| && r < es[k].count
    ensures RunLeft(es, |Blocks(es[..k])| + r) == es[k].count - r
    decreases k
  {
    if k > 0 {
      assert es[..k] == [es[0]] + es[1..][..k - 1];
      BlocksConcat([es[0]], es[1..][..k - 1]);
      assert [es[0]] == [] + [es[0]];
      BlocksAppend([], es[0]);
      RunLeftAt(es[1..], k - 1, r);
    }
  }

  /** The same for a record of the overflow tree. */
  lemma RunLeftRecord(es: seq<Extent>, own: seq<Ext>, k: nat, r: nat)
    requires Chained(own, |Blocks(es)|) && k < |own| && r < own[k].length
    ensures RunLeft(es + Extents(own), own[k].iblock + r) == own[k].length - r
  {
    hide Blocks, RunLeft;
    var all := es + Extents(own);
    assert all[..|es| + k] == es + Extents(own)[..k];
    BlocksConcat(es, Extents(own)[..k]);
    RunLeftAt(all, |es| + k, r);
  }

  lemma InlineSlice(es: seq<Extent>, own: seq<Ext>, k: nat, r: nat)
    requires k < |es| && r < es[k].count
    ensures var a, e := |Blocks(es[..k])|, es[k];
            a + e.count <= |Map(es, own)| && Map(es, own)[a + r..a + e.count] == Range(e.first + r, e.count - r)
  {
    hide Blocks, Range;
    ExtentSlice(es, k, r);
  }

  lemma OverflowSlice(es: seq<Extent>, own: seq<Ext>, k: nat, r: nat)
    requires Chained(own, |Blocks(es)|) && k < |own| && r < own[k].length
    ensures var e := own[k]; var a := e.iblock;
            a + e.length <= |Map(es, own)| && Map(es, own)[a + r..a + e.length] == Range(e.begin + r, e.length - r)
  {
    hide Blocks, Range;
    var a, b := Blocks(es), Blocks(Extents(own));
    ExtentSlice(Extents(own), k, r);
    var x, e := |Blocks(Extents(own)[..k])|, own[k];
    assert (a + b)[|a| + x + r..|a| + x + e.length] == b[x + r..x + e.length];
  }

  /** The record that maps a block of the overflow part. */
  lemma {:induction false} RecordOf(own: seq<Ext>, start: nat, iblock: nat) returns (k: nat)
    requires Chained(own, start) && start <= iblock < start + |Blocks(Extents(own))|
    ensures k < |own| && own[k].iblock <= iblock < own[k].iblock + own[k].length
    ensures k + 1 < |own| ==> iblock < own[k + 1].iblock
    decreases |own|
  {
    hide Blocks;
    NothingMapped();
    var n := |own| - 1;
    ChainedDrop(own, start);
    if own[n].iblock <= iblock {
      k := n;
    } else {
      k := RecordOf(own[..n], start, iblock);
      ChainedOrder(own, start, k);
    }
  }

  // Cutting the end off the map.

  /** The map of `total` blocks ends with `n` blocks from `first` on. */
  ghost predicate EndsWith(m: seq<nat>, first: nat, n: nat) {
    n <= |m| && m[|m| - n..] == Range(first, n)
  }

  lemma DropRecord(es: seq<Extent>, own: seq<Ext>, total: nat)
    requires FileOk(es, own, total) && own != []
    ensures var k := |own| - 1; var e := own[k]; var m := Map(es, own);
            && e.length > 0 && e.iblock + e.length == total && EndsWith(m, e.begin, e.length)
            && FileOk(es, own[..k], total - e.length) && Map(es, own[..k]) == m[..total - e.length]
  {
    hide Blocks, Range;
    var a, b, k := Blocks(es), Blocks(Extents(own)), |own| - 1;
    ChainedDrop(own, |a|);
    var n := own[k].length;
    assert (a + b)[|a + b| - n..] == b[|b| - n..] && (a + b)[..|a + b| - n] == a + b[..|b| - n];
  }

  lemma CutRecord(es: seq<Extent>, own: seq<Ext>, total: nat, n: nat)
    requires FileOk(es, own, total) && own != [] && n < own[|own| - 1].length
    ensures var k := |own| - 1; var e := own[k]; var m := Map(es, own);
            var own' := own[k := e.(length := e.length - n)];
            && EndsWith(m, e.begin + e.length - n, n) && FileOk(es, own', total - n) && Map(es, own') == m[..total - n]
  {
    hide Blocks, Range;
    var a, b := Blocks(es), Blocks(Extents(own));
    ChainedCut(own, |a|, n);
    assert (a + b)[|a + b| - n..] == b[|b| - n..] && (a + b)[..|a + b| - n] == a + b[..|b| - n];
  }

  lemma DropExtent(es: seq<Extent>, total: nat)
    requires FileOk(es, [], total) && es != []
    ensures var k := |es| - 1; var e := es[k]; var m := Map(es, []);
            && e.count > 0 && EndsWith(m, e.first, e.count) && FileOk(es[..k], [], total - e.count)
               && Map(es[..k], []) == m[..total - e.count]
  {
    NothingMapped();
    var k := |es| - 1;
    assert Blocks(es) == Blocks(es[..k]) + Range(es[k].first, es[k].count);
  }

  lemma CutExtent(es: seq<Extent>, total: nat, n: nat)
    requires FileOk(es, [], total) && es != [] && n < es[|es| - 1].count
    ensures var k := |es| - 1; var e := es[k]; var m := Map(es, []); var es' := es[k := e.(count := e.count - n)];
            && EndsWith(m, e.first + e.count - n, n) && FileOk(es', [], total - n) && Map(es', []) == m[..total - n]
  {
    NothingMapped();
    LastCut(es, n);
  }

  lemma {:induction false} BlocksConcat(a: seq<Extent>, b: seq<Extent>)
    ensures Blocks(a + b) == Blocks(a) + Blocks(b)
    decreases |b|
  {
    if b == [] {
      assert a + b == a;
    } else {
      var n := |b| - 1;
      assert (a + b)[..|a| + n] == a + b[..n];
      BlocksConcat(a, b[..n]);
    }
  }

  /** The blocks around record `k`. */
  lemma BlocksAround(own: seq<Ext>, k: nat)
    requires k < |own|
    ensures var a, b := Blocks(Extents(own[..k])), Blocks(Extents(own[k + 1..]));
            && Blocks(Extents(own)) == a + Range(own[k].begin, own[k].length) + b
               && Blocks(Extents(own[..k] + own[k + 1..])) == a + b
  {
    hide Blocks, Range;
    var x, e, y := Extents(own[..k]), Extent(own[k].begin, own[k].length), Extents(own[k + 1..]);
    assert Extents(own) == x + [e] + y && Extents(own[..k] + own[k + 1..]) == x + y;
    BlocksConcat(x + [e], y);
    BlocksAppend(x, e);
    BlocksConcat(x, y);
  }
}
