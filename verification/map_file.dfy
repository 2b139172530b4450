/** The block map of one file: lookup, growth and truncation. */
module MapFile {
  import Bytes
  import FsmExtents
  import opened FsmKeys
  import opened FsmSpace
  import opened FsmBtree
  import opened MapExtTree
  import opened MapBlocks

  datatype Err = OK | ENOSPC | EPERM | BUG

  const CAT_TREE_INO: nat := 2
  const EXTENTS_TREE_INO: nat := 4
  const FIRST_FILE_INO: nat := 10

  /** The bits of the blocks in `gone` are cleared and no others. */
  ghost predicate Released(bits: seq<bool>, bits': seq<bool>, gone: seq<nat>) {
    |bits| == |bits'| && forall b :: 0 <= b < |bits| ==> (bits'[b] <==> bits[b] && b !in gone)
  }

  lemma MappedTake(m: seq<nat>, bits: seq<bool>, first: nat, n: nat)
    requires Mapped(m, bits) && 0 < first && first + n <= |bits| && forall b :: first <= b < first + n ==> !bits[b]
    ensures Mapped(m + Range(first, n), Filled(bits, first, n, true))
  {
    var m' := m + Range(first, n);
    forall i, j | 0 <= i < j < |m'| ensures m'[i] != m'[j] {
      if i < |m| <= j {
        assert bits[m[i]];
      }
    }
  }

  lemma MappedPrefix(m: seq<nat>, bits: seq<bool>, k: nat)
    requires Mapped(m, bits) && k <= |m|
    ensures Mapped(m[..k], bits)
  {
  }

  /** Giving back the last blocks of a map, which are one range. */
  lemma MappedGive(m: seq<nat>, bits: seq<bool>, k: nat, first: nat, n: nat)
    requires Mapped(m, bits) && k + n == |m| && m[k..] == Range(first, n) && n > 0
    ensures 0 < first && first + n <= |bits| && (forall b :: first <= b < first + n ==> bits[b])
    ensures Mapped(m[..k], Filled(bits, first, n, false)) && Released(bits, Filled(bits, first, n, false), m[k..])
  {
    assert forall i :: 0 <= i < n ==> m[k + i] == m[k..][i] == first + i;
    forall b ensures b in m[k..] <==> first <= b < first + n {
      if first <= b < first + n {
        assert m[k..][b - first] == b;
      }
    }
    assert m[k + (n - 1)] == first + n - 1 && m[k] == first;
    forall b | b in m[k..] ensures 0 < b < |bits| && bits[b] {}
    forall i | 0 <= i < k ensures m[i] !in m[k..] {}
  }

  lemma InRange(first: nat, n: nat, x: int)
    ensures x in Range(first, n) <==> first <= x < first + n
  {
    if first <= x < first + n {
      assert Range(first, n)[x - first] == x;
    }
  }

  /** Giving back a range in the middle of a map. */
  lemma MappedCut(a: seq<nat>, first: nat, n: nat, b: seq<nat>, bits: seq<bool>)
    requires Mapped(a + Range(first, n) + b, bits) && n > 0
    ensures 0 < first && first + n <= |bits| && (forall x :: first <= x < first + n ==> bits[x])
    ensures Mapped(a + b, Filled(bits, first, n, false))
            && Released(bits, Filled(bits, first, n, false), Range(first, n))
  {
    var r := Range(first, n);
    var m, m' := a + r + b, a + b;
    forall x ensures x in r <==> first <= x < first + n {
      InRange(first, n, x);
    }
    assert m[|a|] == r[0] == first && m[|a| + n - 1] == r[n - 1] == first + n - 1;
    forall x | x in r ensures 0 < x < |bits| && bits[x] {
      assert x in m;
    }
    forall i | 0 <= i < |m'| ensures m'[i] !in r && m'[i] == m[Around(i, |a|, n)] {
      OutsideRange(a, r, b, bits, i);
    }
    forall i, j | 0 <= i < j < |m'| ensures m'[i] != m'[j] {
      assert m[Around(i, |a|, n)] != m[Around(j, |a|, n)];
    }
  }

  function Around(i: nat, k: nat, n: nat): nat {
    if i < k then i else i + n
  }

  lemma OutsideRange(a: seq<nat>, r: seq<nat>, b: seq<nat>, bits: seq<bool>, i: nat)
    requires Mapped(a + r + b, bits) && i < |a + b|
    ensures (a + b)[i] !in r && (a + b)[i] == (a + r + b)[Around(i, |a|, |r|)]
  {
    var m := a + r + b;
    forall j | 0 <= j < |r| ensures (a + b)[i] != r[j] {
      assert m[|a| + j] == r[j] && m[Around(i, |a|, |r|)] == (a + b)[i];
    }
  }

  lemma ReleasedMore(b0: seq<bool>, b1: seq<bool>, b2: seq<bool>, m: seq<nat>, k: nat, l: nat)
    requires k <= l <= |m| && Released(b0, b1, m[l..]) && Released(b1, b2, m[k..l])
    ensures Released(b0, b2, m[k..])
  {
    assert m[k..] == m[k..l] + m[l..];
  }

  lemma FilledBack(bits: seq<bool>, first: nat, n: nat)
    requires first + n <= |bits| && forall b :: first <= b < first + n ==> !bits[b]
    ensures Filled(Filled(bits, first, n, true), first, n, false) == bits
  {
  }

  /** `val` rounded up to a multiple of `gran`, a power of two. */
  function AlignUp(val: nat, gran: nat): (r: nat)
    requires gran > 0
    ensures val <= r < val + gran && r % gran == 0
  {
    var x := val + gran - 1;
    Bytes.DivUnique(x - x % gran, gran, x / gran, 0);
    x - x % gran
  }

  lemma AlignTwice(val: nat, gran: nat)
    requires gran > 0
    ensures AlignUp(AlignUp(val, gran), gran) == AlignUp(val, gran)
  {
    var x := val + gran - 1;
    var y := x - x % gran;
    Bytes.DivUnique(y + gran - 1, gran, x / gran, gran - 1);
  }

  /** The first request of a file that needs `min` blocks and would like `request`. */
  function First(min: nat, request: nat, gran: nat): (r: nat)
    requires gran > 0
    ensures r >= min
  {
    AlignUp(if request > min then request else min, gran)
  }

  /** The requests made one after the other, each half the one before, until one is below the least chunk or below
      the granularity. */
  function Requests(req: nat, min: nat, gran: nat): (rs: seq<nat>)
    requires gran > 0
    ensures forall r :: r in rs ==> min <= r <= req
  {
    if req < min then []
    else [req] + (if req / 2 < gran then []
                  else HalvedLess(req, gran); Requests(AlignUp(req / 2, gran), min, gran))
  }

  lemma NextRequest(req: nat, min: nat, gran: nat)
    requires gran > 0 && req >= min
    ensures forall r :: r in Requests(req, min, gran) <==>
                          r == req || (req / 2 >= gran && r in Requests(AlignUp(req / 2, gran), min, gran))
  {
    hide AlignUp;
  }

  lemma NoRequest(req: nat, min: nat, gran: nat)
    requires gran > 0 && req < min
    ensures Requests(req, min, gran) == []
  {
  }

  lemma AlignOne(val: nat)
    ensures AlignUp(val, 1) == val
  {
  }

  lemma {:induction false} MultiplesOnly(req: nat, min: nat, gran: nat)
    requires gran > 0 && req % gran == 0
    ensures forall r :: r in Requests(req, min, gran) ==> r % gran == 0
    decreases req
  {
    hide AlignUp;
    if req >= min && req / 2 >= gran {
      HalvedLess(req, gran);
      MultiplesOnly(AlignUp(req / 2, gran), min, gran);
    }
  }

  /** No block in use is given back. */
  ghost predicate Kept(bits: seq<bool>, bits': seq<bool>) {
    |bits| == |bits'| && forall b :: 0 <= b < |bits| && bits[b] ==> bits'[b]
  }

  lemma KeptAll(bits: seq<bool>)
    ensures Kept(bits, bits)
  {
  }

  /** Only a file with a larger wish makes more than one request. */
  lemma OneRequest(min: nat, gran: nat)
    requires gran > 0
    ensures var least := AlignUp(min, gran); var first := First(least, 1, gran); Requests(first, least, gran) == [first]
  {
    AlignTwice(min, gran);
    var least := AlignUp(min, gran);
    var first := First(least, 1, gran);
    if least == 0 {
      Bytes.DivUnique(gran, gran, 1, 0);
    } else if first / 2 >= gran {
      HalvedLess(first, gran);
      NoRequest(AlignUp(first / 2, gran), least, gran);
    }
  }

  class Inode {
    const ino: nat
    const fsm: Fsm
    const ext: ExtTree
    const freeSpaceStart: nat
    /** How many blocks the pages of the space bitmap describe. */
    const bitmapBlocks: nat
    /** The granularity of the metadata, a power of two. */
    const lebBlocks: nat
    var extents: seq<Extent>
    var total: nat

    ghost function BlockMap(): seq<nat>
      reads this, ext
    {
      Map(extents, Own(ext.recs, ino))
    }

    ghost predicate Valid()
      reads this, ext, fsm, fsm.bits, fsm.tree, fsm.tree.repr
    {
      && fsm.Valid() && ext.Valid() && ext.recs[0].ino < ino && lebBlocks > 0
      && FileOk(extents, Own(ext.recs, ino), total) && Mapped(BlockMap(), fsm.bits[..])
    }

    constructor (ino: nat, fsm: Fsm, ext: ExtTree, freeSpaceStart: nat, bitmapBlocks: nat, lebBlocks: nat)
      requires fsm.Valid() && ext.Valid() && ext.recs[0].ino < ino && Own(ext.recs, ino) == [] && lebBlocks > 0
      ensures Valid() && extents == [] && BlockMap() == [] && total == 0 && this.ino == ino && this.fsm == fsm
              && this.ext == ext
      ensures this.freeSpaceStart == freeSpaceStart && this.bitmapBlocks == bitmapBlocks && this.lebBlocks == lebBlocks
    {
      this.ino, this.fsm, this.ext := ino, fsm, ext;
      this.freeSpaceStart, this.bitmapBlocks, this.lebBlocks := freeSpaceStart, bitmapBlocks, lebBlocks;
      extents, total := [], 0;
    }

    /** The place after the file's last inline extent. */
    ghost function Near(): nat
      reads this
    {
      if extents == [] then freeSpaceStart else extents[|extents| - 1].first + extents[|extents| - 1].count
    }

    /** The place after the file's last overflow record. */
    ghost function NearRecord(): nat
      reads this, ext
    {
      var own := Own(ext.recs, ino);
      if own == [] then freeSpaceStart else own[|own| - 1].begin + own[|own| - 1].length
    }

    ghost predicate ForkRefused(n: nat)
      reads this, ext, fsm, fsm.bits, fsm.tree, fsm.tree.repr
      requires Valid()
    {
      Near() + n >= bitmapBlocks || fsm.Refuses(Near(), n)
    }

    /** When `n` blocks more cannot be mapped: the allocator refuses them, or they need an overflow record and there
        is no room for one. The last inline extent and the last record take blocks that follow theirs; a ninth inline
        extent that does not is followed by the first overflow record, which is asked for at the start of the volume. */
    ghost predicate Refused(n: nat, treeFull: bool)
      reads this, ext, fsm, fsm.bits, fsm.tree, fsm.tree.repr
      requires Valid()
    {
      if Own(ext.recs, ino) == [] then
        ForkRefused(n)
        || (|extents| == EXTENTS_COUNT_IN_FORK && !fsm.FreeAt(Near(), n)
            && (treeFull || freeSpaceStart + n >= fsm.totalBlocks))
      else fsm.Refuses(NearRecord(), n) || (treeFull && !fsm.FreeAt(NearRecord(), n))
    }

    /** The tree of overflow records has no overflow records itself: a tenth extent stops the system. */
    ghost predicate Halts(n: nat)
      reads this, ext, fsm, fsm.bits, fsm.tree, fsm.tree.repr
      requires Valid()
    {
      && ino == EXTENTS_TREE_INO && |extents| == EXTENTS_COUNT_IN_FORK
      && (Own(ext.recs, ino) != [] || (!ForkRefused(n) && !fsm.FreeAt(Near(), n)))
    }

    /** `n` blocks more would be mapped. */
    ghost predicate Serves(n: nat, treeFull: bool)
      reads this, ext, fsm, fsm.bits, fsm.tree, fsm.tree.repr
      requires Valid()
    {
      !Halts(n) && !Refused(n, treeFull)
    }

    /** An attempt to map `n` blocks more takes them, finds no room for a record and does not give them back. */
    ghost predicate Loses(n: nat, treeFull: bool)
      reads this, ext, fsm, fsm.bits, fsm.tree, fsm.tree.repr
      requires Valid()
    {
      && treeFull && |extents| == EXTENTS_COUNT_IN_FORK && !Halts(n)
      && if Own(ext.recs, ino) == [] then
           !ForkRefused(n) && !fsm.FreeAt(Near(), n) && freeSpaceStart + n < fsm.totalBlocks
         else !fsm.Refuses(NearRecord(), n) && !fsm.FreeAt(NearRecord(), n)
    }

    /** A failed attempt that loses no blocks leaves the free extents as they are. */
    ghost predicate Calm()
      reads this, ext
    {
      |extents| < EXTENTS_COUNT_IN_FORK || Own(ext.recs, ino) != [] || freeSpaceStart <= Near()
    }

    /** A failed attempt leaves the blocks behind the file free. */
    ghost predicate Safe(treeFull: bool)
      reads this, ext
    {
      |extents| < EXTENTS_COUNT_IN_FORK || Own(ext.recs, ino) != [] || !treeFull
    }

    /** A failed attempt leaves the blocks behind the file as they are, and joins no free extents there. */
    ghost predicate Firm(treeFull: bool)
      reads this, ext
    {
      |extents| < EXTENTS_COUNT_IN_FORK || Own(ext.recs, ino) != [] || (!treeFull && freeSpaceStart <= Near())
    }

    lemma LastInUse()
      requires Valid() && extents != [] && Own(ext.recs, ino) == []
      ensures 0 < Near() <= fsm.bits.Length && fsm.bits[Near() - 1]
    {
      hide Fsm.Valid, Own;
      InlineEnd(extents, total);
      assert BlockMap()[|BlockMap()| - 1] == Near() - 1;
    }

    lemma LastRecordInUse()
      requires Valid() && Own(ext.recs, ino) != []
      ensures 0 < NearRecord() <= fsm.bits.Length && fsm.bits[NearRecord() - 1]
    {
      hide Fsm.Valid, Own;
      RecordEnd(extents, Own(ext.recs, ino), total);
      assert BlockMap()[|BlockMap()| - 1] == NearRecord() - 1;
    }

    /** `cnt` blocks have been taken that no map has. */
    ghost predicate Lost(bits: seq<bool>, cnt: nat)
      reads fsm, fsm.bits
    {
      exists r: nat :: 0 < r && r + cnt <= |bits| && (forall b :: r <= b < r + cnt ==> !bits[b])
          && fsm.bits[..] == Filled(bits, r, cnt, true)
    }

    /** Allocates `bcnt` blocks, after the last extent if they are free there, and maps them inline; if that takes
        an extent too many, the blocks are given back. */
    method ExpandFork(bcnt: nat) returns (err: Err, result: nat)
      requires Valid() && bcnt > 0 && Own(ext.recs, ino) == [] && total + bcnt <= IBLOCK_MAX_NUMBER
      modifies this, fsm, fsm.bits, fsm.tree, fsm.tree.repr
      ensures Valid() && fresh(fsm.tree.repr - old(fsm.tree.repr))
      ensures err == OK ==> total == old(total) + bcnt && BlockMap() == old(BlockMap()) + Range(result, bcnt)
                            && result > 0
      ensures err == OK ==> result + bcnt <= fsm.bits.Length
                            && fsm.bits[..] == Filled(old(fsm.bits[..]), result, bcnt, true)
      ensures err == OK ==> forall b :: result <= b < result + bcnt ==> !old(fsm.bits[..])[b]
      ensures err == OK ==> TakenAt(old(fsm.tree.Contents()), fsm.tree.Contents(), result, bcnt)
      ensures err == OK && old(fsm.FreeAt(Near(), bcnt)) && |old(extents)| < EXTENTS_COUNT_IN_FORK ==>
                result == old(Near())
      ensures err == OK && old(extents) == [] ==> extents == [Extent(result, bcnt)]
      ensures err != OK ==> total == old(total) && extents == old(extents) && fsm.bits[..] == old(fsm.bits[..])
      ensures err != BUG && (err == ENOSPC <==> old(ForkRefused(bcnt)))
      ensures err == EPERM <==>
                !old(ForkRefused(bcnt)) && |old(extents)| == EXTENTS_COUNT_IN_FORK && !old(fsm.FreeAt(Near(), bcnt))
      ensures err == ENOSPC ==> fsm.tree.Contents() == old(fsm.tree.Contents())
      ensures err == EPERM ==> exists k :: k in fsm.tree.Contents() && k.length >= bcnt
      ensures err == EPERM ==> forall m: nat :: old(fsm.FreeAt(Near(), m)) ==> fsm.FreeAt(Near(), m)
    {
      hide Fsm.Valid, Fsm.FreeAt, TakenAt, Btree.Valid, Btree.Contents, Own, Mapped, Map, FileOk, Range;
      NoBlocks(extents, total);
      err, result := OK, 0;
      if total == 0 && |extents| == 0 {
        if freeSpaceStart + bcnt >= bitmapBlocks {
          return ENOSPC, 0;
        }
        result := Take(freeSpaceStart, bcnt);
        if result == 0 {
          return ENOSPC, 0;
        }
        AppendExtent(extents, Extent(result, bcnt), total);
        assert extents + [Extent(result, bcnt)] == [Extent(result, bcnt)];
        extents := [Extent(result, bcnt)];
      } else {
        LastInUse();
        var last := |extents| - 1;
        var offset := extents[last].first + extents[last].count;
        if offset + bcnt >= fsm.totalBlocks || offset + bcnt >= bitmapBlocks {
          return ENOSPC, 0;
        }
        result := Take(offset, bcnt);
        if result == 0 {
          return ENOSPC, 0;
        }
        if result == offset {
          GrowExtent(extents, bcnt, total);
          extents := extents[last := extents[last].(count := extents[last].count + bcnt)];
        } else {
          if |extents| >= EXTENTS_COUNT_IN_FORK {
            GiveBack(result, bcnt, old(fsm.bits[..]));
            return EPERM, 0;
          }
          AppendExtent(extents, Extent(result, bcnt), total);
          extents := extents + [Extent(result, bcnt)];
        }
      }
      total := total + bcnt;
    }

    /** Allocates blocks that the file does not map yet. */
    method Take(start: nat, n: nat) returns (r: nat)
      requires Valid() && n > 0
      modifies fsm, fsm.bits, fsm.tree, fsm.tree.repr
      ensures Valid() && fresh(fsm.tree.repr - old(fsm.tree.repr))
      ensures r == 0 <==> old(fsm.Refuses(start, n))
      ensures r == 0 ==> fsm.bits[..] == old(fsm.bits[..]) && fsm.tree.Contents() == old(fsm.tree.Contents())
      ensures r != 0 ==> (r == start <==> old(fsm.FreeAt(start, n))) && old(fsm.FreeAt(r, n))
      ensures r != 0 ==> forall at: nat, m: nat :: 0 < at <= fsm.bits.Length && old(fsm.bits[..])[at - 1] && at != r ==>
                                                     (fsm.FreeAt(at, m) <==> old(fsm.FreeAt(at, m)))
      ensures r != 0 ==> TakenAt(old(fsm.tree.Contents()), fsm.tree.Contents(), r, n)
      ensures r != 0 ==> r + n <= fsm.bits.Length && fsm.bits[..] == Filled(old(fsm.bits[..]), r, n, true)
      ensures r != 0 ==> Mapped(BlockMap() + Range(r, n), fsm.bits[..])
                         && forall b :: r <= b < r + n ==> !old(fsm.bits[..])[b]
    {
      hide Fsm.Valid, Btree.Valid, Btree.Contents, Blocks, Own, TakenAt, StartsAt;
      fsm.ItsExtents();
      ghost var bits, s := fsm.bits[..], fsm.tree.Contents();
      r := fsm.GetFreeBlock(start, n);
      if r != 0 {
        Elsewhere(s, fsm.tree.Contents(), bits, r, n);
        MappedTake(BlockMap(), bits, r, n);
        MappedPrefix(BlockMap() + Range(r, n), fsm.bits[..], |BlockMap()|);
        assert (BlockMap() + Range(r, n))[..|BlockMap()|] == BlockMap();
      }
    }

    /** Allocates `cnt` blocks and maps them in the overflow tree: in the file's last record if they follow its
        blocks, else in a new one, for which `treeFull` says there is no room. The caller counts them. */
    method ExttreeAddBlock(cnt: nat, treeFull: bool) returns (rc: nat)
      requires Valid() && cnt > 0 && |extents| == EXTENTS_COUNT_IN_FORK && total + cnt <= IBLOCK_MAX_NUMBER
      modifies ext, fsm, fsm.bits, fsm.tree, fsm.tree.repr
      ensures fresh(fsm.tree.repr - old(fsm.tree.repr)) && OthersKept(old(ext.recs), ext.recs, ino)
      ensures rc == 0 ==> Valid() && ext.recs == old(ext.recs)
      ensures rc == 0 <==> old(fsm.Refuses(NearRecord(), cnt))
                           || (treeFull && !old(Own(ext.recs, ino) != [] && fsm.FreeAt(NearRecord(), cnt)))
      ensures old(fsm.Refuses(NearRecord(), cnt)) ==> fsm.bits[..] == old(fsm.bits[..])
                                                      && fsm.tree.Contents() == old(fsm.tree.Contents())
      ensures rc == 0 && !old(fsm.Refuses(NearRecord(), cnt)) ==> Lost(old(fsm.bits[..]), cnt)
      ensures rc == 0 ==>
                forall at: nat, m: nat ::
                  0 < at <= fsm.bits.Length && old(fsm.bits[..])[at - 1] && !old(fsm.FreeAt(at, cnt)) ==>
                    (fsm.FreeAt(at, m) <==> old(fsm.FreeAt(at, m)))
      ensures rc != 0 ==> Grown(old(BlockMap()), rc, cnt, old(fsm.bits[..]), total + cnt)
    {
      hide Fsm.Valid, TakenAt, StartsAt, Filled, OthersKept, Btree.Valid, Btree.Contents, Own, Mapped, Map, FileOk,
           Range;
      SameOthers(ext.recs, ino);
      var pos := FindExt(ext.recs, ino, total);
      ghost var own := Own(ext.recs, ino);
      RecordsBelow(ext.recs, ino, extents, total);
      FindsLast(ext.recs, ino, total, pos);
      var record := ext.recs[pos];
      if record.ino == ino {
        OwnSet(ext.recs, ino, record.length + cnt);
        var next := record.begin + record.length;
        rc := Take(next, cnt);
        if rc == 0 {
          return;
        }
        if rc == next {
          GrowRecord(extents, own, total, cnt);
          ext.SetLength(pos, record.length + cnt);
        } else {
          rc := AddRecord(rc, cnt, treeFull, old(fsm.bits[..]));
        }
      } else {
        NotOwned(ext.recs, ino, pos);
        rc := Take(freeSpaceStart, cnt);
        if rc == 0 {
          return;
        }
        rc := AddRecord(rc, cnt, treeFull, old(fsm.bits[..]));
      }
    }

    /** The map has grown by `cnt` blocks from `first` on, which were free. */
    ghost predicate Grown(m: seq<nat>, first: nat, cnt: nat, bits: seq<bool>, total': nat)
      reads this, ext, fsm, fsm.bits, fsm.tree, fsm.tree.repr
    {
      && fsm.Valid() && ext.Valid() && ext.recs[0].ino < ino && FileOk(extents, Own(ext.recs, ino), total')
      && Mapped(BlockMap(), fsm.bits[..]) && BlockMap() == m + Range(first, cnt) && first > 0
      && first + cnt <= |bits| && fsm.bits[..] == Filled(bits, first, cnt, true)
      && forall b :: first <= b < first + cnt ==> !bits[b]
    }

    method AddRecord(first: nat, cnt: nat, treeFull: bool, ghost bits: seq<bool>) returns (rc: nat)
      requires Valid() && cnt > 0 && |extents| == EXTENTS_COUNT_IN_FORK && total + cnt <= IBLOCK_MAX_NUMBER && first > 0
      requires first + cnt <= |bits| && fsm.bits[..] == Filled(bits, first, cnt, true)
      requires Mapped(BlockMap() + Range(first, cnt), fsm.bits[..]) && forall b :: first <= b < first + cnt ==> !bits[b]
      modifies ext
      ensures OthersKept(old(ext.recs), ext.recs, ino)
      ensures (rc == 0 <==> treeFull) && (rc == 0 ==> Valid() && ext.recs == old(ext.recs))
      ensures rc != 0 ==> rc == first && Grown(old(BlockMap()), rc, cnt, bits, total + cnt)
    {
      hide Fsm.Valid, Btree.Valid, Btree.Contents, Own, Mapped, Map, FileOk, Range, Ordered, AddedAt, Filled,
           OthersKept;
      if treeFull {
        SameOthers(ext.recs, ino);
        return 0;
      }
      rc := first;
      ghost var s, own := ext.recs, Own(ext.recs, ino);
      RecordsBelow(s, ino, extents, total);
      var e := Ext(ino, total, first, cnt);
      AppendRecord(extents, own, total, e);
      ext.Insert(e);
      ghost var h :| AddedAt(s, ext.recs, e, h);
      OwnAdded(s, ext.recs, e, h);
    }

    /** Maps `blkCnt` new blocks at the end of the file and returns the one for `iblock`, or 0. */
    method FindNewBlock(iblock: nat, blkCnt: nat, treeFull: bool) returns (rc: nat, bug: bool, ghost first: nat)
      requires Valid() && blkCnt > 0 && iblock >= total && total + blkCnt <= IBLOCK_MAX_NUMBER
      modifies this, ext, fsm, fsm.bits, fsm.tree, fsm.tree.repr
      ensures Valid() && fresh(fsm.tree.repr - old(fsm.tree.repr)) && OthersKept(old(ext.recs), ext.recs, ino)
      ensures bug <==> old(Halts(blkCnt))
      ensures rc != 0 <==> old(Serves(blkCnt, treeFull))
      ensures rc == 0 ==> total == old(total) && extents == old(extents) && ext.recs == old(ext.recs)
      ensures rc == 0 && !old(Loses(blkCnt, treeFull)) ==> fsm.bits[..] == old(fsm.bits[..])
      ensures old(Loses(blkCnt, treeFull)) ==> rc == 0 && Lost(old(fsm.bits[..]), blkCnt)
      ensures rc == 0 && !bug && old(Calm()) && !old(Loses(blkCnt, treeFull)) ==>
                fsm.tree.Contents() == old(fsm.tree.Contents())
      ensures rc == 0 && !bug && old(Safe(treeFull)) ==>
                forall n: nat :: n <= blkCnt && old(Serves(n, treeFull)) ==> Serves(n, treeFull)
      ensures rc == 0 && !bug && old(Firm(treeFull)) ==>
                forall n: nat :: n <= blkCnt && Serves(n, treeFull) ==> old(Serves(n, treeFull))
      ensures rc != 0 ==> rc == first + (iblock - old(total)) && total == old(total) + blkCnt
      ensures rc != 0 ==> Grown(old(BlockMap()), first, blkCnt, old(fsm.bits[..]), total)
    {
      hide Fsm.Valid, Fsm.FreeAt, Fsm.Refuses, Btree.Valid, Btree.Contents, Own, Mapped, Map, FileOk, Range, Lost;
      var delta := iblock - total;
      var err := OK;
      rc, bug, first := 0, false, 0;
      InlineOnly(extents, Own(ext.recs, ino), total);
      SameOthers(ext.recs, ino);
      if |extents| < EXTENTS_COUNT_IN_FORK {
        err, rc := ExpandFork(blkCnt);
        if err != OK {
          SameServes(treeFull);
        }
      } else {
        var offset := SumExtents();
        if offset == total {
          err, rc, bug := FullFork(blkCnt, treeFull);
        } else if ino == EXTENTS_TREE_INO {
          bug := true;
        } else {
          rc := Overflow(blkCnt, treeFull);
        }
      }
      if err != OK || rc == 0 {
        return 0, bug, 0;
      }
      rc, first := rc + delta, rc;
    }

    /** A file with overflow records gets further blocks there. */
    method Overflow(blkCnt: nat, treeFull: bool) returns (rc: nat)
      requires Valid() && blkCnt > 0 && total + blkCnt <= IBLOCK_MAX_NUMBER && Own(ext.recs, ino) != []
      requires |extents| == EXTENTS_COUNT_IN_FORK && ino != EXTENTS_TREE_INO
      modifies this`total, ext, fsm, fsm.bits, fsm.tree, fsm.tree.repr
      ensures Valid() && fresh(fsm.tree.repr - old(fsm.tree.repr)) && OthersKept(old(ext.recs), ext.recs, ino)
      ensures rc != 0 <==> old(Serves(blkCnt, treeFull))
      ensures rc == 0 ==> total == old(total) && ext.recs == old(ext.recs)
      ensures rc == 0 && !old(Loses(blkCnt, treeFull)) ==>
                fsm.bits[..] == old(fsm.bits[..]) && fsm.tree.Contents() == old(fsm.tree.Contents())
      ensures old(Loses(blkCnt, treeFull)) ==> rc == 0 && Lost(old(fsm.bits[..]), blkCnt)
      ensures rc == 0 ==> forall n: nat :: Serves(n, treeFull) == old(Serves(n, treeFull))
      ensures rc != 0 ==> total == old(total) + blkCnt && Grown(old(BlockMap()), rc, blkCnt, old(fsm.bits[..]), total)
    {
      hide Fsm.Valid, Fsm.FreeAt, Btree.Valid, Btree.Contents, Own, Mapped, Map, FileOk, Range, Lost;
      LastRecordInUse();
      rc := ExttreeAddBlock(blkCnt, treeFull);
      if rc != 0 {
        total := total + blkCnt;
      } else if old(fsm.Refuses(NearRecord(), blkCnt)) {
        SameServes(treeFull);
      } else {
        AfterLoss();
      }
    }

    /** A file with nine inline extents gets blocks behind the last one, or else in a first overflow record. */
    method FullFork(blkCnt: nat, treeFull: bool) returns (err: Err, rc: nat, bug: bool)
      requires Valid() && blkCnt > 0 && total + blkCnt <= IBLOCK_MAX_NUMBER && Own(ext.recs, ino) == []
      requires |extents| == EXTENTS_COUNT_IN_FORK
      modifies this, ext, fsm, fsm.bits, fsm.tree, fsm.tree.repr
      ensures Valid() && fresh(fsm.tree.repr - old(fsm.tree.repr)) && OthersKept(old(ext.recs), ext.recs, ino)
      ensures bug <==> old(Halts(blkCnt))
      ensures err == OK && rc != 0 <==> old(Serves(blkCnt, treeFull))
      ensures err != OK || rc == 0 ==> total == old(total) && extents == old(extents) && ext.recs == old(ext.recs)
      ensures (err != OK || rc == 0) && !old(Loses(blkCnt, treeFull)) ==> fsm.bits[..] == old(fsm.bits[..])
      ensures old(Loses(blkCnt, treeFull)) ==> err == OK && rc == 0 && Lost(old(fsm.bits[..]), blkCnt)
      ensures (err != OK || rc == 0) && !bug && old(Calm()) && !old(Loses(blkCnt, treeFull)) ==>
                fsm.tree.Contents() == old(fsm.tree.Contents())
      ensures (err != OK || rc == 0) && !bug && old(Safe(treeFull)) ==>
                forall n: nat :: n <= blkCnt && old(Serves(n, treeFull)) ==> Serves(n, treeFull)
      ensures (err != OK || rc == 0) && !bug && old(Firm(treeFull)) ==>
                forall n: nat :: n <= blkCnt && Serves(n, treeFull) ==> old(Serves(n, treeFull))
      ensures err == OK && rc != 0 ==>
                total == old(total) + blkCnt && Grown(old(BlockMap()), rc, blkCnt, old(fsm.bits[..]), total)
    {
      hide Fsm.Valid, StartsAt, Btree.Valid, Btree.Contents, Own, Mapped, Map, FileOk, Range, Lost;
      LastInUse();
      SameOthers(ext.recs, ino);
      bug := false;
      err, rc := ExpandFork(blkCnt);
      if err == ENOSPC {
        SameServes(treeFull);
      } else if err == EPERM {
        err, rc := OK, 0;
        if ino == EXTENTS_TREE_INO {
          bug := true;
        } else {
          rc := ExttreeAddBlock(blkCnt, treeFull);
          if rc != 0 {
            total := total + blkCnt;
          } else if !treeFull {
            AfterGiving(blkCnt);
          }
        }
      }
    }

    /** With a full tree only blocks right behind the last record count, and these are not touched. */
    twostate lemma AfterLoss()
      requires old(Valid()) && Valid() && extents == old(extents) && ext.recs == old(ext.recs)
               && Own(ext.recs, ino) != []
      requires forall m: nat :: fsm.FreeAt(NearRecord(), m) == old(fsm.FreeAt(NearRecord(), m))
      ensures forall n: nat :: Serves(n, true) <==> old(Serves(n, true))
    {
      hide Fsm.Valid, Btree.Valid, Btree.Contents, Own, Mapped, Map, FileOk;
    }

    /** Blocks behind the last inline extent stay free, and there is still an extent of the size given back. */
    twostate lemma AfterGiving(blkCnt: nat)
      requires old(Valid()) && Valid() && extents == old(extents) && ext.recs == old(ext.recs)
               && Own(ext.recs, ino) == []
      requires |extents| == EXTENTS_COUNT_IN_FORK && ino != EXTENTS_TREE_INO
      requires forall m: nat :: old(fsm.FreeAt(Near(), m)) ==> fsm.FreeAt(Near(), m)
      requires exists k :: k in fsm.tree.Contents() && k.length >= blkCnt
      ensures forall n: nat :: n <= blkCnt && old(Serves(n, false)) ==> Serves(n, false)
    {
      hide Fsm.Valid, Btree.Valid, Btree.Contents, Own, Mapped, Map, FileOk;
    }

    /** The number of blocks in the inline extents. */
    method SumExtents() returns (n: nat)
      ensures n == |Blocks(extents)|
    {
      n := 0;
      var i := 0;
      while i < |extents|
        invariant i <= |extents| && n == |Blocks(extents[..i])|
      {
        assert extents[..i + 1] == extents[..i] + [extents[i]];
        BlocksAppend(extents[..i], extents[i]);
        n := n + extents[i].count;
        i := i + 1;
      }
      assert extents[..i] == extents;
    }

    // How far the file is to grow.

    function Gran(): nat {
      if ino < FIRST_FILE_INO then lebBlocks else 1
    }

    function TreeStep(): nat {
      fsm.totalBlocks / 128
    }

    /** The least growth asked for: up to the block, but a fixed step for the tree of overflow records. */
    function Least(iblock: nat): nat
      requires lebBlocks > 0 && iblock >= total
      reads this
    {
      AlignUp(if ino == EXTENTS_TREE_INO then TreeStep() else iblock - total + 1, Gran())
    }

    /** What is asked for at first: the least growth, but a step at least for the catalog tree. */
    function Wanted(iblock: nat): nat
      requires lebBlocks > 0 && iblock >= total
      reads this
    {
      First(Least(iblock), if ino == CAT_TREE_INO then TreeStep() else 1, Gran())
    }

    function Tries(iblock: nat): seq<nat>
      requires lebBlocks > 0 && iblock >= total
      reads this
    {
      Requests(Wanted(iblock), Least(iblock), Gran())
    }

    /** What is asked for at first, in so many words: a file gets up to the block; metadata are extended by erase
        blocks, the catalog tree and the tree of overflow records by a 128th of the volume. */
    lemma WantedSize(iblock: nat)
      requires lebBlocks > 0 && iblock >= total
      ensures ino >= FIRST_FILE_INO ==> total + Wanted(iblock) == iblock + 1
      ensures ino < FIRST_FILE_INO ==>
                var need := if ino == EXTENTS_TREE_INO then 1 else iblock - total + 1;
                var step := if ino == CAT_TREE_INO || ino == EXTENTS_TREE_INO then fsm.totalBlocks / 128 else 0;
                Wanted(iblock) % lebBlocks == 0 && need <= Wanted(iblock) && step <= Wanted(iblock)
                && (Wanted(iblock) < need + lebBlocks || Wanted(iblock) < step + lebBlocks)
      ensures ino != EXTENTS_TREE_INO ==>
                iblock - total < Least(iblock) < iblock - total + 1 + lebBlocks && Least(iblock) <= Wanted(iblock)
      ensures forall r :: r in Tries(iblock) ==> r % Gran() == 0
    {
      hide AlignUp, Requests;
      var least, gran := Least(iblock), Gran();
      var min := if ino == EXTENTS_TREE_INO then TreeStep() else iblock - total + 1;
      AlignTwice(min, gran);
      if ino >= FIRST_FILE_INO {
        AlignOne(min);
      }
      MultiplesOnly(Wanted(iblock), least, gran);
    }

    lemma OneTry(iblock: nat)
      requires lebBlocks > 0 && iblock >= total && ino != CAT_TREE_INO
      ensures Tries(iblock) == [Wanted(iblock)]
    {
      OneRequest(if ino == EXTENTS_TREE_INO then TreeStep() else iblock - total + 1, Gran());
    }

    /** The requests that would be served. */
    ghost function Served(iblock: nat, treeFull: bool): set<nat>
      reads this, ext, fsm, fsm.bits, fsm.tree, fsm.tree.repr
      requires Valid() && iblock >= total
    {
      set r | r in Tries(iblock) && Serves(r, treeFull)
    }

    /** The requests that would take blocks for nothing. */
    ghost function Losing(iblock: nat, treeFull: bool): set<nat>
      reads this, ext, fsm, fsm.bits, fsm.tree, fsm.tree.repr
      requires Valid() && iblock >= total
    {
      set r | r in Tries(iblock) && Loses(r, treeFull)
    }

    /** There are enough free blocks, and one of the requests would be served. */
    ghost predicate Grows(iblock: nat, treeFull: bool)
      reads this, ext, fsm, fsm.bits, fsm.tree, fsm.tree.repr
      requires Valid() && iblock >= total
    {
      Least(iblock) <= fsm.freeBlocks && Served(iblock, treeFull) != {}
    }

    /** There are enough free blocks, and one of the requests would take blocks for nothing. */
    ghost predicate Leaks(iblock: nat, treeFull: bool)
      reads this, ext, fsm, fsm.bits, fsm.tree, fsm.tree.repr
      requires Valid() && iblock >= total
    {
      Least(iblock) <= fsm.freeBlocks && Losing(iblock, treeFull) != {}
    }

    /** Grows the file for block `iblock`, asking for half as many blocks while that fails, and returns the block
        that lies as far behind the first new one as `iblock` behind the old end. */
    method ExpandFile(iblock: nat, treeFull: bool) returns (err: Err, resBlock: nat, ghost first: nat)
      requires Valid() && iblock >= total && total + Wanted(iblock) <= IBLOCK_MAX_NUMBER
      modifies this, ext, fsm, fsm.bits, fsm.tree, fsm.tree.repr
      ensures Valid() && OthersKept(old(ext.recs), ext.recs, ino)
      ensures err == OK || err == ENOSPC || err == BUG
      ensures err == BUG <==> old(Least(iblock) <= fsm.freeBlocks && Halts(Wanted(iblock)))
      ensures old(Grows(iblock, treeFull)) && (ino != CAT_TREE_INO || old(Safe(treeFull))) ==> err == OK
      ensures err == OK && (ino != CAT_TREE_INO || old(Firm(treeFull))) ==> old(Grows(iblock, treeFull))
      ensures err == OK && (ino != CAT_TREE_INO || old(Safe(treeFull))) ==>
                forall r :: r in old(Served(iblock, treeFull)) ==> r <= total - old(total)
      ensures err == OK ==>
                var n := total - old(total);
                && n in old(Tries(iblock)) && Enlarged(old(BlockMap()), first, n, old(fsm.bits[..]))
                && resBlock == first + (iblock - old(total))
      ensures err == OK && iblock < total ==> resBlock == BlockMap()[iblock]
      ensures err == OK && ino != EXTENTS_TREE_INO ==> iblock < total
      ensures err == OK && ino == EXTENTS_TREE_INO ==> total == old(total) + old(Wanted(iblock))
      ensures err == OK && ino >= FIRST_FILE_INO ==> total == iblock + 1
      ensures err == OK && ino < FIRST_FILE_INO ==> (total - old(total)) % lebBlocks == 0
      ensures err == OK && ino < FIRST_FILE_INO && ino != CAT_TREE_INO && ino != EXTENTS_TREE_INO ==>
                iblock < total < iblock + 1 + lebBlocks
      ensures err != OK ==> total == old(total) && extents == old(extents) && ext.recs == old(ext.recs)
      ensures Kept(old(fsm.bits[..]), fsm.bits[..]) && (err != OK && !treeFull ==> fsm.bits[..] == old(fsm.bits[..]))
      ensures err != OK && old(Calm()) ==> (fsm.bits[..] != old(fsm.bits[..]) <==> old(Leaks(iblock, treeFull)))
      ensures err == ENOSPC && !treeFull && old(Calm()) ==> fsm.tree.Contents() == old(fsm.tree.Contents())
    {
      hide Fsm.Valid, Btree.Valid, Btree.Contents, Own, Mapped, Map, FileOk, Range, OthersKept;
      hide Halts, Serves, Loses, Calm, Firm, Safe, Requests, Kept, Least, Wanted, Tries;
      SameOthers(ext.recs, ino);
      KeptAll(fsm.bits[..]);
      RequestSizes(iblock);
      WantedSize(iblock);
      err, resBlock, first := ENOSPC, 0, 0;
      if Least(iblock) <= fsm.freeBlocks {
        MapLength(extents, Own(ext.recs, ino), total);
        err, resBlock, first := ExpandBy(iblock, Least(iblock), Wanted(iblock), treeFull, Served(iblock, treeFull),
                                         Losing(iblock, treeFull));
        if err == OK && iblock < total {
          MapGrown(old(BlockMap()), first, total - old(total), iblock, old(total));
        }
      }
    }

    /** Asks for `wanted` blocks, and for half as many while that fails, but not for less than `expandMin`. */
    method ExpandBy(iblock: nat, expandMin: nat, wanted: nat, treeFull: bool, ghost served: set<nat>,
                    ghost losing: set<nat>)
        returns (err: Err, resBlock: nat, ghost first: nat)
      requires Valid() && iblock >= total && 0 < wanted <= IBLOCK_MAX_NUMBER - total && expandMin <= wanted
      requires ino != CAT_TREE_INO ==> Requests(wanted, expandMin, Gran()) == [wanted]
      requires forall r :: r in served <==> r in Requests(wanted, expandMin, Gran()) && Serves(r, treeFull)
      requires forall r :: r in losing <==> r in Requests(wanted, expandMin, Gran()) && Loses(r, treeFull)
      modifies this, ext, fsm, fsm.bits, fsm.tree, fsm.tree.repr
      ensures Valid() && OthersKept(old(ext.recs), ext.recs, ino)
      ensures (err == OK || err == ENOSPC || err == BUG) && (err == BUG <==> old(Halts(wanted)))
      ensures ino != CAT_TREE_INO || old(Safe(treeFull)) ==>
                (served != {} ==> err == OK) && (err == OK ==> forall r :: r in served ==> r <= total - old(total))
      ensures err == OK && (ino != CAT_TREE_INO || old(Firm(treeFull))) ==> served != {}
      ensures err == OK ==> total - old(total) in Requests(wanted, expandMin, Gran())
      ensures err == OK ==> Enlarged(old(BlockMap()), first, total - old(total), old(fsm.bits[..]))
      ensures err == OK ==> resBlock == first + (iblock - old(total))
      ensures err != OK ==> total == old(total) && extents == old(extents) && ext.recs == old(ext.recs)
      ensures Kept(old(fsm.bits[..]), fsm.bits[..]) && (err != OK && !treeFull ==> fsm.bits[..] == old(fsm.bits[..]))
      ensures err != OK && old(Calm()) ==> (fsm.bits[..] != old(fsm.bits[..]) <==> losing != {})
      ensures err == ENOSPC && !treeFull && old(Calm()) ==> fsm.tree.Contents() == old(fsm.tree.Contents())
    {
      hide Fsm.Valid, Btree.Valid, Btree.Contents, Own, Mapped, Map, FileOk, Range, Filled, AlignUp, OthersKept;
      hide Refused, Halts, Serves, Loses, Calm, Firm, Safe, Lost, Requests, Kept, Grown, Enlarged;
      SameOthers(ext.recs, ino);
      KeptAll(fsm.bits[..]);
      err, resBlock, first := ENOSPC, 0, 0;
      var gran, expandReq := Gran(), wanted;
      ghost var tries, bits0, s0 := Requests(wanted, expandMin, gran), fsm.bits[..], fsm.tree.Contents();
      ghost var safe, firm, calm, lost := Safe(treeFull), Firm(treeFull), Calm(), false;
      while expandReq >= expandMin
        invariant Valid() && total == old(total) && extents == old(extents) && ext.recs == old(ext.recs)
                  && err == ENOSPC
        invariant fresh(fsm.tree.repr - old(fsm.tree.repr)) && 0 < expandReq <= wanted
        invariant forall r :: r in Requests(expandReq, expandMin, gran) <==> r in tries && r <= expandReq
        invariant expandReq == wanted ==> fsm.tree.Contents() == s0
        invariant expandReq < wanted ==> !old(Halts(wanted)) && wanted !in served
        invariant safe ==> forall r :: r in served ==> r <= expandReq && Serves(r, treeFull)
        invariant firm ==> forall r :: r in tries && r <= expandReq && Serves(r, treeFull) ==> r in served
        invariant Kept(bits0, fsm.bits[..]) && (lost <==> fsm.bits[..] != bits0) && (lost ==> treeFull)
        invariant calm && !lost ==> fsm.tree.Contents() == s0 && forall r :: r in losing ==> r <= expandReq
        invariant calm && lost ==> losing != {}
        decreases expandReq
      {
        NextRequest(expandReq, expandMin, gran);
        Ends(treeFull);
        if fsm.tree.Contents() == s0 {
          SameServes(treeFull);
        }
        NotLost(expandReq, treeFull);
        ghost var bits, loses := fsm.bits[..], Loses(expandReq, treeFull);
        assert expandReq in tries && (ino != CAT_TREE_INO ==> expandReq == wanted);
        assert (firm || ino != CAT_TREE_INO) && Serves(expandReq, treeFull) ==> expandReq in served;
        assert calm && !lost && loses ==> expandReq in losing;
        var bug;
        resBlock, bug, first := FindNewBlock(iblock, expandReq, treeFull);
        if bug {
          return BUG, 0, 0;
        }
        if resBlock != 0 {
          GrownSince(old(BlockMap()), first, expandReq, bits0, bits);
          return OK, resBlock, first;
        }
        if loses {
          LostSince(bits0, bits, expandReq);
          lost := true;
        }
        if expandReq / 2 < gran {
          return ENOSPC, 0, 0;
        }
        HalvedLess(expandReq, gran);
        expandReq := AlignUp(expandReq / 2, gran);
      }
      NoRequest(expandReq, expandMin, gran);
    }

    /** The map has grown by `n` blocks from `first` on, which were free. */
    ghost predicate Enlarged(m: seq<nat>, first: nat, n: nat, bits: seq<bool>)
      reads this, ext
    {
      && BlockMap() == m + Range(first, n)
      && first + n <= |bits| && forall b :: first <= b < first + n ==> !bits[b]
    }

    /** Whether blocks are mapped or lost depends on the map's ends and the free extents. */
    twostate lemma SameServes(treeFull: bool)
      requires old(Valid()) && Valid() && extents == old(extents) && ext.recs == old(ext.recs)
      requires fsm.tree.Contents() == old(fsm.tree.Contents())
      ensures forall r: nat :: Serves(r, treeFull) <==> old(Serves(r, treeFull))
      ensures forall r: nat :: Loses(r, treeFull) <==> old(Loses(r, treeFull))
      ensures forall r: nat :: Halts(r) <==> old(Halts(r))
      ensures Firm(treeFull) == old(Firm(treeFull)) && Calm() == old(Calm()) && Safe(treeFull) == old(Safe(treeFull))
    {
      hide Fsm.Valid, Btree.Valid, Btree.Contents, Own, Mapped, Map, FileOk;
    }

    twostate lemma Ends(treeFull: bool)
      requires extents == old(extents) && ext.recs == old(ext.recs)
      ensures Firm(treeFull) == old(Firm(treeFull)) && Calm() == old(Calm()) && Safe(treeFull) == old(Safe(treeFull))
    {
      hide Own;
    }

    lemma NotLost(n: nat, treeFull: bool)
      requires Valid()
      ensures Loses(n, treeFull) ==> treeFull
      ensures Halts(n) ==> ino == EXTENTS_TREE_INO && !Loses(n, treeFull) && !Serves(n, treeFull)
    {
      hide Fsm.Valid, Own, Mapped, Map, FileOk, Refused;
    }

    lemma LostSince(bits0: seq<bool>, bits: seq<bool>, n: nat)
      requires Kept(bits0, bits) && Lost(bits, n) && n > 0
      ensures Kept(bits0, fsm.bits[..]) && fsm.bits[..] != bits0
    {
      var r: nat :| 0 < r && r + n <= |bits| && (forall b :: r <= b < r + n ==> !bits[b])
          && fsm.bits[..] == Filled(bits, r, n, true);
      assert fsm.bits[..][r] && !bits0[r];
    }

    lemma GrownSince(m: seq<nat>, first: nat, n: nat, bits0: seq<bool>, bits: seq<bool>)
      requires Kept(bits0, bits) && Grown(m, first, n, bits, total)
      ensures Kept(bits0, fsm.bits[..]) && Enlarged(m, first, n, bits0)
    {
      hide Fsm.Valid, Own, Mapped, Map, FileOk, Range;
    }

    lemma RequestSizes(iblock: nat)
      requires lebBlocks > 0 && iblock >= total
      ensures Wanted(iblock) > 0 && Wanted(iblock) >= Least(iblock)
              && (ino != EXTENTS_TREE_INO ==> iblock - total < Least(iblock))
      ensures Tries(iblock) == Requests(Wanted(iblock), Least(iblock), Gran()) && Gran() > 0
      ensures ino != CAT_TREE_INO ==> Tries(iblock) == [Wanted(iblock)]
      ensures forall r :: r in Tries(iblock) ==> Least(iblock) <= r <= Wanted(iblock)
    {
      if ino != CAT_TREE_INO {
        OneTry(iblock);
      }
    }

    lemma MapGrown(m: seq<nat>, first: nat, n: nat, iblock: nat, total0: nat)
      requires BlockMap() == m + Range(first, n) && |m| == total0 <= iblock < total0 + n
      ensures m <= BlockMap() && BlockMap()[iblock] == first + (iblock - total0)
    {
    }

    /** The block that holds block `iblock` of the file, and how many follow it in the same extent. */
    method FindOldBlock(iblock: nat) returns (block: nat, maxBlocks: nat)
      requires Valid() && iblock < total
      ensures maxBlocks == RunLeft(extents + Extents(Own(ext.recs, ino)), iblock)
      ensures block == BlockMap()[iblock] && maxBlocks > 0
      ensures iblock + maxBlocks <= |BlockMap()| && BlockMap()[iblock..iblock + maxBlocks] == Range(block, maxBlocks)
    {
      hide Fsm.Valid, Btree.Valid, Btree.Contents, Own, Mapped, Blocks, FileOk, Map, RunLeft, Extents;
      MapLength(extents, Own(ext.recs, ino), total);
      NothingMapped();
      assert extents[..0] == [];
      var i, rest: nat := 0, iblock;
      while i < |extents|
        invariant i <= |extents| && rest + |Blocks(extents[..i])| == iblock
      {
        ExtentLength(extents, i);
        if rest < extents[i].count {
          maxBlocks := extents[i].count - rest;
          block := extents[i].first + rest;
          InlineSlice(extents, Own(ext.recs, ino), i, rest);
          RunLeftInline(extents, Own(ext.recs, ino), i, rest);
          assert BlockMap()[iblock] == BlockMap()[iblock..iblock + maxBlocks][0];
          return;
        }
        rest := rest - extents[i].count;
        i := i + 1;
      }
      assert extents[..i] == extents;
      block, maxBlocks := ExttreeGetBlock(iblock);
    }

    /** The same for a block that is mapped in the overflow tree. */
    method ExttreeGetBlock(iblock: nat) returns (block: nat, maxBlocks: nat)
      requires Valid() && |Blocks(extents)| <= iblock < total
      ensures maxBlocks == RunLeft(extents + Extents(Own(ext.recs, ino)), iblock)
      ensures block == BlockMap()[iblock] && maxBlocks > 0
      ensures iblock + maxBlocks <= |BlockMap()| && BlockMap()[iblock..iblock + maxBlocks] == Range(block, maxBlocks)
    {
      hide Fsm.Valid, Btree.Valid, Btree.Contents, Own, Mapped, Blocks, RunLeft;
      ghost var own, start := Own(ext.recs, ino), |Blocks(extents)|;
      var pos := FindExt(ext.recs, ino, iblock);
      ghost var k := RecordOf(own, start, iblock);
      FindsBetween(ext.recs, ino, iblock, pos, k);
      var record := ext.recs[pos];
      OwnMember(ext.recs, ino, k);
      // the test whether the record is another file's never fires
      assert record.ino == ino;
      block := record.begin + (iblock - record.iblock);
      maxBlocks := record.length - (iblock - record.iblock);
      OverflowSlice(extents, own, k, iblock - record.iblock);
      RunLeftRecord(extents, own, k, iblock - record.iblock);
      assert BlockMap()[iblock] == BlockMap()[iblock..iblock + maxBlocks][0];
    }

    /** Gives back the last `n` blocks of the map, which are one range; the caller shortens the map. */
    method PutFreeBlock(first: nat, n: nat)
      requires Valid() && n > 0 && EndsWith(BlockMap(), first, n)
      modifies fsm, fsm.bits, fsm.tree, fsm.tree.repr
      ensures fsm.Valid() && fresh(fsm.tree.repr - old(fsm.tree.repr))
      ensures var m := BlockMap(); var k := |m| - n;
              Mapped(m[..k], fsm.bits[..]) && Released(old(fsm.bits[..]), fsm.bits[..], m[k..])
    {
      hide Fsm.Valid, Btree.Valid, Btree.Contents, Own, Map, Range;
      ghost var m, bits := BlockMap(), fsm.bits[..];
      MappedGive(m, bits, |m| - n, first, n);
      assert forall b :: first <= b < first + n ==> fsm.bits[b] == bits[b];
      fsm.FreeBlockChunk(first, n);
    }

    /** The map is cut to its first `total` blocks and the others have been given back. */
    ghost predicate CutTo(m: seq<nat>, bits: seq<bool>)
      reads this, ext, fsm, fsm.bits
    {
      total <= |m| && BlockMap() == m[..total] && Released(bits, fsm.bits[..], m[total..])
    }

    lemma CutMore(m: seq<nat>, m1: seq<nat>, bits0: seq<bool>, bits1: seq<bool>, t: nat)
      requires total <= t <= |m| && m1 == m[..t] && Released(bits0, bits1, m[t..])
      requires BlockMap() == m1[..total] && Released(bits1, fsm.bits[..], m1[total..])
      ensures CutTo(m, bits0)
    {
      hide Own, Map;
      assert m1[..total] == m[..total] && m1[total..] == m[total..t];
      ReleasedMore(bits0, bits1, fsm.bits[..], m, total, t);
    }

    /** Removes or shortens the file's overflow records from the last one on, down to `newSize` blocks. */
    method TruncateExttree(newSize: nat)
      requires Valid() && newSize < total
      modifies this`total, ext, fsm, fsm.bits, fsm.tree, fsm.tree.repr
      ensures Valid() && fresh(fsm.tree.repr - old(fsm.tree.repr)) && OthersKept(old(ext.recs), ext.recs, ino)
      ensures CutTo(old(BlockMap()), old(fsm.bits[..])) && newSize <= total
              && (total == newSize || Own(ext.recs, ino) == [])
    {
      hide Fsm.Valid, Btree.Valid, Btree.Contents, Own, Mapped, Map, FileOk, Range, Released, OthersKept, EndsWith,
           CutTo;
      ghost var m, bits := BlockMap(), fsm.bits[..];
      MapLength(extents, Own(ext.recs, ino), total);
      CutNothing(m, bits);
      SameOthers(ext.recs, ino);
      var done := false;
      while !done
        invariant Valid() && CutTo(m, bits) && newSize <= total && OthersKept(old(ext.recs), ext.recs, ino)
        invariant fresh(fsm.tree.repr - old(fsm.tree.repr))
        invariant done ==> total == newSize || Own(ext.recs, ino) == []
        decreases !done, |ext.recs|
      {
        done := TruncateLast(newSize, m, bits, old(ext.recs));
      }
    }

    lemma CutNothing(m: seq<nat>, bits: seq<bool>)
      requires m == BlockMap() && |m| == total && bits == fsm.bits[..]
      ensures CutTo(m, bits)
    {
      hide Own, Map;
      assert m[..total] == m && m[total..] == [];
    }

    /** Deals with the file's last overflow record; tells whether that was all. */
    method TruncateLast(newSize: nat, ghost m: seq<nat>, ghost bits: seq<bool>, ghost recs0: seq<Ext>)
        returns (done: bool)
      requires Valid() && CutTo(m, bits) && newSize <= total && OthersKept(recs0, ext.recs, ino)
      modifies this`total, ext, fsm, fsm.bits, fsm.tree, fsm.tree.repr
      ensures Valid() && CutTo(m, bits) && newSize <= total && OthersKept(recs0, ext.recs, ino)
      ensures fresh(fsm.tree.repr - old(fsm.tree.repr))
      ensures done ==> total == newSize || Own(ext.recs, ino) == []
      ensures !done ==> |ext.recs| < |old(ext.recs)|
    {
      hide Fsm.Valid, Btree.Valid, Btree.Contents, Own, Mapped, Map, FileOk, Range, Released, OthersKept, EndsWith,
           Blocks, Ordered, Filled;
      ghost var own, s, t, bits1, m1 := Own(ext.recs, ino), ext.recs, total, fsm.bits[..], BlockMap();
      MapLength(extents, own, total);
      RecordsBelow(s, ino, extents, total);
      var pos := FindExt(ext.recs, ino, IBLOCK_MAX_NUMBER);
      MaxBlock(own, total, extents);
      FindsLast(s, ino, IBLOCK_MAX_NUMBER, pos);
      var record := ext.recs[pos];
      if record.ino != ino {
        NotOwned(s, ino, pos);
        return true;
      }
      LastRecord(s, ino, pos);
      DropRecord(extents, own, total);
      if record.iblock >= newSize {
        PutFreeBlock(record.begin, record.length);
        total := total - record.length;
        OwnRemoved(s, ino, |own| - 1);
        ext.RemoveAt(pos);
        DropLast(own);
        OthersTrans(recs0, s, ext.recs, ino);
        CutMore(m, m1, bits, bits1, t);
        done := false;
      } else if record.iblock + record.length > newSize {
        var delta := record.iblock + record.length - newSize;
        CutRecord(extents, own, total, delta);
        PutFreeBlock(record.begin + record.length - delta, delta);
        OwnSet(s, ino, record.length - delta);
        ext.SetLength(pos, record.length - delta);
        total := total - delta;
        OthersTrans(recs0, s, ext.recs, ino);
        CutMore(m, m1, bits, bits1, t);
        done := true;
      } else {
        done := true;
      }
    }

    /** Removes or shortens inline extents from the last one on, down to `newSize` blocks. */
    method TruncateFork(newSize: nat)
      requires Valid() && newSize < total && Own(ext.recs, ino) == []
      modifies this, fsm, fsm.bits, fsm.tree, fsm.tree.repr
      ensures Valid() && fresh(fsm.tree.repr - old(fsm.tree.repr))
      ensures CutTo(old(BlockMap()), old(fsm.bits[..])) && total == newSize
    {
      hide Fsm.Valid, Btree.Valid, Btree.Contents, Own, Mapped, Map, FileOk, Range, Released, EndsWith, CutTo;
      ghost var m, bits := BlockMap(), fsm.bits[..];
      MapLength(extents, [], total);
      CutNothing(m, bits);
      NoBlocks(extents, total);
      var i := |extents| - 1;
      while i >= 0
        invariant Valid() && CutTo(m, bits) && newSize < total && |extents| == i + 1 && Own(ext.recs, ino) == []
        invariant fresh(fsm.tree.repr - old(fsm.tree.repr))
      {
        var done := TruncateExtent(newSize, i, m, bits);
        if done {
          return;
        }
        i := i - 1;
      }
      NoBlocks(extents, total);
    }

    /** Deals with the last inline extent; tells whether the size is reached. */
    method TruncateExtent(newSize: nat, i: nat, ghost m: seq<nat>, ghost bits: seq<bool>) returns (done: bool)
      requires Valid() && CutTo(m, bits) && newSize < total && |extents| == i + 1 && Own(ext.recs, ino) == []
      modifies this, fsm, fsm.bits, fsm.tree, fsm.tree.repr
      ensures Valid() && CutTo(m, bits) && fresh(fsm.tree.repr - old(fsm.tree.repr))
      ensures done ==> total == newSize
      ensures !done ==> newSize < total && |extents| == i
    {
      hide Fsm.Valid, Btree.Valid, Btree.Contents, Own, Mapped, Map, FileOk, Range, Released, EndsWith;
      ghost var t, bits1, m1 := total, fsm.bits[..], BlockMap();
      MapLength(extents, [], total);
      var first, length := extents[i].first, extents[i].count;
      DropExtent(extents, total);
      if total - newSize >= length {
        ExtentBound(extents, total);
        PutFreeBlock(first, length);
        total := total - length;
        extents := extents[..i];
        CutMore(m, m1, bits, bits1, t);
        done := total <= newSize;
      } else {
        var delta := total - newSize;
        CutExtent(extents, total, delta);
        PutFreeBlock(first + length - delta, delta);
        total := total - delta;
        extents := extents[i := extents[i].(count := length - delta)];
        CutMore(m, m1, bits, bits1, t);
        done := true;
      }
    }

    /** Cuts the file to `newSize` blocks: overflow records first, then inline extents. */
    method TruncateBlocks(newSize: nat)
      requires Valid()
      modifies this, ext, fsm, fsm.bits, fsm.tree, fsm.tree.repr
      ensures Valid() && OthersKept(old(ext.recs), ext.recs, ino)
      ensures total == if newSize < old(total) then newSize else old(total)
      ensures BlockMap() == old(BlockMap())[..total]
              && Released(old(fsm.bits[..]), fsm.bits[..], old(BlockMap())[total..])
    {
      hide Fsm.Valid, Btree.Valid, Btree.Contents, Own, Mapped, Map, FileOk, Range, Released, EndsWith, OthersKept;
      ghost var m, bits := BlockMap(), fsm.bits[..];
      MapLength(extents, Own(ext.recs, ino), total);
      SameOthers(ext.recs, ino);
      CutNothing(m, bits);
      InlineOnly(extents, Own(ext.recs, ino), total);
      if total <= newSize {
        return;
      }
      var inline := SumExtents();
      if inline < total {
        TruncateExttree(newSize);
      }
      if total <= newSize {
        return;
      }
      ghost var m1, bits1, t := BlockMap(), fsm.bits[..], total;
      TruncateFork(newSize);
      CutMore(m, m1, bits, bits1, t);
    }

    /** Gives back the inline extents of a file that is going; if it has overflow records, it becomes an orphan. */
    method FreeRuntimeFork() returns (orphaned: bool)
      requires Valid() && ext.recs[0].ino < ORPHAN_INODES_INO < ino < IBLOCK_MAX_NUMBER
      requires forall x :: x in ext.recs ==> x.ino != ORPHAN_INODES_INO || x.iblock != ino
      modifies this, ext, fsm, fsm.bits, fsm.tree, fsm.tree.repr
      ensures fsm.Valid() && ext.Valid() && extents == [] && Own(ext.recs, ino) == old(Own(ext.recs, ino))
      ensures Released(old(fsm.bits[..]), fsm.bits[..], old(Blocks(extents)))
      ensures var left := Blocks(Extents(Own(ext.recs, ino))); Mapped(left, fsm.bits[..]) && total == |left|
      ensures orphaned <==> Own(ext.recs, ino) != []
      ensures if orphaned then exists h :: AddedAt(old(ext.recs), ext.recs, Ext(ORPHAN_INODES_INO, ino, 0, 0), h)
              else ext.recs == old(ext.recs)
    {
      hide Fsm.Valid, Btree.Valid, Btree.Contents, Own, Mapped, Released, Range, Blocks, FileOk, Filled;
      ghost var bits, es0, own := fsm.bits[..], extents, Own(ext.recs, ino);
      ghost var rest := Blocks(Extents(own));
      InlineOnly(extents, own, total);
      MapLength(extents, own, total);
      RestEmpty(own, extents, total);
      ReleasedNothing(es0, bits);
      while |extents| > 0 && total > 0
        invariant fsm.Valid() && ext.recs == old(ext.recs) && |extents| <= |es0| && extents == es0[..|extents|]
        invariant fresh(fsm.tree.repr - old(fsm.tree.repr))
        invariant Mapped(Blocks(extents) + rest, fsm.bits[..]) && total == |Blocks(extents)| + |rest|
        invariant |Blocks(extents)| <= |Blocks(es0)| && Released(bits, fsm.bits[..], Blocks(es0)[|Blocks(extents)|..])
      {
        var used := |extents| - 1;
        var first, length := extents[used].first, extents[used].count;
        if length != 0 {
          ghost var bits1 := fsm.bits[..];
          LastExtent(es0, extents, rest, bits, bits1);
          assert forall b :: first <= b < first + length ==> fsm.bits[b] == bits1[b];
          fsm.FreeBlockChunk(first, length);
          total := total - length;
        } else {
          EmptyExtent(extents);
        }
        extents := extents[..used];
      }
      AllGone(extents, rest, total);
      assert Blocks(es0)[0..] == Blocks(es0);
      assert [] + rest == rest;
      extents := [];
      orphaned := total != 0;
      if orphaned {
        ghost var s := ext.recs;
        ext.Insert(Ext(ORPHAN_INODES_INO, ino, 0, 0));
        ghost var h :| AddedAt(s, ext.recs, Ext(ORPHAN_INODES_INO, ino, 0, 0), h);
        OthersAdded(s, ext.recs, Ext(ORPHAN_INODES_INO, ino, 0, 0), h);
      }
    }

    /** Gives back blocks just taken. */
    method GiveBack(first: nat, n: nat, ghost bits: seq<bool>)
      requires Valid() && n > 0 && first > 0 && first + n <= fsm.bits.Length == |bits|
               && fsm.bits[..] == Filled(bits, first, n, true)
      requires Mapped(BlockMap(), bits) && forall b :: first <= b < first + n ==> !bits[b]
      modifies fsm, fsm.bits, fsm.tree, fsm.tree.repr
      ensures Valid() && fresh(fsm.tree.repr - old(fsm.tree.repr)) && fsm.bits[..] == bits
      ensures exists k :: k in fsm.tree.Contents() && k.length >= n
      ensures forall at: nat, m: nat :: 0 < at <= |bits| && bits[at - 1] && old(fsm.FreeAt(at, m)) ==> fsm.FreeAt(at, m)
    {
      hide Fsm.Valid, Btree.Valid, Btree.Contents, Blocks, Own, FsmExtents.Unbroken, StartsAt;
      FilledBack(bits, first, n);
      assert forall b :: first <= b < first + n ==> fsm.bits[..][b];
      ghost var s := fsm.tree.Contents();
      fsm.FreeBlockChunk(first, n);
      fsm.ItsExtents();
      forall at: nat, m: nat | 0 < at <= |bits| && bits[at - 1] && StartsAt(s, at, m) ensures fsm.FreeAt(at, m) {
        StartsStill(s, fsm.tree.Contents(), bits, at, m);
      }
    }
  }

  /** Taking blocks leaves what is free behind a block in use as it is. */
  lemma Elsewhere(s: seq<Key>, r: seq<Key>, bits: seq<bool>, block: nat, n: nat)
    requires FsmExtents.Extents(s) && TakenAt(s, r, block, n) && n > 0 && block + n <= |bits|
    requires forall b :: block <= b < block + n ==> !bits[b]
    ensures StartsAt(s, block, n)
    ensures forall at: nat, m: nat :: 0 < at <= |bits| && bits[at - 1] && at != block ==>
              (StartsAt(r, at, m) <==> StartsAt(s, at, m))
  {
    forall at: nat, m: nat | 0 < at <= |bits| && bits[at - 1] && at != block
      ensures StartsAt(r, at, m) <==> StartsAt(s, at, m)
    {
      TakenElsewhere(s, r, block, n, at, m);
    }
  }

  lemma InlineEnd(es: seq<Extent>, total: nat)
    requires FileOk(es, [], total) && es != []
    ensures var m := Map(es, []); var e := es[|es| - 1]; m != [] && m[|m| - 1] == e.first + e.count - 1
  {
    assert Extents([]) == [];
    var k := |es| - 1;
    BlockIn(es, k, es[k].count - 1);
    assert es[..k + 1] == es;
  }

  lemma RecordEnd(es: seq<Extent>, own: seq<Ext>, total: nat)
    requires FileOk(es, own, total) && own != []
    ensures var m := Map(es, own); var e := own[|own| - 1]; m != [] && m[|m| - 1] == e.begin + e.length - 1
  {
    var k := |own| - 1;
    BlockIn(Extents(own), k, own[k].length - 1);
    assert Extents(own)[..k + 1] == Extents(own);
  }

  lemma NoBlocks(es: seq<Extent>, total: nat)
    requires FileOk(es, [], total)
    ensures |es| <= EXTENTS_COUNT_IN_FORK && (es == [] ==> total == 0)
  {
    assert Extents([]) == [];
  }

  lemma AppendExtent(es: seq<Extent>, e: Extent, total: nat)
    requires FileOk(es, [], total) && |es| < EXTENTS_COUNT_IN_FORK && e.count > 0
             && total + e.count <= IBLOCK_MAX_NUMBER
    ensures FileOk(es + [e], [], total + e.count) && Map(es + [e], []) == Map(es, []) + Range(e.first, e.count)
  {
    BlocksAppend(es, e);
    assert Extents([]) == [];
  }

  lemma GrowExtent(es: seq<Extent>, n: nat, total: nat)
    requires FileOk(es, [], total) && es != [] && total + n <= IBLOCK_MAX_NUMBER
    ensures var k := |es| - 1; var e := es[k]; var es' := es[k := e.(count := e.count + n)];
            FileOk(es', [], total + n) && Map(es', []) == Map(es, []) + Range(e.first + e.count, n)
  {
    LastGrown(es, n);
    assert Extents([]) == [];
  }

  /** All records of the inode start below the end of the file. */
  lemma RecordsBelow(s: seq<Ext>, ino: nat, es: seq<Extent>, total: nat)
    requires Ordered(s) && FileOk(es, Own(s, ino), total)
    ensures total < IBLOCK_DOES_NOT_MATTER && (forall x :: x in Own(s, ino) ==> x.iblock < total)
    ensures forall x :: x in s ==> x.ino != ino || x.iblock != total
  {
    hide Blocks;
    ChainedBelow(Own(s, ino), |Blocks(es)|);
    forall x | x in s ensures x.ino != ino || x.iblock != total {
      var i :| 0 <= i < |s| && s[i] == x;
      OwnAt(s, ino, i);
    }
  }

  /** A file has overflow records exactly when it has more blocks than its inline extents. */
  lemma InlineOnly(es: seq<Extent>, own: seq<Ext>, total: nat)
    requires FileOk(es, own, total)
    ensures |es| <= EXTENTS_COUNT_IN_FORK && (|es| < EXTENTS_COUNT_IN_FORK ==> own == [])
    ensures |Blocks(es)| <= total && (|Blocks(es)| == total <==> own == [])
  {
    if own != [] {
      ChainedEnd(own, |Blocks(es)|);
      ChainedBelow(own, |Blocks(es)|);
      assert own[|own| - 1] in own;
    }
  }

  lemma SameOthers(s: seq<Ext>, ino: nat)
    ensures OthersKept(s, s, ino)
  {
  }

  /** Halving a request of at least `gran` blocks and rounding it up makes it smaller. */
  lemma HalvedLess(req: nat, gran: nat)
    requires gran > 0 && req / 2 >= gran
    ensures 0 < AlignUp(req / 2, gran) < req
  {
  }

  lemma RunLeftInline(es: seq<Extent>, own: seq<Ext>, k: nat, r: nat)
    requires k < |es| && r < es[k].count
    ensures RunLeft(es + Extents(own), |Blocks(es[..k])| + r) == es[k].count - r
  {
    hide Blocks, RunLeft;
    assert (es + Extents(own))[..k] == es[..k];
    RunLeftAt(es + Extents(own), k, r);
  }

  lemma ExtentLength(es: seq<Extent>, i: nat)
    requires i < |es|
    ensures |Blocks(es[..i + 1])| == |Blocks(es[..i])| + es[i].count
  {
    assert es[..i + 1] == es[..i] + [es[i]];
    BlocksAppend(es[..i], es[i]);
  }

  lemma MapLength(es: seq<Extent>, own: seq<Ext>, total: nat)
    requires FileOk(es, own, total)
    ensures |Map(es, own)| == total
  {
  }

  lemma OthersTrans(a: seq<Ext>, b: seq<Ext>, c: seq<Ext>, ino: nat)
    requires OthersKept(a, b, ino) && OthersKept(b, c, ino)
    ensures OthersKept(a, c, ino)
  {
    hide Own;
  }

  lemma OwnMember(s: seq<Ext>, ino: nat, k: nat)
    requires Ordered(s) && k < |Own(s, ino)|
    ensures Own(s, ino)[k].ino == ino
  {
    Bounds(s, ino);
    assert Own(s, ino)[k] == s[Low(s, ino) + k];
  }

  lemma MaxBlock(own: seq<Ext>, total: nat, es: seq<Extent>)
    requires FileOk(es, own, total) && forall x :: x in own ==> x.iblock < total
    ensures forall x :: x in own ==> x.iblock <= IBLOCK_MAX_NUMBER
  {
  }

  lemma NotOwned(s: seq<Ext>, ino: nat, pos: nat)
    requires Ordered(s) && pos < |s| && s[pos].ino != ino && (Own(s, ino) != [] ==> pos + 1 == Low(s, ino + 1))
    ensures Own(s, ino) == []
  {
    OwnAt(s, ino, pos);
  }

  lemma LastRecord(s: seq<Ext>, ino: nat, pos: nat)
    requires Ordered(s) && s != [] && s[0].ino < ino && pos < |s| && s[pos].ino == ino
             && (Own(s, ino) != [] ==> pos + 1 == Low(s, ino + 1))
    ensures Own(s, ino) != [] && s[pos] == Own(s, ino)[|Own(s, ino)| - 1] && pos > 0
    ensures pos == Low(s, ino) + |Own(s, ino)| - 1 == Low(s, ino + 1) - 1
  {
    OwnAt(s, ino, pos);
  }

  lemma DropLast(own: seq<Ext>)
    requires own != []
    ensures own[..|own| - 1] + own[|own|..] == own[..|own| - 1]
  {
  }

  lemma ExtentBound(es: seq<Extent>, total: nat)
    requires FileOk(es, [], total) && es != []
    ensures es[|es| - 1].count <= total
  {
    NothingMapped();
  }

  lemma ReleasedNothing(es: seq<Extent>, bits: seq<bool>)
    ensures es[..|es|] == es && Released(bits, bits, Blocks(es)[|Blocks(es)|..])
  {
  }

  lemma EmptyExtent(es: seq<Extent>)
    requires es != [] && es[|es| - 1].count == 0
    ensures Blocks(es[..|es| - 1]) == Blocks(es)
  {
    assert Range(es[|es| - 1].first, 0) == [];
  }

  /** Giving back the last inline extent while overflow records remain. */
  lemma LastExtent(es0: seq<Extent>, es: seq<Extent>, rest: seq<nat>, bits0: seq<bool>, bits: seq<bool>)
    requires es != [] && |es| <= |es0| && es == es0[..|es|] && es[|es| - 1].count > 0 && |Blocks(es)| <= |Blocks(es0)|
    requires Mapped(Blocks(es) + rest, bits) && Released(bits0, bits, Blocks(es0)[|Blocks(es)|..])
    ensures var e, es' := es[|es| - 1], es[..|es| - 1];
            && 0 < e.first && e.first + e.count <= |bits| && (forall b :: e.first <= b < e.first + e.count ==> bits[b])
            && |Blocks(es)| == |Blocks(es')| + e.count
               && Mapped(Blocks(es') + rest, Filled(bits, e.first, e.count, false))
            && Released(bits0, Filled(bits, e.first, e.count, false), Blocks(es0)[|Blocks(es')|..])
  {
    var e, es' := es[|es| - 1], es[..|es| - 1];
    assert Blocks(es) == Blocks(es') + Range(e.first, e.count);
    assert Blocks(es) + rest == Blocks(es') + Range(e.first, e.count) + rest;
    MappedCut(Blocks(es'), e.first, e.count, rest, bits);
    BlocksPrefix(es0, |es|);
    var m, k, l := Blocks(es0), |Blocks(es')|, |Blocks(es)|;
    hide Blocks, Mapped, Filled;
    assert m[..l] == Blocks(es);
    assert m[k..l] == m[..l][k..] == Range(e.first, e.count);
    ReleasedMore(bits0, bits, Filled(bits, e.first, e.count, false), m, k, l);
  }

  lemma AllGone(es: seq<Extent>, rest: seq<nat>, total: nat)
    requires total == |Blocks(es)| + |rest| && (es == [] || total == 0)
    ensures Blocks(es) == [] && total == |rest|
  {
  }

  lemma RestEmpty(own: seq<Ext>, es: seq<Extent>, total: nat)
    requires FileOk(es, own, total)
    ensures own == [] <==> Blocks(Extents(own)) == []
  {
    NothingMapped();
    if own != [] {
      ChainedDrop(own, |Blocks(es)|);
    }
  }
}
