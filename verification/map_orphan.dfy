/** Removing a file: its inline extents at once, its overflow records when the list of orphans is drained. */
module MapOrphan {
  import opened FsmSpace
  import opened FsmBtree
  import opened MapExtTree
  import opened MapBlocks
  import opened MapFile

  const FIRST_FILE_INO: nat := 10

  /** The blocks of all records are distinct and in use; the records of files have blocks, those of the list of
      orphans have none and name files. */
  ghost predicate TreeOk(s: seq<Ext>, bits: seq<bool>) {
    && Ordered(s) && s != [] && s[0].ino < ORPHAN_INODES_INO && Mapped(Blocks(Extents(s)), bits)
    && (forall i :: 0 <= i < |s| && s[i].ino > ORPHAN_INODES_INO ==> s[i].length > 0)
    && (forall i :: 0 <= i < |s| && s[i].ino == ORPHAN_INODES_INO ==>
          s[i].length == 0 && FIRST_FILE_INO <= s[i].iblock < IBLOCK_MAX_NUMBER)
  }

  /** Inode `x` is in the list of orphans. */
  ghost predicate Orphan(s: seq<Ext>, x: nat) {
    exists i :: 0 <= i < |Own(s, ORPHAN_INODES_INO)| && Own(s, ORPHAN_INODES_INO)[i].iblock == x
  }

  lemma TreeRemove(s: seq<Ext>, bits: seq<bool>, p: nat)
    requires TreeOk(s, bits) && 0 < p < |s| && s[p].ino > ORPHAN_INODES_INO
    ensures var e := s[p]; var s' := s[..p] + s[p + 1..];
            && 0 < e.begin && e.begin + e.length <= |bits|
               && (forall x :: e.begin <= x < e.begin + e.length ==> bits[x])
            && TreeOk(s', Filled(bits, e.begin, e.length, false))
               && Released(bits, Filled(bits, e.begin, e.length, false), Range(e.begin, e.length))
  {
    var e, s' := s[p], s[..p] + s[p + 1..];
    BlocksAround(s, p);
    MappedCut(Blocks(Extents(s[..p])), e.begin, e.length, Blocks(Extents(s[p + 1..])), bits);
    hide Blocks, Filled, Range, Mapped, Released;
    CutOrdered(s, p);
  }

  lemma CutOrdered(s: seq<Ext>, p: nat)
    requires Ordered(s) && 0 < p < |s|
    ensures var s' := s[..p] + s[p + 1..];
            && Ordered(s') && s' != [] && s'[0] == s[0]
            && forall i :: 0 <= i < |s'| ==> s'[i] == s[if i < p then i else i + 1]
  {
  }

  /** The records of the inode and the blocks released so far make up what the inode had. */
  ghost predicate Draining(own0: seq<Ext>, own: seq<Ext>, gone: seq<nat>) {
    forall b :: b in Blocks(Extents(own0)) <==> b in gone || b in Blocks(Extents(own))
  }

  lemma DrainOne(own0: seq<Ext>, own: seq<Ext>, gone: seq<nat>, k: nat)
    requires Draining(own0, own, gone) && k < |own|
    ensures Draining(own0, own[..k] + own[k + 1..], gone + Range(own[k].begin, own[k].length))
  {
    hide Blocks, Range;
    BlocksAround(own, k);
  }

  lemma ReleasedAlso(b0: seq<bool>, b1: seq<bool>, b2: seq<bool>, gone: seq<nat>, more: seq<nat>)
    requires Released(b0, b1, gone) && Released(b1, b2, more)
    ensures Released(b0, b2, gone + more)
  {
  }

  lemma ReleasedSame(b0: seq<bool>, b1: seq<bool>, gone: seq<nat>, all: seq<nat>)
    requires Released(b0, b1, gone) && forall b :: b in all <==> b in gone
    ensures Released(b0, b1, all)
  {
  }

  /** Takes out one record of a file and gives its blocks back. */
  method FreeRecord(fsm: Fsm, ext: ExtTree, pos: nat)
    requires fsm.Valid() && TreeOk(ext.recs, fsm.bits[..]) && 0 < pos < |ext.recs|
             && ext.recs[pos].ino > ORPHAN_INODES_INO
    modifies ext, fsm, fsm.bits, fsm.tree, fsm.tree.repr
    ensures fsm.Valid() && fresh(fsm.tree.repr - old(fsm.tree.repr)) && TreeOk(ext.recs, fsm.bits[..])
    ensures ext.recs == old(ext.recs)[..pos] + old(ext.recs)[pos + 1..]
    ensures var e := old(ext.recs)[pos]; Released(old(fsm.bits[..]), fsm.bits[..], Range(e.begin, e.length))
  {
    hide Fsm.Valid, Btree.Valid, Btree.Contents, Blocks, Mapped, Released, Range;
    ghost var bits := fsm.bits[..];
    TreeRemove(ext.recs, bits, pos);
    var e := ext.recs[pos];
    ext.RemoveAt(pos);
    assert forall x :: e.begin <= x < e.begin + e.length ==> fsm.bits[x] == bits[x];
    fsm.FreeBlockChunk(e.begin, e.length);
  }

  /** Drains the overflow records of an inode, whichever the search finds first. */
  method DrainRecords(fsm: Fsm, ext: ExtTree, ino: nat)
    requires fsm.Valid() && TreeOk(ext.recs, fsm.bits[..]) && ino > ORPHAN_INODES_INO
    modifies ext, fsm, fsm.bits, fsm.tree, fsm.tree.repr
    ensures fsm.Valid() && fresh(fsm.tree.repr - old(fsm.tree.repr)) && TreeOk(ext.recs, fsm.bits[..])
    ensures Own(ext.recs, ino) == [] && OthersKept(old(ext.recs), ext.recs, ino) && |ext.recs| <= |old(ext.recs)|
    ensures Released(old(fsm.bits[..]), fsm.bits[..], Blocks(Extents(old(Own(ext.recs, ino)))))
  {
    hide Fsm.Valid, Btree.Valid, Btree.Contents, Blocks, Mapped, Released, Range, Own, OthersKept, Draining;
    ghost var bits, own0 := fsm.bits[..], Own(ext.recs, ino);
    ghost var gone: seq<nat> := [];
    DrainStart(own0, bits);
    SameOthers(ext.recs, ino);
    while true
      invariant fsm.Valid() && fresh(fsm.tree.repr - old(fsm.tree.repr)) && TreeOk(ext.recs, fsm.bits[..])
      invariant OthersKept(old(ext.recs), ext.recs, ino) && |ext.recs| <= |old(ext.recs)|
      invariant Released(bits, fsm.bits[..], gone) && Draining(own0, Own(ext.recs, ino), gone)
      decreases |ext.recs|
    {
      var pos := FindExt(ext.recs, ino, IBLOCK_DOES_NOT_MATTER);
      if ext.recs[pos].ino != ino {
        DrainEnd(own0, gone, bits, fsm.bits[..]);
        return;
      }
      ghost var s, bits1 := ext.recs, fsm.bits[..];
      ghost var k := OwnIndex(s, ino, pos);
      OwnRemoved(s, ino, k);
      DrainOne(own0, Own(s, ino), gone, k);
      FreeRecord(fsm, ext, pos);
      OthersTrans(old(ext.recs), s, ext.recs, ino);
      ReleasedAlso(bits, bits1, fsm.bits[..], gone, Range(s[pos].begin, s[pos].length));
      gone := gone + Range(s[pos].begin, s[pos].length);
    }
  }

  lemma DrainStart(own: seq<Ext>, bits: seq<bool>)
    ensures Draining(own, own, []) && Released(bits, bits, [])
  {
  }

  lemma DrainEnd(own0: seq<Ext>, gone: seq<nat>, bits: seq<bool>, bits': seq<bool>)
    requires Draining(own0, [], gone) && Released(bits, bits', gone)
    ensures Released(bits, bits', Blocks(Extents(own0)))
  {
    NothingMapped();
    ReleasedSame(bits, bits', gone, Blocks(Extents(own0)));
  }

  lemma OwnIndex(s: seq<Ext>, ino: nat, pos: nat) returns (k: nat)
    requires Ordered(s) && pos < |s| && s[pos].ino == ino
    ensures k < |Own(s, ino)| && pos == Low(s, ino) + k && s[pos] == Own(s, ino)[k]
  {
    OwnAt(s, ino, pos);
    k := pos - Low(s, ino);
  }

  /** Removing an entry of the list of orphans gives no block back. */
  lemma TreeRemoveOrphan(s: seq<Ext>, bits: seq<bool>, p: nat)
    requires TreeOk(s, bits) && 0 < p < |s| && s[p].ino == ORPHAN_INODES_INO
    ensures TreeOk(s[..p] + s[p + 1..], bits)
  {
    BlocksAround(s, p);
    assert Range(s[p].begin, 0) == [];
    var a, b := Blocks(Extents(s[..p])), Blocks(Extents(s[p + 1..]));
    assert a + [] + b == a + b;
    hide Blocks, Mapped, Range;
    CutOrdered(s, p);
  }

  lemma OrphanAt(s: seq<Ext>, bits: seq<bool>, x: nat) returns (k: nat)
    requires TreeOk(s, bits) && Orphan(s, x)
    ensures var own := Own(s, ORPHAN_INODES_INO);
            && k < |own| && own[k].iblock == x && (k + 1 < |own| ==> x < own[k + 1].iblock)
            && forall y :: y in own[..k] + own[k + 1..] ==> y.iblock != x
    ensures FIRST_FILE_INO <= x < IBLOCK_MAX_NUMBER && Low(s, ORPHAN_INODES_INO) + k < |s|
  {
    hide Blocks, Mapped;
    var own, a := Own(s, ORPHAN_INODES_INO), Low(s, ORPHAN_INODES_INO);
    Bounds(s, ORPHAN_INODES_INO);
    k :| 0 <= k < |own| && own[k].iblock == x;
    forall i, j | 0 <= i < j < |own| ensures own[i].iblock < own[j].iblock {
      assert own[i] == s[a + i] && own[j] == s[a + j] && Before(s[a + i], s[a + j]);
    }
    assert own[k] == s[a + k];
  }

  lemma OrphansAfter(own: seq<Ext>, k: nat, x: nat, y: nat)
    requires k < |own| && own[k].iblock == x && forall z :: z in own[..k] + own[k + 1..] ==> z.iblock != x
    ensures var own' := own[..k] + own[k + 1..];
            (exists i :: 0 <= i < |own'| && own'[i].iblock == y) <==>
              y != x && exists i :: 0 <= i < |own| && own[i].iblock == y
  {
    var own' := own[..k] + own[k + 1..];
    if i :| 0 <= i < |own'| && own'[i].iblock == y {
      assert own'[i] in own' && own[if i < k then i else i + 1] == own'[i];
    }
    if i :| 0 <= i < |own| && own[i].iblock == y && y != x {
      assert own'[if i < k then i else i - 1] == own[i];
    }
  }

  /** Drains the records of an orphan, then takes it off the list. */
  method FreeExttree(fsm: Fsm, ext: ExtTree, ino: nat)
    requires fsm.Valid() && TreeOk(ext.recs, fsm.bits[..]) && Orphan(ext.recs, ino)
    modifies ext, fsm, fsm.bits, fsm.tree, fsm.tree.repr
    ensures fsm.Valid() && fresh(fsm.tree.repr - old(fsm.tree.repr)) && TreeOk(ext.recs, fsm.bits[..])
    ensures Own(ext.recs, ino) == [] && |ext.recs| < |old(ext.recs)|
    ensures forall x: nat :: x != ino && x != ORPHAN_INODES_INO ==> Own(ext.recs, x) == old(Own(ext.recs, x))
    ensures forall x: nat :: Orphan(ext.recs, x) <==> old(Orphan(ext.recs, x)) && x != ino
    ensures Released(old(fsm.bits[..]), fsm.bits[..], Blocks(Extents(old(Own(ext.recs, ino)))))
  {
    hide Fsm.Valid, Btree.Valid, Btree.Contents, Blocks, Mapped, Released, Range, Own;
    ghost var k := OrphanAt(ext.recs, fsm.bits[..], ino);
    DrainRecords(fsm, ext, ino);
    ghost var s, own := ext.recs, Own(ext.recs, ORPHAN_INODES_INO);
    k := OrphanAt(s, fsm.bits[..], ino);
    var pos := FindExt(ext.recs, ORPHAN_INODES_INO, ino);
    FindsBetween(s, ORPHAN_INODES_INO, ino, pos, k);
    OwnMember(s, ORPHAN_INODES_INO, k);
    OwnRemoved(s, ORPHAN_INODES_INO, k);
    TreeRemoveOrphan(s, fsm.bits[..], pos);
    ext.RemoveAt(pos);
    forall x: nat ensures Orphan(ext.recs, x) <==> Orphan(s, x) && x != ino {
      OrphansAfter(own, k, ino, x);
    }
  }

  /** Block `b` belonged to an orphan that has been dealt with. */
  ghost predicate Freed(s0: seq<Ext>, s: seq<Ext>, b: nat) {
    exists x: nat :: Orphan(s0, x) && !Orphan(s, x) && b in Blocks(Extents(Own(s0, x)))
  }

  /** How far the list has been drained. */
  ghost predicate Drained(s0: seq<Ext>, s: seq<Ext>, bits0: seq<bool>, bits: seq<bool>) {
    && (forall x: nat :: Orphan(s, x) ==> Orphan(s0, x))
    && (forall x: nat :: x != ORPHAN_INODES_INO ==> Own(s, x) == if Orphan(s0, x)
        && !Orphan(s, x) then [] else Own(s0, x))
    && |bits| == |bits0| && forall b :: 0 <= b < |bits| ==> (bits[b] <==> bits0[b] && !Freed(s0, s, b))
  }

  lemma DrainedOne(s0: seq<Ext>, s: seq<Ext>, s': seq<Ext>, bits0: seq<bool>, bits: seq<bool>, bits': seq<bool>,
                   ino: nat)
    requires Drained(s0, s, bits0, bits) && Orphan(s, ino) && ino != ORPHAN_INODES_INO && Own(s', ino) == []
    requires forall x: nat :: x != ino && x != ORPHAN_INODES_INO ==> Own(s', x) == Own(s, x)
    requires forall x: nat :: Orphan(s', x) <==> Orphan(s, x) && x != ino
    requires Released(bits, bits', Blocks(Extents(Own(s, ino))))
    ensures Drained(s0, s', bits0, bits')
  {
    hide Orphan, Own, Blocks;
    forall b: nat ensures Freed(s0, s', b) <==> Freed(s0, s, b) || b in Blocks(Extents(Own(s, ino))) {
      if x: nat :| Orphan(s0, x) && !Orphan(s', x) && b in Blocks(Extents(Own(s0, x))) {
        assert x == ino || !Orphan(s, x);
      }
      if x: nat :| Orphan(s0, x) && !Orphan(s, x) && b in Blocks(Extents(Own(s0, x))) {
        assert !Orphan(s', x);
      }
      if b in Blocks(Extents(Own(s, ino))) {
        assert Orphan(s0, ino) && !Orphan(s', ino);
      }
    }
  }

  /** Drains the list of orphans: no entry and no record of an orphan is left, the blocks of all of them and no
      others are free, and the other inodes keep their records. */
  method ProcessOrphans(fsm: Fsm, ext: ExtTree)
    requires fsm.Valid() && TreeOk(ext.recs, fsm.bits[..])
    modifies ext, fsm, fsm.bits, fsm.tree, fsm.tree.repr
    ensures fsm.Valid() && TreeOk(ext.recs, fsm.bits[..]) && Own(ext.recs, ORPHAN_INODES_INO) == []
    ensures forall x: nat :: x != ORPHAN_INODES_INO ==>
              Own(ext.recs, x) == if old(Orphan(ext.recs, x)) then [] else old(Own(ext.recs, x))
    ensures forall b :: 0 <= b < fsm.bits.Length ==>
              (fsm.bits[b] <==> old(fsm.bits[b]) && !OrphanBlock(old(ext.recs), b))
  {
    hide Fsm.Valid, Btree.Valid, Btree.Contents, Blocks, Mapped, Released, Range, Own, Drained, Orphan;
    ghost var s0, bits0 := ext.recs, fsm.bits[..];
    NothingDrained(s0, bits0);
    while true
      invariant fsm.Valid() && fresh(fsm.tree.repr - old(fsm.tree.repr)) && TreeOk(ext.recs, fsm.bits[..])
      invariant Drained(s0, ext.recs, bits0, fsm.bits[..])
      decreases |ext.recs|
    {
      var pos := FindExt(ext.recs, ORPHAN_INODES_INO, IBLOCK_DOES_NOT_MATTER);
      if ext.recs[pos].ino != ORPHAN_INODES_INO {
        AllDrained(s0, ext.recs, bits0, fsm.bits[..]);
        return;
      }
      var ino := ext.recs[pos].iblock;
      ghost var s, bits := ext.recs, fsm.bits[..];
      IsOrphan(s, pos);
      FreeExttree(fsm, ext, ino);
      DrainedOne(s0, s, ext.recs, bits0, bits, fsm.bits[..], ino);
    }
  }

  ghost predicate OrphanBlock(s: seq<Ext>, b: nat) {
    exists x: nat :: Orphan(s, x) && b in Blocks(Extents(Own(s, x)))
  }

  lemma NothingDrained(s: seq<Ext>, bits: seq<bool>)
    ensures Drained(s, s, bits, bits)
  {
    hide Orphan, Own, Blocks;
  }

  lemma IsOrphan(s: seq<Ext>, pos: nat)
    requires Ordered(s) && pos < |s| && s[pos].ino == ORPHAN_INODES_INO
    ensures Orphan(s, s[pos].iblock)
  {
    var k := OwnIndex(s, ORPHAN_INODES_INO, pos);
  }

  lemma AllDrained(s0: seq<Ext>, s: seq<Ext>, bits0: seq<bool>, bits: seq<bool>)
    requires Drained(s0, s, bits0, bits) && Own(s, ORPHAN_INODES_INO) == []
    ensures forall x: nat :: x != ORPHAN_INODES_INO ==> Own(s, x) == if Orphan(s0, x) then [] else Own(s0, x)
    ensures |bits| == |bits0| && forall b :: 0 <= b < |bits| ==> (bits[b] <==> bits0[b] && !OrphanBlock(s0, b))
  {
    hide Own, Blocks;
    assert forall x: nat :: !Orphan(s, x);
    forall b: nat ensures Freed(s0, s, b) <==> OrphanBlock(s0, b) {}
  }
}
