/** Two trees that ask for a block some way behind their end, as the check of the split reserve does. */
module MapTrees {
  import opened FsmExtents
  import opened FsmKeys
  import opened FsmSpace
  import opened FsmBtree
  import opened MapExtTree
  import MapBlocks
  import opened MapFile

  // Halving can step over the least growth. Only the catalog tree asks for more than that.

  /** The catalog tree of a volume with 1280 blocks has eight nodes of one block, six of them in use, and two levels.
      The reserve is eight free nodes, so that six are missing and the file is to grow up to block 13. The first
      request is a 128th of the volume, which is ten blocks; there are nine in a row. The next one, for five, is less
      than six and is not made. */
  method StepsOver() returns (err: Err, file: Inode)
    ensures err == ENOSPC && file.Valid() && file.ino == CAT_TREE_INO && file.total == 8 && file.fsm.totalBlocks == 1280
    ensures file.Least(13) == 6 && file.Wanted(13) == 10 && file.Serves(6, false)
  {
    hide Fsm.Valid, Btree.Valid, Btree.Contents, Own, MapBlocks.Mapped, MapBlocks.Map, MapBlocks.FileOk,
         MapBlocks.Range;
    hide Inode.Serves, Inode.Loses, Inode.Halts, Inode.Least, Inode.Wanted, Inode.Tries, Inode.Served, Inode.Losing;
    hide Inode.Safe, Inode.Firm, Inode.Calm, Kept, OthersKept;
    file := NewTree(CAT_TREE_INO, 1280, 8, 9);
    OneOfTen(file);
    label before:
    var block;
    ghost var first;
    err, block, first := file.ExpandFile(13, false);
    file.SameServes@before(false);
    OneOfTen(file);
  }

  lemma OneOfTen(file: Inode)
    requires file.Valid() && file.ino == CAT_TREE_INO && file.fsm.totalBlocks == 1280 == file.bitmapBlocks
             && file.lebBlocks == 1
    requires file.total == 8 && file.extents == [MapBlocks.Extent(7, 8)] && file.fsm.tree.Contents() == [Key(15, 9)]
    requires Own(file.ext.recs, file.ino) == []
    ensures file.Least(13) == 6 && file.Wanted(13) == 10 && file.Tries(13) == [10]
    ensures !file.Serves(10, false) && file.Serves(6, false) && file.Safe(false) && file.Firm(false) && file.Calm()
    ensures file.Served(13, false) == {} && file.fsm.freeBlocks == 9 && !file.Halts(10)
  {
    hide Btree.Valid, Btree.Contents, Own, MapBlocks.Mapped, MapBlocks.FileOk, AlignUp, First, Requests;
    TenFive();
    assert Total([Key(15, 9)]) == 9;
    assert Key(15, 9) in file.fsm.tree.Contents();
  }

  lemma TenFive()
    ensures AlignUp(6, 1) == 6 && First(6, 10, 1) == 10 <= IBLOCK_MAX_NUMBER && Requests(10, 6, 1) == [10]
  {
    assert AlignUp(5, 1) == 5;
  }

  // The tree of overflow records always grows by a 128th of the volume, however far behind its end the block is.

  /** On a volume of 256 blocks that is two blocks. The tree has four nodes, all in use, and one level: four are
      missing, and block 7 is asked for. The file gets blocks 4 and 5; the block returned is one in use, and not
      the file's. */
  method FallsShort() returns (err: Err, block: nat, file: Inode)
    ensures err == OK && file.Valid() && file.ino == EXTENTS_TREE_INO && file.fsm.totalBlocks == 256
    ensures file.total == 6 && block !in file.BlockMap() && block < file.fsm.bits.Length && file.fsm.bits[block]
  {
    hide Fsm.Valid, Btree.Valid, Btree.Contents, Own, MapBlocks.Mapped, MapBlocks.Map, MapBlocks.FileOk;
    hide Inode.Serves, Inode.Loses, Inode.Halts, Inode.Least, Inode.Wanted, Inode.Tries, Inode.Served, Inode.Losing;
    hide Inode.Safe, Inode.Firm, Inode.Calm, OthersKept;
    file := NewTree(EXTENTS_TREE_INO, 256, 4, 2);
    TwoOfFour(file);
    ghost var first;
    ghost var bits := file.fsm.bits[..];
    err, block, first := file.ExpandFile(7, false);
    OneRange(7, 4);
    assert !bits[first] && !bits[first + 1] && bits[block];
  }

  lemma TwoOfFour(file: Inode)
    requires file.Valid() && file.ino == EXTENTS_TREE_INO && file.fsm.totalBlocks == 256 == file.bitmapBlocks
             && file.lebBlocks == 1
    requires file.total == 4 && file.extents == [MapBlocks.Extent(7, 4)] && file.fsm.tree.Contents() == [Key(11, 2)]
    requires Own(file.ext.recs, file.ino) == []
    ensures file.Least(7) == 2 == file.Wanted(7) && file.Tries(7) == [2]
    ensures file.Serves(2, false) && file.Served(7, false) == {2} && file.fsm.freeBlocks == 2 && !file.Halts(2)
  {
    hide Btree.Valid, Btree.Contents, Own, MapBlocks.Mapped, MapBlocks.FileOk, AlignUp, First, Requests;
    TwoOne();
    assert Total([Key(11, 2)]) == 2;
    assert Key(11, 2) in file.fsm.tree.Contents();
  }

  lemma TwoOne()
    ensures AlignUp(2, 1) == 2 && First(2, 1, 1) == 2 && Requests(2, 2, 1) == [2]
  {
    OneRequest(2, 1);
  }

  /** A tree with `used` blocks from block 7 on, followed by the last `left` free blocks of the volume; its nodes have
      the size of a block. */
  method NewTree(ino: nat, volume: nat, used: nat, left: nat) returns (file: Inode)
    requires ino > 0 && volume % 8 == 0 && used > 0 && left > 0 && 7 + used + left < volume <= IBLOCK_MAX_NUMBER
    ensures file.Valid() && file.ino == ino
            && file.fsm.totalBlocks == volume == file.fsm.bits.Length == file.bitmapBlocks
    ensures file.lebBlocks == 1 && file.extents == [MapBlocks.Extent(7, used)] && file.total == used
    ensures Own(file.ext.recs, ino) == [] && file.fsm.tree.Contents() == [Key(7 + used, left)]
    ensures forall b :: 0 <= b < volume ==> (file.fsm.bits[..][b] <==> !(7 + used <= b < 7 + used + left))
    ensures fresh(file) && fresh(file.ext) && fresh(file.fsm) && fresh(file.fsm.bits)
    ensures fresh(file.fsm.tree) && fresh(file.fsm.tree.repr)
  {
    hide Fsm.Valid, Btree.Valid, Btree.Contents, MapBlocks.Mapped, MapBlocks.FileOk, Own, MaximalRun, TakenAt;
    var bits := new bool[volume](i => !(7 <= i < 7 + used + left));
    var fsm := new Fsm(bits, volume / 8, volume, 2);
    ghost var k := Key(7, used + left);
    OneRun(bits[..], k);
    fsm.ItsExtents();
    OneExtent(fsm.tree.Contents(), k);
    assert k in fsm.tree.Contents();
    var ext := new ExtTree([Ext(0, 0, 0, 0)]);
    NothingOwned(ino);
    file := new Inode(ino, fsm, ext, 7, volume, 1);
    var err, result := file.ExpandFork(used);
    TakenFront(k, fsm.tree.Contents(), used);
  }

  lemma OneRange(first: nat, n: nat)
    ensures MapBlocks.Map([MapBlocks.Extent(first, n)], []) == MapBlocks.Range(first, n)
  {
    assert MapBlocks.Extents([]) == [];
    MapBlocks.BlocksAppend([], MapBlocks.Extent(first, n));
    assert [] + [MapBlocks.Extent(first, n)] == [MapBlocks.Extent(first, n)];
  }

  lemma NothingOwned(ino: nat)
    requires ino > 0
    ensures Own([Ext(0, 0, 0, 0)], ino) == []
  {
    OwnIs([Ext(0, 0, 0, 0)], ino, 1, 1);
  }

  lemma OneRun(bits: seq<bool>, k: Key)
    requires 0 < k.offset && k.length > 0 && k.offset + k.length < |bits|
    requires forall b :: 0 <= b < |bits| ==> bits[b] == !(k.offset <= b < k.offset + k.length)
    ensures forall x :: MaximalRun(bits, x) <==> x == k
  {
    forall x | MaximalRun(bits, x) ensures x == k {
      assert !bits[x.offset] && !bits[x.offset + x.length - 1];
      assert bits[x.offset - 1] && bits[x.offset + x.length];
    }
  }

  lemma OneExtent(s: seq<Key>, k: Key)
    requires Extents(s) && forall x :: x in s <==> x == k
    ensures s == [k]
  {
    assert k in s;
    forall i | 0 <= i < |s| ensures s[i] == k {
      assert s[i] in s;
    }
    assert |s| <= 1 || Lt(s[0], s[1]);
  }

  lemma TakenFront(k: Key, r: seq<Key>, n: nat)
    requires TakenAt([k], r, k.offset, n) && n < k.length
    ensures r == [Key(k.offset + n, k.length - n)]
  {
    assert Without([k], k) == [];
  }
}
