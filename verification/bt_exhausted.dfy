/** A tree in which an insertion and a removal run out of node ids half way up. */
module BtExhausted {
  import opened Seqs
  import opened Bits
  import opened BtRecords
  import opened BtSplit
  import opened BtIds
  import opened BtLevels
  import opened BtNodes
  import opened BtDemand
  import opened BtRemove
  import opened BtShape
  import opened BtFate
  import opened BtTree

  // Nodes of one page hold three records of 1300 bytes.

  const CFG := Config(4096, 1300)

  function Leaf(k: int): Rec {
    Rec(k, 1296, 0, 1300)
  }

  function Sep(k: int, id: nat): Rec {
    IndexRec(Leaf(k), id)
  }

  const LEFT := [Leaf(1), Leaf(2), Leaf(3)]
  const MID := [Leaf(5), Leaf(6)]
  const TOP := [Sep(1, 2), Sep(5, 3), Sep(9, 4)]

  function Nodes0(): Nodes {
    map[1 := BNode(TOP, 0, 0, false),
        2 := BNode(LEFT, 0, 3, true), 3 := BNode(MID, 2, 4, true), 4 := BNode([Leaf(9)], 3, 0, true)]
  }

  function Levels0(): seq<Level> {
    [Level([2, 3, 4], [LEFT, MID, [Leaf(9)]]), Level([1], [TOP])]
  }

  /** Ids 5 and 6 are free. */
  const BITS := [true, true, true, true, true, false, false]

  /** No id is free. */
  const FULL := [true, true, true, true, true]

  lemma Sizes()
    ensures Size([Leaf(9)]) == 1304 && Size(MID) == 2608 && Size(LEFT) == Size(TOP) == 3912
  {
    SizeOne(Leaf(9));
    ThreeOf(Leaf(5), Leaf(6), Leaf(9));
    ThreeOf(Leaf(1), Leaf(2), Leaf(3));
    ThreeOf(Sep(1, 2), Sep(5, 3), Sep(9, 4));
  }

  lemma ThreeOf(x: Rec, y: Rec, z: Rec)
    ensures Size([x, y, z]) == x.len + y.len + z.len + 3 * SLOT && Size([x, y]) == x.len + y.len + 2 * SLOT
  {
    SizeOne(x);
    assert [x, y][..1] == [x] && [x, y, z][..2] == [x, y];
  }

  lemma Flats()
    ensures Flat(Levels0()[0].groups) == [Leaf(1), Leaf(2), Leaf(3), Leaf(5), Leaf(6), Leaf(9)]
            && Flat(Levels0()[1].groups) == TOP
  {
    FlatOne(TOP);
    var gs := Levels0()[0].groups;
    FlatOne(gs[2]);
    assert gs[1..] == [MID, [Leaf(9)]] && gs[1..][1..] == [gs[2]];
  }

  lemma ValidLevels()
    ensures Upper(CFG, Levels0(), 1, 0)
  {
    Sizes();
    Flats();
    hide Size, Flat;
    var ls := Levels0();
    assert Good(CFG, ls[0]) && Good(CFG, ls[1]);
    assert Index(ls[0]) == TOP;
    assert Indexed(CFG, ls, 1, 0) && Indexed(CFG, ls, 1, 1);
  }

  lemma TiedNodes()
    ensures Tied(Nodes0(), Levels0())
  {
    var ls := Levels0();
    assert LinkedAt(Nodes0(), ls[0], true, 0) && LinkedAt(Nodes0(), ls[0], true, 1)
           && LinkedAt(Nodes0(), ls[0], true, 2);
    assert LinkedAt(Nodes0(), ls[1], false, 0);
    assert 1 in ls[1].ids && 2 in ls[0].ids && 3 in ls[0].ids && 4 in ls[0].ids;
  }

  lemma TwoFree()
    ensures NumClear(BITS) == 2 && NumClear(FULL) == 0
  {
    assert BITS[..6][..5] == [true, true, true, true, true];
    NoneFree(FULL);
    assert BITS[..6][..5] == BITS[..5];
  }

  lemma NoneFree(bits: seq<bool>)
    requires forall i :: 0 <= i < |bits| ==> bits[i]
    ensures NumClear(bits) == 0
  {
    NumClearZero(bits);
  }

  /** The insertion of key 4 splits the first leaf and the root. */
  lemma TwoSplits()
    ensures Demand(CFG, Levels0(), 0, Leaf(4)) == 2
  {
    Sizes();
    Flats();
    var ls := Levels0();
    assert PlaceOf(Flat(ls[0].groups), 4) == 2 by {
      PlaceOfLast(Flat(ls[0].groups), 4, 2);
    }
    var all := Inserted(LEFT, 3, Leaf(4));
    assert all == [Leaf(1), Leaf(2), Leaf(3), Leaf(4)];
    assert all[..2] == [Leaf(1), Leaf(2)] && all[..1] == [Leaf(1)];
    ThreeOf(Leaf(1), Leaf(2), Leaf(3));
    SizeOne(Leaf(1));
    MiddleIs(all, 2, 4096);
    hide Size, Flat, Middle, PlaceOf;
    assert Splits(CFG, ls, 1, 0, 0, IndexRec(Leaf(3), 0)) == 1;
  }

  lemma Starts()
    ensures IdsOk(BITS, Nodes0()) && IdsOk(FULL, Nodes0()) && |Levels0()| == 2 && Halves(4096, 1300)
    ensures var flat := Flat(Levels0()[0].groups); flat != [] && flat[0].key == 1 && !HasKey(flat, 4) && HasKey(flat, 5)
  {
    Flats();
    assert Flat(Levels0()[0].groups)[3].key == 5;
  }

  /** The tree with one of the two bitmaps. It lacks key 4 and holds key 5. */
  method NewTree(bits: seq<bool>) returns (tree: Btree)
    requires bits == BITS || bits == FULL
    ensures tree.Valid() && tree.cfg == CFG && tree.levels == Levels0() && tree.ids.bits == bits
    ensures !HasKey(tree.Contents(), 4) && HasKey(tree.Contents(), 5) && tree.Contents()[0].key == 1
    ensures fresh(tree) && fresh(tree.ids)
  {
    hide Upper, Tied, Flat, NumClear, IdsOk, Nodes0, Levels0;
    ValidLevels();
    TiedNodes();
    Starts();
    var ids := new NodeIds(bits);
    tree := new Btree(CFG, ids, Nodes0(), 1, 2, Levels0());
  }

  /** Two ids are free and the file of the tree is as long as the bitmap. With space on the volume to grow the file, the
      reserve check passes, the leaf is split, and the root finds no ids for its own split. The records are all there,
      but the tree is not valid any more. */
  method RunsOut(tree: Btree) returns (err: Err)
    requires tree.Valid() && tree.cfg == CFG && tree.levels == Levels0() && tree.ids.bits == BITS
    modifies tree, tree.ids
    ensures !old(HasKey(tree.Contents(), 4)) && old(tree.Reserve(|BITS|, true))
    ensures err == ENOSPC && !tree.Valid()
    ensures exists recs :: tree.Torn(0, recs) && multiset(recs) == multiset(old(tree.Contents())) + multiset{Leaf(4)}
  {
    hide Upper, Tied, Flat, Demand, NumClear, IdsOk, Nodes0, Levels0;
    TwoFree();
    TwoSplits();
    Starts();
    err := tree.Insert(Leaf(4), |BITS|, true);
  }

  /** Key 5 is the first of its leaf, and its separator stands in the full root. */
  lemma NoRoom()
    ensures var (j, pos) := Spot(Levels0()[0].groups, PlaceOf(Flat(Levels0()[0].groups), 5));
            FateOf(CFG, Bare(Levels0()), 0, 0, j, pos) == Exhausted
  {
    Sizes();
    Flats();
    var ls := Levels0();
    var gs := ls[0].groups;
    PlaceOfLast(Flat(gs), 5, 3);
    assert gs[..1] == [LEFT];
    FlatOne(LEFT);
    SpotOf(gs, 1, 0);
    var ls' := ls[0 := SetGroup(ls[0], 1, Cut(MID, 0))];
    assert Spot(ls'[1].groups, 1) == (0, 1);
    hide Flat, Spot, Size, PlaceOf, Middle, Bare, TakeOut, FateOf;
    var n := Splits(CFG, ls', 1, 0, 1, Plain(IndexRec(Leaf(6), 3)));
    RenewShort(CFG, ls', 0, 1, 1, IndexRec(Leaf(6), 3), n);
    TakeOutBare(CFG, ls, 0, 0, 1, 0);
    FateHere(CFG, ls, 0, 0, 1, 0);
  }

  /** With no free id the removal of key 5 fails: there is no reserve check on this way, and the new separator would
      split the root. The record is gone nevertheless, and the separator of its leaf is not the leaf's first key. */
  method FailsLate(tree: Btree) returns (err: Err)
    requires tree.Valid() && tree.cfg == CFG && tree.levels == Levels0() && tree.ids.bits == FULL
    modifies tree, tree.ids
    ensures old(HasKey(tree.Contents(), 5)) && err == ENOSPC && !tree.Valid()
    ensures exists recs :: tree.Damaged(0, recs) && Others(recs, old(tree.Contents()), 5)
  {
    hide Upper, Tied, Flat, NumClear, IdsOk, Nodes0, Levels0, Bare, FateOf, Spot, PlaceOf;
    TwoFree();
    NoRoom();
    Starts();
    err := tree.Remove(5);
  }
}
