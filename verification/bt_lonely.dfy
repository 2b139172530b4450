/** A tree and a key whose removal stops the system. */
module BtLonely {
  import opened Seqs
  import opened BtRecords
  import opened BtSplit
  import opened BtIds
  import opened BtLevels
  import opened BtNodes
  import opened BtRemove
  import opened BtDemand
  import opened BtShape
  import opened BtFate
  import opened BtTree

  // Nodes of one page with up to two records of 1300 bytes. Three leaves with two records each; the level above has
  // two nodes, and the third leaf has no neighbours under its parent.

  const CFG := Config(4096, 1300)

  function Leaf(k: int): Rec {
    Rec(k, 1296, 0, 1300)
  }

  function Sep(k: int, id: nat): Rec {
    IndexRec(Leaf(k), id)
  }

  function Nodes0(): Nodes {
    map[1 := BNode([Sep(1, 2), Sep(5, 3)], 0, 0, false),
        2 := BNode([Sep(1, 4), Sep(3, 5)], 0, 3, false), 3 := BNode([Sep(5, 6)], 2, 0, false),
        4 := BNode([Leaf(1), Leaf(2)], 0, 5, true), 5 := BNode([Leaf(3), Leaf(4)], 4, 6, true),
        6 := BNode([Leaf(5), Leaf(6)], 5, 0, true)]
  }

  function Leaves(): Level {
    Level([4, 5, 6], [[Leaf(1), Leaf(2)], [Leaf(3), Leaf(4)], [Leaf(5), Leaf(6)]])
  }

  function Inner(): Level {
    Level([2, 3], [[Sep(1, 4), Sep(3, 5)], [Sep(5, 6)]])
  }

  function Top(): Level {
    Level([1], [[Sep(1, 2), Sep(5, 3)]])
  }

  function Levels0(): seq<Level> {
    [Leaves(), Inner(), Top()]
  }

  const BITS := [true, true, true, true, true, true, true]

  lemma Pair(x: Rec, y: Rec)
    ensures Size([x, y]) == x.len + y.len + 2 * SLOT && Size([x]) == x.len + SLOT
  {
    SizeOne(x);
    assert [x, y][..1] == [x];
  }

  lemma Flats()
    ensures Flat(Leaves().groups) == [Leaf(1), Leaf(2), Leaf(3), Leaf(4), Leaf(5), Leaf(6)]
    ensures Flat(Inner().groups) == [Sep(1, 4), Sep(3, 5), Sep(5, 6)] && Flat(Top().groups) == [Sep(1, 2), Sep(5, 3)]
  {
    FlatOne(Top().groups[0]);
    FlatOne(Inner().groups[1]);
    assert Inner().groups[1..] == [Inner().groups[1]];
    var gs := Leaves().groups;
    FlatOne(gs[2]);
    assert gs[1..] == [gs[1], gs[2]] && gs[1..][1..] == [gs[2]];
  }

  lemma GoodLevels()
    ensures Good(CFG, Leaves()) && Good(CFG, Inner()) && Good(CFG, Top())
  {
    Flats();
    Pair(Leaf(1), Leaf(2));
    Pair(Leaf(3), Leaf(4));
    Pair(Leaf(5), Leaf(6));
    Pair(Sep(1, 4), Sep(3, 5));
    Pair(Sep(5, 6), Sep(5, 6));
    Pair(Sep(1, 2), Sep(5, 3));
    hide Size, Flat;
  }

  lemma ValidLevels()
    ensures Upper(CFG, Levels0(), 1, 0)
  {
    GoodLevels();
    Flats();
    hide Good, Flat;
    var ls := Levels0();
    assert Index(Leaves()) == [Sep(1, 4), Sep(3, 5), Sep(5, 6)];
    assert Index(Inner()) == [Sep(1, 2), Sep(5, 3)];
    assert Indexed(CFG, ls, 1, 0) && Indexed(CFG, ls, 1, 1) && Indexed(CFG, ls, 1, 2);
  }

  lemma TiedNodes()
    ensures Tied(Nodes0(), Levels0())
  {
    LinkedNodes();
    hide Linked, Nodes0;
    var ls := Levels0();
    assert 1 in ls[2].ids && 2 in ls[1].ids && 3 in ls[1].ids && 4 in ls[0].ids && 5 in ls[0].ids && 6 in ls[0].ids;
  }

  lemma LinkedNodes()
    ensures var nodes := Nodes0();
            Linked(nodes, Leaves(), true) && Linked(nodes, Inner(), false) && Linked(nodes, Top(), false)
                && nodes.Keys == {1, 2, 3, 4, 5, 6}
  {
    var nodes := Nodes0();
    assert LinkedAt(nodes, Leaves(), true, 0) && LinkedAt(nodes, Leaves(), true, 1)
           && LinkedAt(nodes, Leaves(), true, 2);
    assert LinkedAt(nodes, Inner(), false, 0) && LinkedAt(nodes, Inner(), false, 1) && LinkedAt(nodes, Top(), false, 0);
  }

  /** Removing key 6 leaves its leaf more than a third empty, and the leaf is the only one of its parent. */
  lemma NoNeighbour(free: nat)
    ensures var (j, pos) := Spot(Leaves().groups, PlaceOf(Flat(Leaves().groups), 6));
            FateOf(CFG, Bare(Levels0()), free, 0, j, pos).Stop?
  {
    Flats();
    var gs, up := Leaves().groups, Inner().groups;
    PlaceOfLast(Flat(gs), 6, 5);
    assert gs[..2] == [gs[0], gs[1]];
    assert Flat(gs[..2]) == gs[0] + gs[1] by {
      FlatOne(gs[1]);
      assert gs[..2][1..] == [gs[1]];
    }
    SpotOf(gs, 2, 1);
    assert Flat(up[..1]) == up[0] by {
      FlatOne(up[0]);
      assert up[..1] == [up[0]];
    }
    SpotOf(up, 1, 0);
    var rest := Cut(gs[2], 1);
    assert rest == [Leaf(5)];
    SizeOne(Leaf(5));
    hide Flat, Spot, Size, PlaceOf, FateOf, Bare;
    var ls := Levels0();
    FateInner(CFG, ls, free, 0, 2, 1);
    var ls' := ls[0 := SetGroup(ls[0], 2, rest)];
    SettleMerge(CFG, ls', free, 0, 2, 1, 0);
  }

  lemma Starts()
    ensures IdsOk(BITS, Nodes0()) && |Levels0()| == 3 && Halves(4096, 1300) && Levels0()[0] == Leaves()
    ensures var flat := Flat(Leaves().groups); flat != [] && flat[0].key == 1 && HasKey(flat, 6)
  {
    Flats();
    assert Flat(Leaves().groups)[5].key == 6;
  }

  /** The tree, which holds key 6. */
  method NewTree() returns (tree: Btree)
    ensures tree.Valid() && tree.cfg == CFG && tree.levels == Levels0()
    ensures HasKey(tree.Contents(), 6) && tree.Contents()[0].key == 1 && fresh(tree) && fresh(tree.ids)
  {
    hide Upper, Tied, Flat, IdsOk, Nodes0, Levels0, Leaves;
    ValidLevels();
    TiedNodes();
    Starts();
    var ids := new NodeIds(BITS);
    tree := new Btree(CFG, ids, Nodes0(), 1, 3, Levels0());
  }

  /** The system stops, though the record is gone and the tree is valid. */
  method StopsThere(tree: Btree) returns (err: Err)
    requires tree.Valid() && tree.cfg == CFG && tree.levels == Levels0()
    modifies tree, tree.ids
    ensures old(HasKey(tree.Contents(), 6)) && err == BUG && tree.Valid()
  {
    hide Upper, Tied, Flat, IdsOk, Nodes0, Levels0, Leaves, FateOf, Spot, PlaceOf, Bare;
    NoNeighbour(tree.ids.freeNum);
    Starts();
    err := tree.Remove(6);
  }
}
