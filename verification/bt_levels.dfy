/** A B+tree as a stack of levels: what a valid stack is and what the edits of one level do. */
module BtLevels {
  import opened Seqs
  import opened BtRecords
  import opened BtSplit

  /** The nodes of one level from left to right: their ids and their records. */
  datatype Level = Level(ids: seq<nat>, groups: seq<seq<Rec>>)

  /** Node size and longest record. */
  datatype Config = Config(size: nat, max: nat)

  function First(g: seq<Rec>): Rec {
    if g == [] then Rec(0, 0, 0, 0) else g[0]
  }

  /** What the level above has to hold: one index record per node, with the node's first key. */
  ghost function Index(lv: Level): seq<Rec> {
    seq(|lv.ids|, i requires 0 <= i < |lv.ids| => IndexRec(FirstAt(lv, i), lv.ids[i]))
  }

  function FirstAt(lv: Level, i: nat): Rec {
    if i < |lv.groups| then First(lv.groups[i]) else First([])
  }

  ghost predicate GoodNode(cfg: Config, g: seq<Rec>) {
    g != [] && FitsNode(g, cfg.size) && RecsOk(g, cfg.max)
  }

  ghost predicate GoodNodes(cfg: Config, gs: seq<seq<Rec>>) {
    forall j :: 0 <= j < |gs| ==> GoodNode(cfg, gs[j])
  }

  ghost predicate Good(cfg: Config, lv: Level) {
    |lv.ids| == |lv.groups| > 0 && GoodNodes(cfg, lv.groups) && Sorted(Flat(lv.groups))
  }

  /** The levels from `m` on index exactly `recs`; above the top, `recs` is the root alone. */
  ghost predicate Above(ls: seq<Level>, root: nat, m: nat, recs: seq<Rec>) {
    if m < |ls| then Flat(ls[m].groups) == recs else m == |ls| && |recs| == 1 && recs[0].val == root
  }

  ghost predicate Indexed(cfg: Config, ls: seq<Level>, root: nat, m: nat)
    requires m < |ls|
  {
    Good(cfg, ls[m]) && Above(ls, root, m + 1, Index(ls[m]))
  }

  /** The levels from `c` on are a valid tree. */
  ghost predicate Upper(cfg: Config, ls: seq<Level>, root: nat, c: nat) {
    c < |ls| && forall m :: c <= m < |ls| ==> Indexed(cfg, ls, root, m)
  }

  /** The position of the last record not above `k`, or 0. */
  predicate At(s: seq<Rec>, k: int, g: nat) {
    g < |s| && if k < s[0].key then g == 0 else Last(s, k, g)
  }

  // Locating a key, level by level.

  lemma FirstFlat(cfg: Config, lv: Level)
    requires Good(cfg, lv)
    ensures Flat(lv.groups) != [] && Flat(lv.groups)[0] == lv.groups[0][0] && Index(lv)[0].key == lv.groups[0][0].key
  {
    assert GoodNode(cfg, lv.groups[0]);
  }

  lemma NodeSorted(cfg: Config, lv: Level, j: nat)
    requires Good(cfg, lv) && j < |lv.groups|
    ensures Sorted(lv.groups[j]) && GoodNode(cfg, lv.groups[j])
  {
    FlatAt(lv.groups, j);
    SortedParts(Flat(lv.groups[..j]), lv.groups[j], Flat(lv.groups[j + 1..]));
  }

  /** A node whose first key is at most `k` and whose right neighbour's is above holds the place of `k`. */
  lemma InNode(cfg: Config, lv: Level, j: nat, k: int, pos: nat)
    requires Good(cfg, lv) && j < |lv.groups|
    requires lv.groups[j] != [] && lv.groups[j][0].key <= k && Last(lv.groups[j], k, pos)
    requires j + 1 < |lv.groups| ==> k < First(lv.groups[j + 1]).key
    ensures Last(Flat(lv.groups), k, Place(lv.groups, j, pos))
  {
    var gs := lv.groups;
    FlatAt(gs, j);
    var b := gs[j + 1..];
    if b != [] {
      assert b[0] == gs[j + 1] && GoodNode(cfg, gs[j + 1]);
      assert Flat(b)[0] == First(gs[j + 1]);
    }
  }

  lemma IndexAt(lv: Level, j: nat)
    requires |lv.ids| == |lv.groups| && j < |lv.ids|
    ensures Index(lv)[j] == IndexRec(First(lv.groups[j]), lv.ids[j])
  {
  }

  /** From the place of `k` in the index to its place in the level below. */
  lemma Descend(cfg: Config, lv: Level, k: int, g: nat, pos: nat)
    requires Good(cfg, lv) && At(Index(lv), k, g) && lv.groups[g] != [] && pos < |lv.groups[g]|
    requires if k < lv.groups[g][0].key then pos == 0 else Last(lv.groups[g], k, pos)
    ensures At(Flat(lv.groups), k, Place(lv.groups, g, pos))
  {
    FirstFlat(cfg, lv);
    if k < Index(lv)[0].key {
      PlaceAt(lv.groups, 0, 0);
    } else {
      InNode(cfg, lv, g, k, pos);
      NodeSorted(cfg, lv, g);
    }
  }

  // Edits of one level.

  function SetGroup(lv: Level, j: nat, g: seq<Rec>): Level
    requires j < |lv.groups|
  {
    lv.(groups := lv.groups[j := g])
  }

  lemma SetGroupFlat(lv: Level, j: nat, g: seq<Rec>)
    requires j < |lv.groups|
    ensures Flat(SetGroup(lv, j, g).groups) == Flat(lv.groups[..j]) + g + Flat(lv.groups[j + 1..])
  {
    var gs := lv.groups[j := g];
    FlatAt(gs, j);
    assert gs[..j] == lv.groups[..j] && gs[j + 1..] == lv.groups[j + 1..];
  }

  lemma SetGroupIndex(lv: Level, j: nat, g: seq<Rec>)
    requires |lv.ids| == |lv.groups| && j < |lv.groups|
    ensures Index(SetGroup(lv, j, g)) == Index(lv)[j := IndexRec(First(g), lv.ids[j])]
  {
  }

  /** Node `j` replaced by two. */
  function SplitLevel(lv: Level, j: nat, b1: nat, p1: seq<Rec>, b2: nat, p2: seq<Rec>): Level
    requires |lv.ids| == |lv.groups| && j < |lv.groups|
  {
    Level(lv.ids[..j] + [b1, b2] + lv.ids[j + 1..], lv.groups[..j] + [p1, p2] + lv.groups[j + 1..])
  }

  lemma SplitLevelFlat(lv: Level, j: nat, b1: nat, p1: seq<Rec>, b2: nat, p2: seq<Rec>)
    requires |lv.ids| == |lv.groups| && j < |lv.groups|
    ensures Flat(SplitLevel(lv, j, b1, p1, b2, p2).groups) == Flat(lv.groups[..j]) + (p1 + p2)
            + Flat(lv.groups[j + 1..])
  {
    FlatPair(lv.groups[..j], p1, p2, lv.groups[j + 1..]);
  }

  lemma SplitLevelIndex(lv: Level, j: nat, b1: nat, p1: seq<Rec>, b2: nat, p2: seq<Rec>)
    requires |lv.ids| == |lv.groups| && j < |lv.groups|
    ensures Index(SplitLevel(lv, j, b1, p1, b2, p2)) ==
            Index(lv)[..j] + [IndexRec(First(p1), b1), IndexRec(First(p2), b2)] + Index(lv)[j + 1..]
  {
  }

  /** Node `j` taken out. */
  function DropNode(lv: Level, j: nat): Level
    requires |lv.ids| == |lv.groups| && j < |lv.groups|
  {
    Level(lv.ids[..j] + lv.ids[j + 1..], lv.groups[..j] + lv.groups[j + 1..])
  }

  lemma DropNodeFlat(lv: Level, j: nat)
    requires |lv.ids| == |lv.groups| && j < |lv.groups|
    ensures Flat(DropNode(lv, j).groups) == Flat(lv.groups[..j]) + Flat(lv.groups[j + 1..])
    ensures Index(DropNode(lv, j)) == Index(lv)[..j] + Index(lv)[j + 1..]
  {
    FlatConcat(lv.groups[..j], lv.groups[j + 1..]);
  }

  /** Node `j + 1` emptied into node `j`. */
  function MergeLevel(lv: Level, j: nat): Level
    requires |lv.ids| == |lv.groups| && j + 1 < |lv.groups|
  {
    Level(lv.ids[..j + 1] + lv.ids[j + 2..], lv.groups[..j] + [lv.groups[j] + lv.groups[j + 1]] + lv.groups[j + 2..])
  }

  lemma FlatPair(a: seq<seq<Rec>>, g: seq<Rec>, h: seq<Rec>, b: seq<seq<Rec>>)
    ensures Flat(a + [g, h] + b) == Flat(a) + (g + h) + Flat(b)
  {
    hide Flat;
    assert a + [g, h] + b == a + [g] + ([h] + b);
    FlatThree(a, g, [h] + b);
    FlatConcat([h], b);
    FlatOne(h);
    assert Flat(a) + g + (h + Flat(b)) == Flat(a) + (g + h) + Flat(b);
  }

  lemma MergeLevelFlat(lv: Level, j: nat)
    requires |lv.ids| == |lv.groups| && j + 1 < |lv.groups|
    ensures Flat(MergeLevel(lv, j).groups) == Flat(lv.groups)
  {
    hide Flat;
    var a, g, h, b := lv.groups[..j], lv.groups[j], lv.groups[j + 1], lv.groups[j + 2..];
    assert lv.groups == a + [g, h] + b;
    FlatPair(a, g, h, b);
    FlatThree(a, g + h, b);
  }

  lemma MergeLevelIndex(lv: Level, j: nat)
    requires |lv.ids| == |lv.groups| && j + 1 < |lv.groups| && lv.groups[j] != []
    ensures Index(MergeLevel(lv, j)) == Index(lv)[..j + 1] + Index(lv)[j + 2..]
  {
    var lv' := MergeLevel(lv, j);
    assert First(lv'.groups[j]) == First(lv.groups[j]);
  }
}
