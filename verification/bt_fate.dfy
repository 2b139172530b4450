/** What becomes of a removal, from the shape of the tree before it and the number of free ids. */
module BtFate {
  import opened Seqs
  import opened BtRecords
  import opened BtSplit
  import opened BtLevels
  import opened BtSteps
  import opened BtRemove
  import opened BtDemand
  import opened BtShape

  ghost function GroupAt(ls: seq<Level>, c: nat, j: int): seq<Rec> {
    if c < |ls| && 0 <= j < |ls[c].groups| then ls[c].groups[j] else []
  }

  /** A removal succeeds and leaves a tree of some shape, with or without another root; or it stops the system; or it
      runs out of ids. */
  datatype Fate = Fine(levels: seq<Level>, free: nat, lowered: bool) | Stop(levels: seq<Level>, free: nat) | Exhausted

  /** The levels after nodes `j` and `j + 1` of level `c` are merged and the separator of the second one, at `sep` of
      node `pj`, is taken out. */
  function Merged(ls: seq<Level>, c: nat, j: nat, pj: nat, sep: nat): seq<Level>
    requires c + 1 < |ls| && |ls[c].ids| == |ls[c].groups| && j + 1 < |ls[c].groups|
    requires pj < |ls[c + 1].groups| && sep < |ls[c + 1].groups[pj]|
  {
    ls[c := MergeLevel(ls[c], j)][c + 1 := SetGroup(ls[c + 1], pj, Cut(ls[c + 1].groups[pj], sep))]
  }

  /** What follows when node `j` of level `c` has lost a record. A node with more than a third of its bytes free is
      merged with a neighbour under the same parent, the left one if there is one, if both fit in one node; that takes
      a record from the parent, and goes on there. A parent of one record has no neighbour to offer, and the system
      stops. A root with one record gives way to its child. */
  ghost function Settle(cfg: Config, ls: seq<Level>, free: nat, c: nat, j: nat): (f: Fate)
    ensures !f.Exhausted?
    decreases |ls| - c
  {
    var g := GroupAt(ls, c, j);
    if c >= |ls| || FreeSpace(g, cfg.size) <= cfg.size / 3 then Fine(ls, free, false)
    else if c + 1 == |ls| then
      if |g| == 1 && c > 0 then Fine(ls[..c], free + 1, true) else Fine(ls, free, false)
    else
      var (pj, pos) := Spot(ls[c + 1].groups, j);
      var parent := GroupAt(ls, c + 1, pj);
      var left, neighbour := if pos > 0 then j - 1 else j, if pos > 0 then j - 1 else j + 1;
      var sep := if pos > 0 then pos else 1;
      if |parent| <= 1 then Stop(ls, free)
      else if FreeSpace(g, cfg.size) + FreeSpace(GroupAt(ls, c, neighbour), cfg.size) < cfg.size
      then Fine(ls, free, false)
      else if sep < |parent| && 0 <= left && left + 1 < |ls[c].groups| == |ls[c].ids|
      then Settle(cfg, Merged(ls, c, left, pj, sep), free + 1, c + 1, pj)
      else Fine(ls, free, false)
  }

  /** What becomes of taking record `pos` out of node `j` of level `c`, in a tree of shape `ls` with `free` ids left: a
      node that loses its only record goes, and its separator with it; a node that keeps others may have its separator
      renewed, and is then looked at for a merge. */
  ghost function FateOf(cfg: Config, ls: seq<Level>, free: nat, c: nat, j: nat, pos: nat): Fate
    decreases |ls| - c
  {
    if c >= |ls| || !(j < |ls[c].ids| == |ls[c].groups|) || pos >= |ls[c].groups[j]| then Fine(ls, free, false)
    else if |ls[c].groups[j]| == 1 then
      if c + 1 == |ls| then Fine(ls, free, false)
      else
        var (pj, pp) := Spot(ls[c + 1].groups, j);
        FateOf(cfg, ls[c := DropNode(ls[c], j)], free + 1, c + 1, pj, pp)
    else
      match TakeOut(cfg, ls, free, c, j, pos)
      case Short => Exhausted
      case Done(ls', free') => Settle(cfg, ls', free', c, j)
  }

  // The same as seen on the levels.

  lemma GroupBare(ls: seq<Level>, c: nat, j: int)
    ensures GroupAt(Bare(ls), c, j) == Bares(GroupAt(ls, c, j))
            && Size(GroupAt(Bare(ls), c, j)) == Size(GroupAt(ls, c, j))
  {
    hide Size;
    assert Bares([]) == [];
    SizeBare(GroupAt(ls, c, j));
  }

  lemma MergeLevelBare(lv: Level, j: nat)
    requires |lv.ids| == |lv.groups| && j + 1 < |lv.groups|
    ensures BareLevel(MergeLevel(lv, j)) == MergeLevel(BareLevel(lv), j)
  {
    ConcatBare(lv.groups[j], lv.groups[j + 1]);
    hide Bares;
    var a, b := MergeLevel(lv, j), MergeLevel(BareLevel(lv), j);
    assert BareNodes(a.groups) == b.groups;
    assert BareLevel(a).ids == b.ids;
  }

  lemma MergedBare(ls: seq<Level>, c: nat, j: nat, pj: nat, sep: nat)
    requires c + 1 < |ls| && |ls[c].ids| == |ls[c].groups| && j + 1 < |ls[c].groups|
    requires pj < |ls[c + 1].groups| && sep < |ls[c + 1].groups[pj]|
    ensures Bare(Merged(ls, c, j, pj, sep)) == Merged(Bare(ls), c, j, pj, sep)
  {
    hide Bares, BareNodes, Cut, MergeLevel;
    MergeLevelBare(ls[c], j);
    var ls' := ls[c := MergeLevel(ls[c], j)];
    SetLevelBare(ls, c, MergeLevel(ls[c], j));
    CutLevelBare(ls', c + 1, pj, sep);
  }

  /** A node that is not to be merged, or is the root. */
  lemma SettleHere(cfg: Config, ls: seq<Level>, free: nat, c: nat, j: nat)
    requires c < |ls| && j < |ls[c].groups|
    ensures FreeSpace(ls[c].groups[j], cfg.size) <= cfg.size / 3 ==>
              Settle(cfg, Bare(ls), free, c, j) == Fine(Bare(ls), free, false)
    ensures FreeSpace(ls[c].groups[j], cfg.size) > cfg.size / 3 && c + 1 == |ls| ==>
              Settle(cfg, Bare(ls), free, c, j) ==
              if |ls[c].groups[j]| == 1 && c > 0 then Fine(Bare(ls[..c]), free + 1, true)
              else Fine(Bare(ls), free, false)
  {
    hide Size, Bares;
    GroupBare(ls, c, j);
    assert Bare(ls[..c]) == Bare(ls)[..c];
  }

  lemma SpotParent(gs: seq<seq<Rec>>, j: nat, pj: nat, pos: nat)
    requires pj < |gs| && pos < |gs[pj]| && j == Place(gs, pj, pos)
    ensures Spot(gs, j) == (pj, pos) && (pos + 1 < |gs[pj]| ==> Spot(gs, j + 1) == (pj, pos + 1))
  {
    hide Place, Spot;
    SpotOf(gs, pj, pos);
    if pos + 1 < |gs[pj]| {
      SpotNext(gs, j, pj, pos);
    }
  }

  /** The three cases of a node that is to be merged, with its parent known. */
  lemma SettleMerge(cfg: Config, ls: seq<Level>, free: nat, c: nat, j: nat, pj: nat, pos: nat)
    requires c + 1 < |ls| && j < |ls[c].groups| == |ls[c].ids| && pj < |ls[c + 1].groups|
             && pos < |ls[c + 1].groups[pj]|
    requires j == Place(ls[c + 1].groups, pj, pos) && (pos > 0 ==> j > 0)
    requires pos + 1 < |ls[c + 1].groups[pj]| ==> j + 1 < |ls[c].groups|
    requires FreeSpace(ls[c].groups[j], cfg.size) > cfg.size / 3
    ensures var fate := Settle(cfg, Bare(ls), free, c, j); var room := FreeSpace(ls[c].groups[j], cfg.size);
            if pos > 0 then
              fate == if room + FreeSpace(ls[c].groups[j - 1], cfg.size) >= cfg.size
                      then Settle(cfg, Bare(Merged(ls, c, j - 1, pj, pos)), free + 1, c + 1, pj)
                      else Fine(Bare(ls), free, false)
            else if |ls[c + 1].groups[pj]| > 1 then
              fate == if room + FreeSpace(ls[c].groups[j + 1], cfg.size) >= cfg.size
                      then Settle(cfg, Bare(Merged(ls, c, j, pj, 1)), free + 1, c + 1, pj)
                      else Fine(Bare(ls), free, false)
            else fate == Stop(Bare(ls), free)
  {
    hide Size, Place, Spot, Bares, Merged;
    SpotOf(ls[c + 1].groups, pj, pos);
    SpotBare(ls[c + 1].groups, j);
    GroupBare(ls, c, j);
    GroupBare(ls, c + 1, pj);
    if pos > 0 {
      GroupBare(ls, c, j - 1);
      MergedBare(ls, c, j - 1, pj, pos);
    } else if |ls[c + 1].groups[pj]| > 1 {
      GroupBare(ls, c, j + 1);
      MergedBare(ls, c, j, pj, 1);
    }
  }

  /** The fate of a record whose node keeps others. */
  lemma FateHere(cfg: Config, ls: seq<Level>, free: nat, c: nat, j: nat, pos: nat)
    requires c < |ls| && j < |ls[c].ids| == |ls[c].groups| && pos < |ls[c].groups[j]| && |ls[c].groups[j]| >= 2
    ensures var t := TakeOut(cfg, Bare(ls), free, c, j, pos);
            FateOf(cfg, Bare(ls), free, c, j, pos) == if t.Short? then Exhausted
                else Settle(cfg, t.levels, t.free, c, j)
  {
    hide TakeOut, Settle, Bares;
  }

  /** The fate of a record that is not the first of its node: no id is needed. */
  lemma FateInner(cfg: Config, ls: seq<Level>, free: nat, c: nat, j: nat, pos: nat)
    requires c < |ls| && j < |ls[c].ids| == |ls[c].groups| && 0 < pos < |ls[c].groups[j]|
    ensures FateOf(cfg, Bare(ls), free, c, j, pos)
            == Settle(cfg, Bare(ls[c := SetGroup(ls[c], j, Cut(ls[c].groups[j], pos))]), free, c, j)
  {
    hide TakeOut, Settle, Cut, Bares, FateOf;
    FateHere(cfg, ls, free, c, j, pos);
    TakeOutBare(cfg, ls, free, c, j, pos);
  }

  /** The fate of the only record of a node, as seen on the levels without the node. */
  lemma FateUp(cfg: Config, ls: seq<Level>, free: nat, c: nat, j: nat)
    requires c + 1 < |ls| && j < |ls[c].ids| == |ls[c].groups| && |ls[c].groups[j]| == 1
    ensures var (pj, pp) := Spot(ls[c + 1].groups, j); var ls' := ls[c := DropNode(ls[c], j)];
            FateOf(cfg, Bare(ls), free, c, j, 0) == FateOf(cfg, Bare(ls'), free + 1, c + 1, pj, pp)
  {
    hide Spot, DropNode, Bares, BareNodes;
    DropNodeBare(ls[c], j);
    SetLevelBare(ls, c, DropNode(ls[c], j));
    SpotBare(ls[c + 1].groups, j);
  }

  /** The next place is in the same node, if the node has one. */
  lemma SpotNext(gs: seq<seq<Rec>>, g: nat, j: nat, i: nat)
    requires j < |gs| && i + 1 < |gs[j]| && g == Place(gs, j, i)
    ensures Spot(gs, g + 1) == (j, i + 1)
  {
    SpotOf(gs, j, i + 1);
  }
}
