/** What removals, key updates and merges do to the stack of levels. */
module BtRemove {
  import opened Seqs
  import opened BtRecords
  import opened BtSplit
  import opened BtLevels
  import opened BtSteps

  /** `s` without the record at `g`. */
  function Cut(s: seq<Rec>, g: nat): seq<Rec>
    requires g < |s|
  {
    s[..g] + s[g + 1..]
  }

  lemma CutFacts(s: seq<Rec>, g: nat, max: nat)
    requires g < |s| && RecsOk(s, max)
    ensures Size(Cut(s, g)) == Size(s) - s[g].len - SLOT && RecsOk(Cut(s, g), max) && |Cut(s, g)| == |s| - 1
  {
    hide Size;
    SplitAt(s, g);
    SizeConcat(s[..g] + [s[g]], s[g + 1..]);
    SizeConcat(s[..g], [s[g]]);
    SizeConcat(s[..g], s[g + 1..]);
    SizeOne(s[g]);
  }

  lemma CutSorted(s: seq<Rec>, g: nat)
    requires Sorted(s) && g < |s|
    ensures Sorted(Cut(s, g)) && multiset(Cut(s, g)) == multiset(s) - multiset{s[g]}
  {
    SplitAt(s, g);
  }

  lemma CutInNode(gs: seq<seq<Rec>>, j: nat, pos: nat)
    requires j < |gs| && pos < |gs[j]|
    ensures Place(gs, j, pos) < |Flat(gs)|
    ensures Flat(gs[..j]) + Cut(gs[j], pos) + Flat(gs[j + 1..]) == Cut(Flat(gs), Place(gs, j, pos))
  {
    FlatAt(gs, j);
    CutMiddle(Flat(gs[..j]), gs[j], Flat(gs[j + 1..]), pos);
  }

  lemma CutMiddle(a: seq<Rec>, m: seq<Rec>, b: seq<Rec>, pos: nat)
    requires pos < |m|
    ensures a + Cut(m, pos) + b == Cut(a + m + b, |a| + pos)
  {
  }

  /** A record taken out of a node that keeps others. */
  lemma CutIn(cfg: Config, lv: Level, j: nat, pos: nat)
    requires Good(cfg, lv) && j < |lv.ids| && pos < |lv.groups[j]| && |lv.groups[j]| >= 2
    ensures Place(lv.groups, j, pos) < |Flat(lv.groups)|
    ensures var g := Cut(lv.groups[j], pos); var lv' := SetGroup(lv, j, g);
            && Good(cfg, lv') && Flat(lv'.groups) == Cut(Flat(lv.groups), Place(lv.groups, j, pos))
            && Index(lv') == Index(lv)[j := IndexRec(First(g), lv.ids[j])] && (pos > 0 ==> Index(lv') == Index(lv))
  {
    hide Flat, Size, Sorted;
    var g := Cut(lv.groups[j], pos);
    NodeSorted(cfg, lv, j);
    CutFacts(lv.groups[j], pos, cfg.max);
    SetGroupFlat(lv, j, g);
    SetGroupIndex(lv, j, g);
    CutInNode(lv.groups, j, pos);
    CutSorted(Flat(lv.groups), Place(lv.groups, j, pos));
    IndexAt(lv, j);
    assert GoodNode(cfg, g);
  }

  /** A node that loses its only record is taken out. */
  lemma CutOut(cfg: Config, lv: Level, j: nat)
    requires Good(cfg, lv) && 0 < j < |lv.ids| && |lv.groups[j]| == 1
    ensures Place(lv.groups, j, 0) < |Flat(lv.groups)|
    ensures var lv' := DropNode(lv, j);
            && Good(cfg, lv') && Flat(lv'.groups) == Cut(Flat(lv.groups), Place(lv.groups, j, 0))
               && Index(lv') == Cut(Index(lv), j)
  {
    hide Flat, Sorted;
    var lv' := DropNode(lv, j);
    DropNodeFlat(lv, j);
    CutInNode(lv.groups, j, 0);
    CutSorted(Flat(lv.groups), Place(lv.groups, j, 0));
    assert Flat(lv.groups[..j]) + [] + Flat(lv.groups[j + 1..]) == Flat(lv'.groups);
    assert GoodNodes(cfg, lv'.groups) by {
      hide GoodNode;
    }
  }

  /** Two neighbours that fit one node. */
  lemma MergeIn(cfg: Config, lv: Level, j: nat)
    requires Good(cfg, lv) && j + 1 < |lv.ids| && FitsNode(lv.groups[j] + lv.groups[j + 1], cfg.size)
    ensures var lv' := MergeLevel(lv, j);
            Good(cfg, lv') && Flat(lv'.groups) == Flat(lv.groups) && Index(lv') == Cut(Index(lv), j + 1)
  {
    hide Flat, Sorted, FitsNode;
    NodeSorted(cfg, lv, j);
    NodeSorted(cfg, lv, j + 1);
    MergeLevelFlat(lv, j);
    MergeLevelIndex(lv, j);
    var g := lv.groups[j] + lv.groups[j + 1];
    assert GoodNode(cfg, g);
    assert GoodNodes(cfg, MergeLevel(lv, j).groups) by {
      hide GoodNode;
    }
  }

  /** A level with what the levels above want of it makes them valid together. */
  lemma GlueOne(cfg: Config, ls: seq<Level>, root: nat, c: nat)
    requires c < |ls| && Good(cfg, ls[c]) && Above(ls, root, c + 1, Index(ls[c]))
    requires c + 1 < |ls| ==> Upper(cfg, ls, root, c + 1)
    ensures Upper(cfg, ls, root, c)
  {
    hide Good;
    assert Lower(cfg, ls, c, c + 1);
    Glue(cfg, ls, root, c, c + 1);
  }

  /** The second record of a node lies between the first one and the next node. */
  lemma SecondBetween(cfg: Config, lv: Level, j: nat)
    requires Good(cfg, lv) && j < |lv.ids| && |lv.groups[j]| >= 2
    ensures Index(lv)[j].key == lv.groups[j][0].key < lv.groups[j][1].key
    ensures j + 1 < |lv.ids| ==> lv.groups[j][1].key < Index(lv)[j + 1].key
    ensures RecOk(IndexRec(lv.groups[j][1], lv.ids[j]), cfg.max)
  {
    NodeSorted(cfg, lv, j);
    IndexAt(lv, j);
    if j + 1 < |lv.ids| {
      IndexAt(lv, j + 1);
      NodeSorted(cfg, lv, j + 1);
      FlatAt(lv.groups, j);
      SortedParts(Flat(lv.groups[..j]), lv.groups[j], Flat(lv.groups[j + 1..]));
      assert lv.groups[j + 1..][0] == lv.groups[j + 1];
      assert Flat(lv.groups[j + 1..])[0] == lv.groups[j + 1][0];
    }
  }

  /** A node that does not hold the first record of its level is not the first, and not the root. */
  lemma NotFirst(cfg: Config, ls: seq<Level>, root: nat, c: nat, j: nat, pos: nat)
    requires Upper(cfg, ls, root, c) && j < |ls[c].ids| == |ls[c].groups| && pos < |ls[c].groups[j]| && pos == 0
    requires Place(ls[c].groups, j, pos) > 0
    ensures j > 0 && c + 1 < |ls| && Flat(ls[c + 1].groups) == Index(ls[c])
  {
    assert Indexed(cfg, ls, root, c);
    assert ls[c].groups[..0] == [];
  }

  /** Replacing a record through an insertion after it. */
  lemma CutAfter(s: seq<Rec>, g: nat, r: Rec)
    requires g < |s|
    ensures |After(s, g, r)| == |s| + 1 && After(s, g, r)[g] == s[g] && Cut(After(s, g, r), g) == s[g := r]
  {
  }

  lemma KeyPlace(s: seq<Rec>, k: int, g: nat, h: nat)
    requires Sorted(s) && At(s, k, g) && h < |s| && s[h].key == k
    ensures g == h
  {
    if k < s[0].key {
      assert s[h].key == k;
    }
  }
}
