/** The shape of a tree, without node ids: what insertions and the renewal of separators make of it. */
module BtShape {
  import opened Seqs
  import opened BtRecords
  import opened BtSplit
  import opened BtLevels
  import opened BtSteps
  import opened BtRemove
  import opened BtDemand

  function Bares(s: seq<Rec>): (b: seq<Rec>)
    ensures |b| == |s| && forall i :: 0 <= i < |s| ==> b[i] == Plain(s[i])
  {
    seq(|s|, i requires 0 <= i < |s| => Plain(s[i]))
  }

  function BareNodes(gs: seq<seq<Rec>>): (b: seq<seq<Rec>>)
    ensures |b| == |gs| && forall i :: 0 <= i < |gs| ==> b[i] == Bares(gs[i])
  {
    seq(|gs|, i requires 0 <= i < |gs| => Bares(gs[i]))
  }

  function BareLevel(lv: Level): Level {
    Level(seq(|lv.ids|, _ => 0), BareNodes(lv.groups))
  }

  function Bare(ls: seq<Level>): (b: seq<Level>)
    ensures |b| == |ls| && forall i :: 0 <= i < |ls| ==> b[i] == BareLevel(ls[i])
  {
    seq(|ls|, i requires 0 <= i < |ls| => BareLevel(ls[i]))
  }

  // What the operations make of a shape.

  /** The levels after `r` went behind record `pos` of node `j` of level `t`. */
  ghost function Put(cfg: Config, ls: seq<Level>, t: nat, j: nat, pos: nat, r: Rec): (ls': seq<Level>)
    ensures |ls| <= |ls'| <= |ls| + 1 && (|ls'| > |ls| ==> Splits(cfg, ls, t, j, pos, r) > 0)
    decreases |ls| - t
  {
    if t >= |ls| || !(j < |ls[t].ids| == |ls[t].groups|) || pos >= |ls[t].groups[j]| then ls
    else
      var lv := ls[t];
      var g := lv.groups[j];
      if !NodeFull(g, cfg.size, r) then ls[t := SetGroup(lv, j, After(g, pos, r))]
      else
        var all := Inserted(g, pos + 1, r);
        var m := Middle(all, cfg.size);
        if m >= |all| then ls
        else
          var ls' := ls[t := SplitLevel(lv, j, 0, all[..m], 0, all[m..])];
          if t + 1 == |ls| then ls' + [Level([0], [[IndexRec(g[0], 0), IndexRec(all[m], 0)]])]
          else var (pj, pp) := Spot(ls[t + 1].groups, j); Put(cfg, ls', t + 1, pj, pp, IndexRec(all[m], 0))
  }

  /** The renewal of a separator: it runs out of ids, or leaves other levels and a number of free ids. */
  datatype Renewal = Short | Done(levels: seq<Level>, free: nat)

  /** The separator at place `g` of level `c` is replaced by `r`: the new one is put behind it, splitting nodes as need
      be, and then it is taken out. */
  ghost function Renew(cfg: Config, ls: seq<Level>, free: nat, c: nat, g: nat, r: Rec): Renewal
    decreases 2 * (|ls| - c) + free, 1
  {
    if c >= |ls| then Done(ls, free)
    else
      var (j, pos) := Spot(ls[c].groups, g);
      var n := Splits(cfg, ls, c, j, pos, r);
      if n > 0 && free < n + 1 then Short
      else
        var ls' := Put(cfg, ls, c, j, pos, r);
        var (j', pos') := Spot(ls'[c].groups, g);
        TakeOut(cfg, ls', free - n - (|ls'| - |ls|), c, j', pos')
  }

  /** Record `pos` of node `j` of level `c`, which keeps others, is taken out; if it was the first one, the separator of
      the node is renewed. */
  ghost function TakeOut(cfg: Config, ls: seq<Level>, free: nat, c: nat, j: nat, pos: nat): Renewal
    decreases 2 * (|ls| - c) + free, 0
  {
    if c >= |ls| || !(j < |ls[c].ids| == |ls[c].groups|) || pos >= |ls[c].groups[j]|
        || |ls[c].groups[j]| < 2 then Done(ls, free)
    else
      var g := ls[c].groups[j];
      var ls' := ls[c := SetGroup(ls[c], j, Cut(g, pos))];
      if pos > 0 || c + 1 == |ls| then Done(ls', free) else Renew(cfg, ls', free, c + 1, j, IndexRec(g[1], 0))
  }

  // Shapes have all that counts.

  lemma {:induction false} SizeBare(s: seq<Rec>)
    ensures Size(Bares(s)) == Size(s)
    decreases |s|
  {
    if s != [] {
      var n := |s| - 1;
      assert Bares(s)[..n] == Bares(s[..n]);
      SizeBare(s[..n]);
    }
  }

  lemma {:induction false} SpotBare(gs: seq<seq<Rec>>, g: nat)
    ensures Spot(BareNodes(gs), g) == Spot(gs, g)
    decreases gs
  {
    if gs != [] && g >= |gs[0]| {
      assert BareNodes(gs)[1..] == BareNodes(gs[1..]);
      SpotBare(gs[1..], g - |gs[0]|);
    }
  }

  lemma CutBare(s: seq<Rec>, pos: nat)
    requires pos < |s|
    ensures Bares(Cut(s, pos)) == Cut(Bares(s), pos)
  {
  }

  lemma ConcatBare(a: seq<Rec>, b: seq<Rec>)
    ensures Bares(a + b) == Bares(a) + Bares(b)
  {
  }

  lemma WantBare(g: seq<Rec>, pos: nat, ch: Change, add: Rec)
    requires pos < |g|
    ensures Bares(Want(g, pos, ch, add)) == After(Bares(g), pos, Plain(add)) == Inserted(Bares(g), pos + 1, Plain(add))
  {
    var s := Changed(g, pos, ch);
    assert Bares(s) == Bares(g);
    assert Bares(Want(g, pos, ch, add)) == After(Bares(s), pos, Plain(add));
  }

  lemma SetGroupBare(lv: Level, j: nat, g: seq<Rec>)
    requires j < |lv.groups|
    ensures BareLevel(SetGroup(lv, j, g)) == SetGroup(BareLevel(lv), j, Bares(g))
  {
    assert BareNodes(lv.groups[j := g]) == BareNodes(lv.groups)[j := Bares(g)];
  }

  lemma SplitLevelBare(lv: Level, j: nat, b1: nat, p1: seq<Rec>, b2: nat, p2: seq<Rec>)
    requires |lv.ids| == |lv.groups| && j < |lv.groups|
    ensures BareLevel(SplitLevel(lv, j, b1, p1, b2, p2)) == SplitLevel(BareLevel(lv), j, 0, Bares(p1), 0, Bares(p2))
  {
    hide Bares;
    var a, b := SplitLevel(lv, j, b1, p1, b2, p2), SplitLevel(BareLevel(lv), j, 0, Bares(p1), 0, Bares(p2));
    assert BareNodes(a.groups) == b.groups;
    assert BareLevel(a).ids == b.ids;
  }

  lemma DropNodeBare(lv: Level, j: nat)
    requires |lv.ids| == |lv.groups| && j < |lv.groups|
    ensures BareLevel(DropNode(lv, j)) == DropNode(BareLevel(lv), j)
  {
    hide Bares;
    var a, b := DropNode(lv, j), DropNode(BareLevel(lv), j);
    assert BareNodes(a.groups) == b.groups;
    assert BareLevel(a).ids == b.ids;
  }

  lemma SetLevelBare(ls: seq<Level>, t: nat, lv: Level)
    requires t < |ls|
    ensures Bare(ls[t := lv]) == Bare(ls)[t := BareLevel(lv)]
  {
    hide BareLevel;
  }

  lemma DividedBare(cfg: Config, g: seq<Rec>, pos: nat, r: Rec)
    requires pos < |g|
    ensures NodeFull(Bares(g), cfg.size, r) == NodeFull(g, cfg.size, r)
    ensures var all, bare := Inserted(g, pos + 1, Plain(r)), Inserted(Bares(g), pos + 1, Plain(r));
            var m := Middle(all, cfg.size);
            && |all| == |bare| && Middle(bare, cfg.size) == m
            && (m < |all| ==> IndexRec(bare[m], 0) == IndexRec(all[m], 0) == Plain(IndexRec(all[m], 0)))
  {
    hide Bares, Size, Middle;
    SizeBare(g);
    WantBare(g, pos, Keep, Plain(r));
    var all := Inserted(g, pos + 1, Plain(r));
    assert Want(g, pos, Keep, Plain(r)) == all;
    MiddleSame(Bares(all), all, cfg.size);
  }

  lemma {:induction false} SplitsBare(cfg: Config, ls: seq<Level>, t: nat, j: nat, pos: nat, r: Rec)
    ensures Splits(cfg, Bare(ls), t, j, pos, Plain(r)) == Splits(cfg, ls, t, j, pos, Plain(r))
    decreases |ls| - t
  {
    hide Bares, Size, Middle, Spot, Inserted;
    if t < |ls| && j < |ls[t].groups| && pos < |ls[t].groups[j]| {
      var g := ls[t].groups[j];
      DividedBare(cfg, g, pos, r);
      var all := Inserted(g, pos + 1, Plain(r));
      var m := Middle(all, cfg.size);
      if t + 1 < |ls| && m < |all| {
        SpotBare(ls[t + 1].groups, j);
        var (pj, pp) := Spot(ls[t + 1].groups, j);
        SplitsBare(cfg, ls, t + 1, pj, pp, IndexRec(all[m], 0));
      }
    }
  }

  /** A round that puts the record. */
  lemma BarePut(cfg: Config, ls: seq<Level>, t: nat, j: nat, pos: nat, ch: Change, add: Rec)
    requires t < |ls| && j < |ls[t].ids| == |ls[t].groups| && pos < |ls[t].groups[j]|
    requires !NodeFull(ls[t].groups[j], cfg.size, add)
    ensures Bare(ls[t := SetGroup(ls[t], j, Want(ls[t].groups[j], pos, ch, add))])
            == Put(cfg, Bare(ls), t, j, pos, Plain(add))
  {
    hide Bares, BareNodes, Size, Want, After;
    var lv, g := ls[t], ls[t].groups[j];
    var want := Want(g, pos, ch, add);
    SizeBare(g);
    WantBare(g, pos, ch, add);
    SetGroupBare(lv, j, want);
    SetLevelBare(ls, t, SetGroup(lv, j, want));
  }

  /** A round that splits a node. */
  lemma BareSplit(cfg: Config, ls: seq<Level>, t: nat, j: nat, pos: nat, ch: Change, add: Rec,
                  b1: nat, p1: seq<Rec>, b2: nat, p2: seq<Rec>)
    requires t < |ls| && j < |ls[t].ids| == |ls[t].groups| && pos < |ls[t].groups[j]|
    requires NodeFull(ls[t].groups[j], cfg.size, add)
    requires p1 + p2 == Want(ls[t].groups[j], pos, ch, add) && p2 != [] && |p1| == Middle(p1 + p2, cfg.size)
    ensures var ls' := ls[t := SplitLevel(ls[t], j, b1, p1, b2, p2)];
            var put := Put(cfg, Bare(ls), t, j, pos, Plain(add));
            && (t + 1 < |ls| ==> var (pj, pp) := Spot(ls[t + 1].groups, j);
                                 put == Put(cfg, Bare(ls'), t + 1, pj, pp, Plain(IndexRec(p2[0], b2))))
            && (t + 1 == |ls| ==>
                  put == Bare(ls') + [Level([0], [[Plain(IndexRec(ls[t].groups[j][0], 0)), IndexRec(p2[0], 0)]])])
  {
    hide Bares, BareNodes, Size, Want, Inserted, Middle, Spot, SplitLevel;
    var lv, g := ls[t], ls[t].groups[j];
    SizeBare(g);
    WantBare(g, pos, ch, add);
    var all := Bares(p1 + p2);
    MiddleSame(all, p1 + p2, cfg.size);
    ConcatBare(p1, p2);
    assert all[..|p1|] == Bares(p1) && all[|p1|..] == Bares(p2);
    assert all[|p1|] == Plain(p2[0]) && Bares(g)[0] == Plain(g[0]);
    SplitLevelBare(lv, j, b1, p1, b2, p2);
    SetLevelBare(ls, t, SplitLevel(lv, j, b1, p1, b2, p2));
    if t + 1 < |ls| {
      SpotBare(ls[t + 1].groups, j);
    }
  }

  lemma GrownBare(ls: seq<Level>, id: nat, first: Rec, second: Rec)
    ensures Bare(ls + [Level([id], [[first, second]])]) == Bare(ls) + [Level([0], [[Plain(first), Plain(second)]])]
  {
    var lv := Level([id], [[first, second]]);
    assert Bares([first, second]) == [Plain(first), Plain(second)];
    assert BareNodes(lv.groups) == [[Plain(first), Plain(second)]];
    assert BareLevel(lv).ids == [0];
    hide BareLevel;
  }

  lemma CutLevelBare(ls: seq<Level>, c: nat, j: nat, pos: nat)
    requires c < |ls| && j < |ls[c].groups| && pos < |ls[c].groups[j]|
    ensures Bare(ls[c := SetGroup(ls[c], j, Cut(ls[c].groups[j], pos))])
            == Bare(ls)[c := SetGroup(BareLevel(ls[c]), j, Cut(Bares(ls[c].groups[j]), pos))]
  {
    hide Bares, BareNodes, Cut;
    var g := Cut(ls[c].groups[j], pos);
    CutBare(ls[c].groups[j], pos);
    SetGroupBare(ls[c], j, g);
    SetLevelBare(ls, c, SetGroup(ls[c], j, g));
  }

  /** Taking out a record that leaves others, as seen on the levels. */
  lemma TakeOutBare(cfg: Config, ls: seq<Level>, free: nat, c: nat, j: nat, pos: nat)
    requires c < |ls| && j < |ls[c].ids| == |ls[c].groups| && pos < |ls[c].groups[j]| && |ls[c].groups[j]| >= 2
    ensures var ls' := ls[c := SetGroup(ls[c], j, Cut(ls[c].groups[j], pos))];
            TakeOut(cfg, Bare(ls), free, c, j, pos)
            == if pos > 0 || c + 1 == |ls| then Done(Bare(ls'), free)
               else Renew(cfg, Bare(ls'), free, c + 1, j, Plain(IndexRec(ls[c].groups[j][1], ls[c].ids[j])))
  {
    hide Renew, Cut, SetGroup;
    CutLevelBare(ls, c, j, pos);
    assert Bares(ls[c].groups[j])[1] == Plain(ls[c].groups[j][1]);
  }

  /** Renewing a separator, as seen on the levels `ls'` after the new one was put. */
  lemma RenewBare(cfg: Config, ls: seq<Level>, free: nat, c: nat, g: nat, r: Rec, n: nat, free': nat, ls': seq<Level>)
    requires c < |ls| && c < |ls'| && (n > 0 ==> free >= n + 1) && free' == free - n - (|ls'| - |ls|)
    requires var (j, pos) := Spot(ls[c].groups, g);
             n == Splits(cfg, ls, c, j, pos, Plain(r)) && Bare(ls') == Put(cfg, Bare(ls), c, j, pos, Plain(r))
    ensures var (j', pos') := Spot(ls'[c].groups, g);
            Renew(cfg, Bare(ls), free, c, g, Plain(r)) == TakeOut(cfg, Bare(ls'), free', c, j', pos')
  {
    hide Put, TakeOut, Spot, Splits;
    SpotBare(ls[c].groups, g);
    SpotBare(ls'[c].groups, g);
    var (j, pos) := Spot(ls[c].groups, g);
    SplitsBare(cfg, ls, c, j, pos, r);
  }

  lemma RenewShort(cfg: Config, ls: seq<Level>, free: nat, c: nat, g: nat, r: Rec, n: nat)
    requires c < |ls| && n > 0 && free < n + 1
    requires var (j, pos) := Spot(ls[c].groups, g); n == Splits(cfg, ls, c, j, pos, Plain(r))
    ensures Renew(cfg, Bare(ls), free, c, g, Plain(r)) == Short
  {
    hide Put, TakeOut, Spot, Splits;
    SpotBare(ls[c].groups, g);
    var (j, pos) := Spot(ls[c].groups, g);
    SplitsBare(cfg, ls, c, j, pos, r);
  }

  /** The number of records at the top. */
  ghost function TopCount(ls: seq<Level>): nat {
    if ls == [] then 0 else |Flat(ls[|ls| - 1].groups)|
  }

  lemma {:induction false} FlatBare(gs: seq<seq<Rec>>)
    ensures |Flat(BareNodes(gs))| == |Flat(gs)|
    decreases gs
  {
    if gs != [] {
      assert BareNodes(gs)[1..] == BareNodes(gs[1..]);
      FlatBare(gs[1..]);
    }
  }

  lemma TopBare(ls: seq<Level>)
    ensures TopCount(Bare(ls)) == TopCount(ls)
  {
    if ls != [] {
      FlatBare(ls[|ls| - 1].groups);
    }
  }

  /** An insertion does not take records from the top, or puts a new top with two records. */
  lemma {:induction false} PutTop(cfg: Config, ls: seq<Level>, t: nat, j: nat, pos: nat, r: Rec)
    ensures var ls' := Put(cfg, ls, t, j, pos, r);
            (|ls'| > |ls| ==> TopCount(ls') == 2) && (|ls'| == |ls| ==> TopCount(ls') >= TopCount(ls))
    decreases |ls| - t
  {
    hide Flat, Middle, Size, Spot;
    if t < |ls| && j < |ls[t].ids| == |ls[t].groups| && pos < |ls[t].groups[j]| {
      var lv, g := ls[t], ls[t].groups[j];
      if !NodeFull(g, cfg.size, r) {
        SetGroupFlat(lv, j, After(g, pos, r));
        FlatAt(lv.groups, j);
      } else {
        var all := Inserted(g, pos + 1, r);
        var m := Middle(all, cfg.size);
        if m < |all| {
          var ls' := ls[t := SplitLevel(lv, j, 0, all[..m], 0, all[m..])];
          if t + 1 < |ls| {
            var (pj, pp) := Spot(ls[t + 1].groups, j);
            PutTop(cfg, ls', t + 1, pj, pp, IndexRec(all[m], 0));
          } else {
            FlatOne([IndexRec(g[0], 0), IndexRec(all[m], 0)]);
          }
        }
      }
    }
  }
}
