/** How many nodes an insertion splits, from the tree before it. */
module BtDemand {
  import opened Seqs
  import opened BtRecords
  import opened BtSplit
  import opened BtLevels
  import opened BtSteps
  import opened BtPath
  import opened BtInsert

  /** The node that holds place `g` of a level, and the position in the node. */
  ghost function Spot(gs: seq<seq<Rec>>, g: nat): (nat, nat) {
    if gs == [] || g < |gs[0]| then (0, g)
    else var (j, i) := Spot(gs[1..], g - |gs[0]|); (j + 1, i)
  }

  lemma {:induction false} SpotOf(gs: seq<seq<Rec>>, j: nat, i: nat)
    requires j < |gs| && i < |gs[j]|
    ensures Spot(gs, Place(gs, j, i)) == (j, i)
    decreases j
  {
    if j > 0 {
      assert gs[..j][1..] == gs[1..][..j - 1];
      SpotOf(gs[1..], j - 1, i);
    }
  }

  lemma {:induction false} SpotPlace(gs: seq<seq<Rec>>, g: nat)
    requires g < |Flat(gs)|
    ensures var (j, i) := Spot(gs, g); j < |gs| && i < |gs[j]| && Place(gs, j, i) == g
    decreases gs
  {
    if g >= |gs[0]| {
      SpotPlace(gs[1..], g - |gs[0]|);
      var (j, i) := Spot(gs, g);
      assert gs[..j][1..] == gs[1..][..j - 1];
    } else {
      assert gs[..0] == [];
    }
  }

  /** The place of the last record not above `k`, or 0. */
  function PlaceOf(s: seq<Rec>, k: int): nat {
    if |s| <= 1 then 0 else if s[|s| - 1].key <= k then |s| - 1 else PlaceOf(s[..|s| - 1], k)
  }

  lemma {:induction false} PlaceOfLast(s: seq<Rec>, k: int, g: nat)
    requires Sorted(s) && Last(s, k, g)
    ensures PlaceOf(s, k) == g
    decreases |s|
  {
    if g + 1 < |s| {
      assert s[g + 1].key <= s[|s| - 1].key;
      assert s[..|s| - 1][g] == s[g];
      PlaceOfLast(s[..|s| - 1], k, g);
    }
  }

  /** A record but for the id it leads to. */
  function Plain(r: Rec): Rec {
    r.(val := 0)
  }

  /** The nodes that are split when `r` goes behind record `pos` of node `j` of level `t`: a full node is split, and
      the separator of its second half goes behind the node's own one level up. */
  ghost function Splits(cfg: Config, ls: seq<Level>, t: nat, j: nat, pos: nat, r: Rec): (n: nat)
    ensures t <= |ls| ==> n <= |ls| - t
    decreases |ls| - t
  {
    if t >= |ls| || j >= |ls[t].groups| || pos >= |ls[t].groups[j]| || !NodeFull(ls[t].groups[j], cfg.size, r) then 0
    else
      var all := Inserted(ls[t].groups[j], pos + 1, r);
      var m := Middle(all, cfg.size);
      if t + 1 >= |ls| || m >= |all| then 1
      else var (j', pos') := Spot(ls[t + 1].groups, j); 1 + Splits(cfg, ls, t + 1, j', pos', IndexRec(all[m], 0))
  }

  /** The nodes that an insertion of `r` at level `c` splits. */
  ghost function Demand(cfg: Config, ls: seq<Level>, c: nat, r: Rec): (n: nat)
    requires c < |ls|
    ensures n <= |ls| - c
  {
    var (j, pos) := Spot(ls[c].groups, PlaceOf(Flat(ls[c].groups), r.key));
    Splits(cfg, ls, c, j, pos, Plain(r))
  }

  lemma DemandOf(cfg: Config, ls: seq<Level>, c: nat, j: nat, pos: nat, r: Rec)
    requires c < |ls| && j < |ls[c].groups| && pos < |ls[c].groups[j]| && Sorted(Flat(ls[c].groups))
    requires Last(Flat(ls[c].groups), r.key, Place(ls[c].groups, j, pos))
    ensures Demand(cfg, ls, c, r) == Splits(cfg, ls, c, j, pos, Plain(r))
  {
    hide Splits, Flat, Spot;
    PlaceOfLast(Flat(ls[c].groups), r.key, Place(ls[c].groups, j, pos));
    SpotOf(ls[c].groups, j, pos);
  }

  lemma {:induction false} SplitsFrame(cfg: Config, ls: seq<Level>, ls': seq<Level>, t: nat, j: nat, pos: nat, r: Rec)
    requires |ls| == |ls'| && forall m :: t <= m < |ls| ==> ls'[m] == ls[m]
    ensures Splits(cfg, ls', t, j, pos, r) == Splits(cfg, ls, t, j, pos, r)
    decreases |ls| - t
  {
    if t + 1 < |ls| && j < |ls[t].groups| && pos < |ls[t].groups[j]| && NodeFull(ls[t].groups[j], cfg.size, r) {
      var all := Inserted(ls[t].groups[j], pos + 1, r);
      var m := Middle(all, cfg.size);
      if m < |all| {
        var (j', pos') := Spot(ls[t + 1].groups, j);
        SplitsFrame(cfg, ls, ls', t + 1, j', pos', IndexRec(all[m], 0));
      }
    }
  }

  /** A round of the insertion that splits a node. */
  lemma SplitsRound(cfg: Config, ls: seq<Level>, t: nat, j: nat, pos: nat, ch: Change, add: Rec, p1: seq<Rec>,
                    p2: seq<Rec>, b2: nat)
    requires t < |ls| && j < |ls[t].groups| && pos < |ls[t].groups[j]| && NodeFull(ls[t].groups[j], cfg.size, add)
    requires p1 + p2 == Want(ls[t].groups[j], pos, ch, add) && p2 != [] && |p1| == Middle(p1 + p2, cfg.size)
    ensures t + 1 == |ls| ==> Splits(cfg, ls, t, j, pos, Plain(add)) == 1
    ensures t + 1 < |ls| ==> var (j', pos') := Spot(ls[t + 1].groups, j);
                             Splits(cfg, ls, t, j, pos, Plain(add))
                             == 1 + Splits(cfg, ls, t + 1, j', pos', Plain(IndexRec(p2[0], b2)))
  {
    hide Inserted, Want, Middle, Size, Spot;
    var g := ls[t].groups[j];
    var all, want := Inserted(g, pos + 1, Plain(add)), p1 + p2;
    WantPlain(g, pos, ch, add);
    MiddleSame(all, want, cfg.size);
    assert want[|p1|] == p2[0];
    assert IndexRec(all[|p1|], 0) == Plain(IndexRec(p2[0], b2));
  }

  lemma WantPlain(g: seq<Rec>, pos: nat, ch: Change, add: Rec)
    requires pos < |g|
    ensures var all, want := Inserted(g, pos + 1, Plain(add)), Want(g, pos, ch, add);
            && |all| == |want|
            && forall i :: 0 <= i < |all| ==> all[i].key == want[i].key && all[i].klen == want[i].klen
                                              && all[i].len == want[i].len
  {
    var s := Changed(g, pos, ch);
    assert forall i :: 0 <= i < |g| ==> s[i].key == g[i].key && s[i].klen == g[i].klen && s[i].len == g[i].len;
  }

  /** The way up from a node of the path is the rest of the path. */
  lemma SpotUp(ls: seq<Level>, t: nat, path: seq<Step>, js: seq<nat>, k: int)
    requires PathOk(ls, t, path, js, k) && |path| >= 2
    ensures Spot(ls[t + 1].groups, js[0]) == (js[1], path[1].pos)
  {
    SpotOf(ls[t + 1].groups, js[1], path[1].pos);
  }

  lemma NoSplit(cfg: Config, ls: seq<Level>, t: nat, j: nat, pos: nat, add: Rec)
    requires t < |ls| && j < |ls[t].groups| && pos < |ls[t].groups[j]|
    ensures Splits(cfg, ls, t, j, pos, Plain(add)) > 0 <==> NodeFull(ls[t].groups[j], cfg.size, add)
  {
    hide Size, Spot, Middle;
  }

  lemma SplitUp(cfg: Config, ls: seq<Level>, root: nat, c: nat, t: nat, add: Rec, ch: Change,
                path: seq<Step>, js: seq<nat>, k: int, pred: int, target: seq<Rec>)
    requires Rising(cfg, ls, root, c, t, add, ch, path, js, k, pred, target) && t + 1 < |ls|
    ensures |path| == |js| >= 2 && Spot(ls[t + 1].groups, js[0]) == (js[1], path[1].pos)
  {
    hide Spot, Flat, Lower, Upper, Want, Sorted, At;
    SpotUp(ls, t, path, js, k);
  }

  /** Stopping at level `t`: the levels below have one node more than the level has separators. */
  lemma RisingTorn(cfg: Config, ls: seq<Level>, root: nat, c: nat, t: nat, add: Rec, ch: Change,
                   path: seq<Step>, js: seq<nat>, k: int, pred: int, target: seq<Rec>)
    requires Rising(cfg, ls, root, c, t, add, ch, path, js, k, pred, target) && t > c
    ensures js[0] < |ls[t].groups| && path[0].pos < |ls[t].groups[js[0]]|
    ensures var ls' := ls[t := SetGroup(ls[t], js[0], Changed(ls[t].groups[js[0]], path[0].pos, ch))];
            Lower(cfg, ls', c, t) && Flat(ls'[c].groups) == target && |Flat(ls'[t].groups)| + 1 == |ls'[t - 1].ids|
  {
    hide Flat, At, Upper, Roomy, Sorted;
    var lv, j := ls[t], js[0];
    var g := Changed(lv.groups[j], path[0].pos, ch);
    LowerKept(cfg, ls, c, t, SetGroup(lv, j, g));
    SetGroupFlat(lv, j, g);
    FlatAt(lv.groups, j);
  }

  /** A level with a separator less than there are nodes below it is no level of a valid tree. */
  lemma OneMissing(cfg: Config, ls: seq<Level>, root: nat, c: nat, t: nat)
    requires c < t < |ls| && |Flat(ls[t].groups)| + 1 == |ls[t - 1].ids|
    ensures !Upper(cfg, ls, root, c)
  {
    if Upper(cfg, ls, root, c) {
      hide Flat, Good, Upper;
      UpperGood(cfg, ls, root, c, t - 1);
    }
  }
}
