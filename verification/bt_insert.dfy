/** An insertion as it rises from level to level. */
module BtInsert {
  import opened Seqs
  import opened BtRecords
  import opened BtSplit
  import opened BtLevels
  import opened BtSteps
  import opened BtPath

  /** Levels below `t` are done; level `t` still has to take `add` after the record at the end of the
      path, which `ch` redirects. At the end level `c` holds `target`. */
  ghost predicate Rising(cfg: Config, ls: seq<Level>, root: nat, c: nat, t: nat, add: Rec, ch: Change,
                         path: seq<Step>, js: seq<nat>, k: int, pred: int, target: seq<Rec>) {
    && c <= t < |ls| && Lower(cfg, ls, c, t) && Upper(cfg, ls, root, t)
    && PathOk(ls, t, path, js, k) && RecOk(add, cfg.max)
    && StepOk(ls[t], path[0], js[0], k)
    && var g := Place(ls[t].groups, js[0], path[0].pos);
       var want := Want(Flat(ls[t].groups), g, ch, add);
       && Sorted(want)
       && (if t == c then want == target && Flat(ls[t].groups)[g].key == pred
           else want == Index(ls[t - 1]) && Flat(ls[c].groups) == target && Roomy(ls[c].groups, pred))
  }

  ghost predicate Risen(cfg: Config, ls: seq<Level>, root: nat, c: nat, pred: int, target: seq<Rec>) {
    Upper(cfg, ls, root, c) && Flat(ls[c].groups) == target && Roomy(ls[c].groups, pred)
  }

  lemma RiseStart(cfg: Config, ls: seq<Level>, root: nat, c: nat, path: seq<Step>, js: seq<nat>, rec: Rec)
    requires Upper(cfg, ls, root, c) && PathOk(ls, c, path, js, rec.key) && RecOk(rec, cfg.max)
    requires Flat(ls[c].groups) != [] && Flat(ls[c].groups)[0].key < rec.key
    requires path != [] ==> js[0] < |ls[c].groups| && path[0].pos < |ls[c].groups[js[0]]|
                            && ls[c].groups[js[0]][path[0].pos].key != rec.key
    ensures var g := Place(ls[c].groups, js[0], path[0].pos); var flat := Flat(ls[c].groups);
            Last(flat, rec.key, g) && Rising(cfg, ls, root, c, c, rec, Keep, path, js, rec.key, flat[g].key,
                                             After(flat, g, rec))
  {
    hide Flat;
    var lv, j, pos := ls[c], js[0], path[0].pos;
    hide Upper;
    PlaceAt(lv.groups, j, pos);
    UpperGood(cfg, ls, root, c, c);
    AfterSorted(Flat(lv.groups), Place(lv.groups, j, pos), rec);
  }

  /** The node has room. */
  lemma RisePut(cfg: Config, ls: seq<Level>, root: nat, c: nat, t: nat, add: Rec, ch: Change,
                path: seq<Step>, js: seq<nat>, k: int, pred: int, target: seq<Rec>)
    requires Rising(cfg, ls, root, c, t, add, ch, path, js, k, pred, target)
    requires !NodeFull(ls[t].groups[js[0]], cfg.size, add)
    ensures Risen(cfg, ls[t := SetGroup(ls[t], js[0], Want(ls[t].groups[js[0]], path[0].pos, ch, add))], root, c, pred,
                  target)
  {
    hide Flat, Good, At, Sorted, Want, NodeFull;
    var lv, j, pos := ls[t], js[0], path[0].pos;
    UpperGood(cfg, ls, root, t, t);
    PlaceAt(lv.groups, j, pos);
    PutIn(cfg, lv, j, pos, ch, add);
    var lv' := SetGroup(lv, j, Want(lv.groups[j], pos, ch, add));
    var ls' := ls[t := lv'];
    UpperSet(cfg, ls, root, t, lv');
    if t == c {
      WantAt(lv.groups[j], pos, ch, add);
      GoodSorted(cfg, lv');
      RoomyPut(lv.groups, j, lv'.groups[j], pos);
    } else {
      LowerKept(cfg, ls, c, t, lv');
      Glue(cfg, ls', root, c, t);
    }
  }

  lemma GoodSorted(cfg: Config, lv: Level)
    requires Good(cfg, lv)
    ensures Sorted(Flat(lv.groups))
  {
  }

  lemma WantAt(s: seq<Rec>, pos: nat, ch: Change, r: Rec)
    requires pos < |s|
    ensures |Want(s, pos, ch, r)| == |s| + 1 && Want(s, pos, ch, r)[pos].key == s[pos].key
  {
  }

  lemma LowerKept(cfg: Config, ls: seq<Level>, c: nat, t: nat, lv: Level)
    requires Lower(cfg, ls, c, t) && t < |ls|
    ensures Lower(cfg, ls[t := lv], c, t)
  {
    hide Good, Flat;
  }

  /** The two parts of a node that has no room. */
  ghost predicate Parts(cfg: Config, g: seq<Rec>, pos: nat, ch: Change, add: Rec, p1: seq<Rec>, p2: seq<Rec>)
    requires pos < |g|
  {
    && p1 + p2 == Want(g, pos, ch, add) && |p1| >= 2 && p2 != []
    && FitsNode(p1, cfg.size) && FitsNode(p2, cfg.size)
  }

  lemma SplitRoomy(lv: Level, j: nat, pos: nat, ch: Change, add: Rec, b1: nat, p1: seq<Rec>, b2: nat, p2: seq<Rec>)
    requires |lv.ids| == |lv.groups| && j < |lv.ids| && pos < |lv.groups[j]| && |p1| >= 2
    requires p1 + p2 == Want(lv.groups[j], pos, ch, add) && Sorted(Flat(SplitLevel(lv, j, b1, p1, b2, p2).groups))
    ensures Roomy(SplitLevel(lv, j, b1, p1, b2, p2).groups, lv.groups[j][pos].key)
  {
    hide Flat, Want;
    WantAt(lv.groups[j], pos, ch, add);
    RoomySplit(SplitLevel(lv, j, b1, p1, b2, p2).groups, j, p1, p2, pos);
  }

  /** The level after the split, whether or not there is one above. */
  lemma RiseLevel(cfg: Config, ls: seq<Level>, root: nat, c: nat, t: nat, add: Rec, ch: Change, path: seq<Step>,
                  js: seq<nat>, k: int, pred: int, target: seq<Rec>, b1: nat, p1: seq<Rec>, b2: nat, p2: seq<Rec>)
    requires Rising(cfg, ls, root, c, t, add, ch, path, js, k, pred, target)
    requires Parts(cfg, ls[t].groups[js[0]], path[0].pos, ch, add, p1, p2)
    ensures var lv := SplitLevel(ls[t], js[0], b1, p1, b2, p2); var ls' := ls[t := lv];
            && Good(cfg, lv) && Index(lv) == Want(Index(ls[t]), js[0], Child(b1), IndexRec(p2[0], b2))
            && Lower(cfg, ls', c, t + 1) && Flat(ls'[c].groups) == target && Roomy(ls'[c].groups, pred)
            && First(p1).key == ls[t].groups[js[0]][0].key && First(p1).klen == ls[t].groups[js[0]][0].klen
            && RecOk(IndexRec(p2[0], b2), cfg.max) && RecOk(IndexRec(p1[0], b1), cfg.max)
  {
    hide Flat, At, Sorted, Want, FitsNode, Good, SplitLevel;
    var lv, j, pos := ls[t], js[0], path[0].pos;
    UpperGood(cfg, ls, root, t, t);
    PlaceAt(lv.groups, j, pos);
    SplitIn(cfg, lv, j, pos, ch, add, b1, p1, b2, p2);
    var lv' := SplitLevel(lv, j, b1, p1, b2, p2);
    LowerNext(cfg, ls, c, t, lv');
    NodeSorted(cfg, lv, j);
    WantFacts(lv.groups[j], pos, ch, add, cfg.max);
    PartsOk(p1, p2, cfg.max);
    assert p1[0] == (p1 + p2)[0];
    if t == c {
      GoodSorted(cfg, lv');
      SplitRoomy(lv, j, pos, ch, add, b1, p1, b2, p2);
    }
  }

  /** Below the root, the level above is next. */
  lemma RiseSplit(cfg: Config, ls: seq<Level>, root: nat, c: nat, t: nat, add: Rec, ch: Change, path: seq<Step>,
                  js: seq<nat>, k: int, pred: int, target: seq<Rec>, b1: nat, p1: seq<Rec>, b2: nat, p2: seq<Rec>)
    requires Rising(cfg, ls, root, c, t, add, ch, path, js, k, pred, target) && t + 1 < |ls|
    requires Parts(cfg, ls[t].groups[js[0]], path[0].pos, ch, add, p1, p2)
    ensures Rising(cfg, ls[t := SplitLevel(ls[t], js[0], b1, p1, b2, p2)], root, c, t + 1, IndexRec(p2[0], b2),
                   Child(b1), path[1..], js[1..], k, pred, target)
  {
    hide Flat, At, Sorted, Want, Parts, Good, Roomy, SplitLevel, Index;
    var lv' := SplitLevel(ls[t], js[0], b1, p1, b2, p2);
    RiseLevel(cfg, ls, root, c, t, add, ch, path, js, k, pred, target, b1, p1, b2, p2);
    UpperNext(cfg, ls, root, t, lv');
    UpperGood(cfg, ls, root, t, t);
    IndexSorted(cfg, lv');
    PathFrame(ls, ls[t := lv'], t + 1, path[1..], js[1..], k);
    assert StepOk(ls[t + 1], path[1..][0], js[1..][0], k);
  }

  /** A split root gets a root above it. */
  lemma RiseGrow(cfg: Config, ls: seq<Level>, root: nat, c: nat, t: nat, add: Rec, ch: Change, path: seq<Step>,
                 js: seq<nat>, k: int, pred: int, target: seq<Rec>, b1: nat, p1: seq<Rec>, b2: nat, p2: seq<Rec>)
    requires Rising(cfg, ls, root, c, t, add, ch, path, js, k, pred, target) && t + 1 == |ls|
             && Halves(cfg.size, cfg.max)
    requires Parts(cfg, ls[t].groups[js[0]], path[0].pos, ch, add, p1, p2)
    ensures ls[t].groups[js[0]] != []
    ensures var x := IndexRec(ls[t].groups[js[0]][0], b1); var y := IndexRec(p2[0], b2);
            Risen(cfg, ls[t := SplitLevel(ls[t], js[0], b1, p1, b2, p2)] + [Level([root], [[x, y]])], root, c, pred,
                  target)
  {
    hide Flat, At, Sorted, Good, Roomy, SplitLevel;
    var lv, j := ls[t], js[0];
    var lv' := SplitLevel(lv, j, b1, p1, b2, p2);
    RiseLevel(cfg, ls, root, c, t, add, ch, path, js, k, pred, target, b1, p1, b2, p2);
    UpperGood(cfg, ls, root, t, t);
    IndexAt(lv, 0);
    var x, y := IndexRec(lv.groups[j][0], b1), IndexRec(p2[0], b2);
    assert Index(lv') == [x, y];
    hide Want, Index;
    TwoFit(cfg, x, y);
    Grown(cfg, ls, root, t, lv', x, y);
    var ls' := ls[t := lv'] + [Level([root], [[x, y]])];
    LowerGrown(cfg, ls[t := lv'], c, t + 1, Level([root], [[x, y]]));
    UpperAbove(cfg, ls', root, t);
    Glue(cfg, ls', root, c, t + 1);
  }

  lemma LowerGrown(cfg: Config, ls: seq<Level>, c: nat, t: nat, lv: Level)
    requires Lower(cfg, ls, c, t)
    ensures Lower(cfg, ls + [lv], c, t)
  {
    hide Good, Flat, Index;
  }

  lemma UpperAbove(cfg: Config, ls: seq<Level>, root: nat, t: nat)
    requires Upper(cfg, ls, root, t) && t + 1 < |ls|
    ensures Upper(cfg, ls, root, t + 1) && Above(ls, root, t + 1, Index(ls[t]))
  {
    hide Good, Flat, Index;
    assert Indexed(cfg, ls, root, t);
  }
}
