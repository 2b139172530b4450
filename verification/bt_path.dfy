/** Paths from the root to the place of a key. */
module BtPath {
  import opened Seqs
  import opened BtRecords
  import opened BtLevels

  /** A node passed on the way down and the position of the record followed in it. */
  datatype Step = Step(id: nat, pos: nat)

  ghost predicate StepOk(lv: Level, st: Step, j: nat, k: int) {
    && j < |lv.ids| == |lv.groups| && st.id == lv.ids[j] && st.pos < |lv.groups[j]|
    && At(Flat(lv.groups), k, Place(lv.groups, j, st.pos))
  }

  /** A path from level `c` to the root: at each level the place of `k`, in the child that the level above leads to. */
  ghost predicate PathOk(ls: seq<Level>, c: nat, path: seq<Step>, js: seq<nat>, k: int)
    decreases |path|
  {
    && c <= |ls| && |path| == |js| == |ls| - c
    && (path != [] ==> StepOk(ls[c], path[0], js[0], k) && PathOk(ls, c + 1, path[1..], js[1..], k)
                       && Leads(ls, c + 1, path[1..], js[1..], js[0]))
  }

  /** The path down to level `c` leads to node `j` of the level below. */
  ghost predicate Leads(ls: seq<Level>, c: nat, path: seq<Step>, js: seq<nat>, j: nat)
    requires c <= |ls| && |path| == |js| == |ls| - c
  {
    path != [] ==> js[0] < |ls[c].groups| && j == |Flat(ls[c].groups[..js[0]])| + path[0].pos
  }

  lemma PathCons(ls: seq<Level>, h: nat, path: seq<Step>, js: seq<nat>, st: Step, j: nat, k: int)
    requires h < |ls| && PathOk(ls, h + 1, path, js, k) && Leads(ls, h + 1, path, js, j)
    requires j < |ls[h].ids| == |ls[h].groups| && st.id == ls[h].ids[j] && st.pos < |ls[h].groups[j]|
    requires At(Flat(ls[h].groups), k, Place(ls[h].groups, j, st.pos))
    ensures PathOk(ls, h, [st] + path, [j] + js, k)
            && Leads(ls, h, [st] + path, [j] + js, Place(ls[h].groups, j, st.pos))
  {
    assert ([st] + path)[1..] == path && ([j] + js)[1..] == js;
  }

  lemma StepDown(cfg: Config, ls: seq<Level>, root: nat, c: nat, h: nat, j: nat, pos: nat, k: int)
    requires Upper(cfg, ls, root, c) && c <= h < |ls| && At(Index(ls[h]), k, j) && j < |ls[h].groups|
             && pos < |ls[h].groups[j]|
    requires if k < ls[h].groups[j][0].key then pos == 0 else Last(ls[h].groups[j], k, pos)
    ensures At(Flat(ls[h].groups), k, Place(ls[h].groups, j, pos))
    ensures h > c ==> var g := Place(ls[h].groups, j, pos);
                      At(Index(ls[h - 1]), k, g) && g < |ls[h - 1].ids| && ls[h].groups[j][pos].val == ls[h - 1].ids[g]
  {
    assert Indexed(cfg, ls, root, h);
    Descend(cfg, ls[h], k, j, pos);
    PlaceAt(ls[h].groups, j, pos);
    if h > c {
      assert Indexed(cfg, ls, root, h - 1);
      IndexAt(ls[h - 1], Place(ls[h].groups, j, pos));
    }
  }

  lemma AtRoot(cfg: Config, ls: seq<Level>, root: nat, c: nat, k: int)
    requires Upper(cfg, ls, root, c)
    ensures c < |ls| && var top := ls[|ls| - 1]; top.ids == [root] && At(Index(top), k, 0)
  {
    var t := |ls| - 1;
    assert Indexed(cfg, ls, root, t);
    IndexAt(ls[t], 0);
  }

  lemma UpperGood(cfg: Config, ls: seq<Level>, root: nat, c: nat, h: nat)
    requires Upper(cfg, ls, root, c) && c <= h < |ls|
    ensures Good(cfg, ls[h]) && Above(ls, root, h + 1, Index(ls[h]))
  {
    assert Indexed(cfg, ls, root, h);
  }

  lemma {:induction false} PathFrame(ls: seq<Level>, ls': seq<Level>, c: nat, path: seq<Step>, js: seq<nat>, k: int)
    requires PathOk(ls, c, path, js, k) && |ls| == |ls'| && forall m :: c <= m < |ls| ==> ls'[m] == ls[m]
    ensures PathOk(ls', c, path, js, k)
    decreases |path|
  {
    hide StepOk, Flat;
    if path != [] {
      PathFrame(ls, ls', c + 1, path[1..], js[1..], k);
    }
  }

  // The same for any comparator that agrees with the order of the keys.

  /** `comp` compares a key with what is sought; it may be zero for several keys in a row. */
  ghost predicate Agrees(comp: int -> int) {
    forall a, b :: a < b ==> (comp(a) > 0 ==> comp(b) > 0) && (comp(b) < 0 ==> comp(a) < 0)
  }

  ghost predicate HasEqual(s: seq<Rec>, comp: int -> int) {
    exists i :: 0 <= i < |s| && comp(s[i].key) == 0
  }

  /** A record that compares equal, else the last smaller one, else the first. */
  ghost predicate FoundIn(s: seq<Rec>, comp: int -> int, g: nat) {
    && g < |s|
    && (HasEqual(s, comp) ==> comp(s[g].key) == 0)
    && (!HasEqual(s, comp) ==>
          if comp(s[0].key) > 0 then g == 0 else comp(s[g].key) < 0 && (g + 1 < |s| ==> comp(s[g + 1].key) > 0))
  }

  method SearchAny(s: seq<Rec>, comp: int -> int) returns (pos: nat)
    requires s != [] && Sorted(s) && Agrees(comp)
    ensures FoundIn(s, comp, pos)
  {
    var at := i requires 0 <= i < |s| => comp(s[i].key);
    assert forall i :: 0 <= i < |s| ==> at(i) == comp(s[i].key);
    var p := FindPos(|s|, at);
    pos := p;
    if HasEqual(s, comp) {
      var i :| 0 <= i < |s| && comp(s[i].key) == 0;
      assert at(i) == 0;
    }
  }

  /** In a node that the index leads to, an equal record is found if the level has one. */
  lemma EqualBelow(cfg: Config, lv: Level, comp: int -> int, g: nat)
    requires Good(cfg, lv) && Agrees(comp) && FoundIn(Index(lv), comp, g) && HasEqual(Flat(lv.groups), comp)
    ensures g < |lv.groups| && HasEqual(lv.groups[g], comp)
  {
    NodeSorted(cfg, lv, g);
    IndexAt(lv, g);
    if comp(Index(lv)[g].key) == 0 {
      assert comp(lv.groups[g][0].key) == 0;
    } else {
      var flat := Flat(lv.groups);
      var p :| 0 <= p < |flat| && comp(flat[p].key) == 0;
      FlatAt(lv.groups, g);
      var a, m := |Flat(lv.groups[..g])|, lv.groups[g];
      PlaceAt(lv.groups, g, 0);
      FirstFlat(cfg, lv);
      assert a <= p < a + |m| by {
        OnlyInNode(cfg, lv, comp, g, p);
      }
      assert flat[p] == m[p - a];
    }
  }

  lemma OnlyInNode(cfg: Config, lv: Level, comp: int -> int, g: nat, p: nat)
    requires Good(cfg, lv) && Agrees(comp) && FoundIn(Index(lv), comp, g) && comp(Index(lv)[g].key) != 0
    requires p < |Flat(lv.groups)| && comp(Flat(lv.groups)[p].key) == 0
    ensures var a := |Flat(lv.groups[..g])|; a <= p < a + |lv.groups[g]|
  {
    var flat := Flat(lv.groups);
    NodeSorted(cfg, lv, g);
    IndexAt(lv, g);
    FirstFlat(cfg, lv);
    FlatAt(lv.groups, g);
    PlaceAt(lv.groups, g, 0);
    var a := |Flat(lv.groups[..g])|;
    assert p > 0 ==> flat[0].key < flat[p].key;
    if g + 1 < |lv.ids| {
      IndexAt(lv, g + 1);
      NodeSorted(cfg, lv, g + 1);
      PlaceAt(lv.groups, g + 1, 0);
      var b := |Flat(lv.groups[..g + 1])|;
      assert b == a + |lv.groups[g]| by {
        assert lv.groups[..g + 1] == lv.groups[..g] + [lv.groups[g]];
        FlatConcat(lv.groups[..g], [lv.groups[g]]);
        FlatOne(lv.groups[g]);
      }
    }
  }

  /** From the place in the index to the place in the level below. */
  lemma DescendAny(cfg: Config, lv: Level, comp: int -> int, g: nat, pos: nat)
    requires Good(cfg, lv) && Agrees(comp) && FoundIn(Index(lv), comp, g) && g < |lv.groups|
             && FoundIn(lv.groups[g], comp, pos)
    ensures FoundIn(Flat(lv.groups), comp, Place(lv.groups, g, pos))
  {
    PlaceAt(lv.groups, g, pos);
    if HasEqual(Flat(lv.groups), comp) {
      EqualBelow(cfg, lv, comp, g);
    } else {
      NoneBelow(cfg, lv, comp, g, pos);
    }
  }

  lemma NoneBelow(cfg: Config, lv: Level, comp: int -> int, g: nat, pos: nat)
    requires Good(cfg, lv) && Agrees(comp) && FoundIn(Index(lv), comp, g) && g < |lv.groups|
             && FoundIn(lv.groups[g], comp, pos)
    requires !HasEqual(Flat(lv.groups), comp)
    ensures FoundIn(Flat(lv.groups), comp, Place(lv.groups, g, pos))
  {
    hide Flat, Index, Good;
    NoEqual(cfg, lv, comp, g);
    IndexFirst(cfg, lv);
    FirstFlat(cfg, lv);
    NodeSorted(cfg, lv, g);
    PlaceAt(lv.groups, g, pos);
    FlatAt(lv.groups, g);
    IndexAt(lv, g);
    NextNode(lv.groups, g);
    if g + 1 < |lv.ids| {
      IndexAt(lv, g + 1);
      NodeSorted(cfg, lv, g + 1);
    }
  }

  lemma IndexFirst(cfg: Config, lv: Level)
    requires Good(cfg, lv)
    ensures |Index(lv)| == |lv.ids| == |lv.groups| > 0
    ensures Flat(lv.groups[..0]) == [] && Index(lv)[0].key == Flat(lv.groups)[0].key
  {
    FirstFlat(cfg, lv);
    IndexAt(lv, 0);
    NodeSorted(cfg, lv, 0);
    PlaceAt(lv.groups, 0, 0);
    assert lv.groups[..0] == [];
  }

  lemma NextNode(gs: seq<seq<Rec>>, g: nat)
    requires g < |gs|
    ensures g + 1 == |gs| ==> Flat(gs[g + 1..]) == []
    ensures g + 1 < |gs| && gs[g + 1] != [] ==> Flat(gs[g + 1..]) != [] && Flat(gs[g + 1..])[0] == gs[g + 1][0]
  {
    if g + 1 < |gs| {
      assert gs[g + 1..][0] == gs[g + 1];
    } else {
      assert gs[g + 1..] == [];
    }
  }

  /** Where no record of the level is equal, none of a node or of the index is. */
  lemma NoEqual(cfg: Config, lv: Level, comp: int -> int, g: nat)
    requires Good(cfg, lv) && g < |lv.groups| && !HasEqual(Flat(lv.groups), comp)
    ensures !HasEqual(lv.groups[g], comp) && !HasEqual(Index(lv), comp)
  {
    hide Flat;
    forall i | 0 <= i < |lv.groups[g]| ensures comp(lv.groups[g][i].key) != 0 {
      PlaceAt(lv.groups, g, i);
    }
    forall i | 0 <= i < |lv.ids| ensures comp(Index(lv)[i].key) != 0 {
      IndexAt(lv, i);
      NodeSorted(cfg, lv, i);
      PlaceAt(lv.groups, i, 0);
    }
  }
}
