/** The nodes of the B+tree with their sibling links, and how they spell out the levels. */
module BtNodes {
  import opened Seqs
  import opened BtRecords
  import opened BtSplit
  import opened BtLevels

  /** Id 0 stands for no node. */
  datatype BNode = BNode(recs: seq<Rec>, prev: nat, next: nat, leaf: bool)

  type Nodes = map<nat, BNode>

  function PrevId(ids: seq<nat>, i: nat): nat {
    if 0 < i <= |ids| then ids[i - 1] else 0
  }

  function NextId(ids: seq<nat>, i: nat): nat {
    if i + 1 < |ids| then ids[i + 1] else 0
  }

  /** The nodes of a level, doubly linked in order. */
  ghost predicate Linked(nodes: Nodes, lv: Level, leaf: bool) {
    |lv.ids| == |lv.groups| && forall i: nat :: i < |lv.ids| ==> LinkedAt(nodes, lv, leaf, i)
  }

  ghost predicate LinkedAt(nodes: Nodes, lv: Level, leaf: bool, i: nat) {
    && i < |lv.ids| == |lv.groups| && lv.ids[i] in nodes
    && nodes[lv.ids[i]] == BNode(lv.groups[i], PrevId(lv.ids, i), NextId(lv.ids, i), leaf)
  }

  ghost predicate NoDup(ids: seq<nat>) {
    0 !in ids && forall i, j :: 0 <= i < j < |ids| ==> ids[i] != ids[j]
  }

  ghost predicate Owned(ls: seq<Level>, x: nat) {
    exists m :: 0 <= m < |ls| && x in ls[m].ids
  }

  /** The nodes are exactly those of the levels. */
  ghost predicate Tied(nodes: Nodes, ls: seq<Level>) {
    && (forall m :: 0 <= m < |ls| ==> Linked(nodes, ls[m], m == 0) && NoDup(ls[m].ids))
    && (forall m, n, x :: 0 <= m < |ls| && 0 <= n < |ls| && m != n && x in ls[m].ids ==> x !in ls[n].ids)
    && (forall x :: x in nodes ==> Owned(ls, x))
  }

  /** Only nodes with ids in `before` changed or went, and only ids in `after` are new. */
  ghost predicate Confined(nodes: Nodes, nodes': Nodes, before: seq<nat>, after: seq<nat>) {
    && (forall x :: x in nodes && x !in before ==> x in nodes' && nodes'[x] == nodes[x])
    && (forall x :: x in after ==> x in before || x !in nodes)
    && (forall x :: x in nodes' ==> x in after || (x in nodes && x !in before))
  }

  lemma LinkedFrame(nodes: Nodes, nodes': Nodes, lv: Level, leaf: bool)
    requires Linked(nodes, lv, leaf) && forall x :: x in lv.ids ==> x in nodes && x in nodes' && nodes'[x] == nodes[x]
    ensures Linked(nodes', lv, leaf)
  {
    forall i: nat | i < |lv.ids| ensures LinkedAt(nodes', lv, leaf, i) {
      assert LinkedAt(nodes, lv, leaf, i) && lv.ids[i] in lv.ids;
    }
  }

  lemma IdsIn(nodes: Nodes, lv: Level, leaf: bool)
    requires Linked(nodes, lv, leaf)
    ensures forall x :: x in lv.ids ==> x in nodes
  {
    forall x | x in lv.ids ensures x in nodes {
      var i :| 0 <= i < |lv.ids| && lv.ids[i] == x;
      assert LinkedAt(nodes, lv, leaf, i);
    }
  }

  lemma Replaced(nodes: Nodes, nodes': Nodes, ls: seq<Level>, m: nat, lv: Level)
    requires Tied(nodes, ls) && m < |ls|
    requires Linked(nodes', lv, m == 0) && NoDup(lv.ids) && Confined(nodes, nodes', ls[m].ids, lv.ids)
    ensures Tied(nodes', ls[m := lv])
  {
    hide Linked, NoDup;
    var ls' := ls[m := lv];
    forall n | 0 <= n < |ls| && n != m
      ensures Linked(nodes', ls[n], n == 0) && forall x :: x in ls[n].ids ==> x !in lv.ids
    {
      IdsIn(nodes, ls[n], n == 0);
      LinkedFrame(nodes, nodes', ls[n], n == 0);
    }
    forall x | x in nodes' ensures Owned(ls', x) {
      if x in lv.ids {
        assert ls'[m] == lv;
      } else {
        var n :| 0 <= n < |ls| && x in ls[n].ids;
        assert ls'[n] == ls[n];
      }
    }
  }

  // Edits of the node map.

  function PutRecs(nodes: Nodes, id: nat, recs: seq<Rec>): Nodes
    requires id in nodes
  {
    nodes[id := nodes[id].(recs := recs)]
  }

  lemma PutRecsTied(nodes: Nodes, ls: seq<Level>, m: nat, j: nat, recs: seq<Rec>)
    requires Tied(nodes, ls) && m < |ls| && j < |ls[m].ids|
    ensures ls[m].ids[j] in nodes && j < |ls[m].groups|
    ensures Tied(PutRecs(nodes, ls[m].ids[j], recs), ls[m := SetGroup(ls[m], j, recs)])
  {
    hide Tied;
    var lv := ls[m];
    LevelOf(nodes, ls, m);
    var lv' := SetGroup(lv, j, recs);
    IdsIn(nodes, lv, m == 0);
    assert lv.ids[j] in lv.ids;
    var nodes' := PutRecs(nodes, lv.ids[j], recs);
    var leaf := m == 0;
    forall i: nat | i < |lv.ids| ensures LinkedAt(nodes', lv', leaf, i) {
      assert LinkedAt(nodes, lv, leaf, i);
    }
    Replaced(nodes, PutRecs(nodes, lv.ids[j], recs), ls, m, lv');
  }

  lemma LevelOf(nodes: Nodes, ls: seq<Level>, m: nat)
    requires Tied(nodes, ls) && m < |ls|
    ensures Linked(nodes, ls[m], m == 0) && NoDup(ls[m].ids)
  {
  }

  function SetNext(nodes: Nodes, id: nat, next: nat): Nodes {
    if id in nodes then nodes[id := nodes[id].(next := next)] else nodes
  }

  function SetPrev(nodes: Nodes, id: nat, prev: nat): Nodes {
    if id in nodes then nodes[id := nodes[id].(prev := prev)] else nodes
  }

  /** Two new nodes take the place of `id` in its chain. */
  function SplitMap(nodes: Nodes, id: nat, b1: nat, p1: seq<Rec>, b2: nat, p2: seq<Rec>): Nodes
    requires id in nodes
  {
    var n := nodes[id];
    var both := nodes[b1 := BNode(p1, n.prev, b2, n.leaf)][b2 := BNode(p2, b1, n.next, n.leaf)];
    SetPrev(SetNext(both, n.prev, b1), n.next, b2)
  }

  lemma SplitIds(lv: Level, j: nat, b1: nat, p1: seq<Rec>, b2: nat, p2: seq<Rec>, i: nat)
    requires |lv.ids| == |lv.groups| && j < |lv.ids| && i < |lv.ids| + 1
    ensures var lv' := SplitLevel(lv, j, b1, p1, b2, p2);
            && |lv'.ids| == |lv'.groups| == |lv.ids| + 1
            && (i < j ==> lv'.ids[i] == lv.ids[i] && lv'.groups[i] == lv.groups[i])
            && (i == j ==> lv'.ids[i] == b1 && lv'.groups[i] == p1)
            && (i == j + 1 ==> lv'.ids[i] == b2 && lv'.groups[i] == p2)
            && (i > j + 1 ==> lv'.ids[i] == lv.ids[i - 1] && lv'.groups[i] == lv.groups[i - 1])
  {
  }

  lemma SplitLinked(nodes: Nodes, lv: Level, leaf: bool, j: nat, b1: nat, p1: seq<Rec>, b2: nat, p2: seq<Rec>)
    requires Linked(nodes, lv, leaf) && NoDup(lv.ids) && j < |lv.ids|
    requires b1 !in nodes && b2 !in nodes && b1 != b2 && b1 != 0 && b2 != 0 && 0 !in nodes
    ensures lv.ids[j] in nodes
    ensures Linked(SplitMap(nodes, lv.ids[j], b1, p1, b2, p2), SplitLevel(lv, j, b1, p1, b2, p2), leaf)
  {
    hide SplitMap, NoDup;
    IdsIn(nodes, lv, leaf);
    assert lv.ids[j] in nodes;
    forall i: nat | i < |lv.ids| + 1
      ensures LinkedAt(SplitMap(nodes, lv.ids[j], b1, p1, b2, p2), SplitLevel(lv, j, b1, p1, b2, p2), leaf, i)
    {
      SplitLinkedAt(nodes, lv, leaf, j, b1, p1, b2, p2, i);
    }
  }

  lemma SplitLinkedAt(nodes: Nodes, lv: Level, leaf: bool, j: nat, b1: nat, p1: seq<Rec>, b2: nat, p2: seq<Rec>, i: nat)
    requires Linked(nodes, lv, leaf) && NoDup(lv.ids) && j < |lv.ids| && i < |lv.ids| + 1 && lv.ids[j] in nodes
    requires b1 !in nodes && b2 !in nodes && b1 != b2 && b1 != 0 && b2 != 0 && 0 !in nodes
    ensures LinkedAt(SplitMap(nodes, lv.ids[j], b1, p1, b2, p2), SplitLevel(lv, j, b1, p1, b2, p2), leaf, i)
  {
    hide SplitLevel, SplitMap, NoDup, Linked;
    LinksAt(nodes, lv, leaf, j);
    SplitIds(lv, j, b1, p1, b2, p2, i);
    if i > 0 {
      SplitIds(lv, j, b1, p1, b2, p2, i - 1);
    }
    if i < |lv.ids| {
      SplitIds(lv, j, b1, p1, b2, p2, i + 1);
    }
    if i < j {
      SplitKeeps(nodes, lv, leaf, j, b1, p1, b2, p2, i);
    } else if i > j + 1 {
      SplitKeeps(nodes, lv, leaf, j, b1, p1, b2, p2, i - 1);
    } else {
      SplitNew(nodes, lv, leaf, j, b1, p1, b2, p2);
    }
  }

  /** A node of the level that stays has at most one link changed. */
  lemma SplitKeeps(nodes: Nodes, lv: Level, leaf: bool, j: nat, b1: nat, p1: seq<Rec>, b2: nat, p2: seq<Rec>, i: nat)
    requires Linked(nodes, lv, leaf) && NoDup(lv.ids) && j < |lv.ids| && i < |lv.ids| && i != j
    requires b1 !in nodes && b2 !in nodes && b1 != b2 && 0 !in nodes
    ensures lv.ids[j] in nodes
    ensures var nodes' := SplitMap(nodes, lv.ids[j], b1, p1, b2, p2);
            && lv.ids[i] in nodes'
            && nodes'[lv.ids[i]] == BNode(lv.groups[i], if i == j + 1 then b2 else PrevId(lv.ids, i),
                                          if i + 1 == j then b1 else NextId(lv.ids, i), leaf)
  {
    LinksAt(nodes, lv, leaf, i);
    LinksAt(nodes, lv, leaf, j);
    hide Linked;
    assert lv.ids[i] in nodes && lv.ids[j] in nodes;
    assert i + 1 < j ==> lv.ids[i] != lv.ids[j - 1];
    assert j + 1 < i ==> lv.ids[i] != lv.ids[j + 1];
    assert 0 < j < i ==> lv.ids[i] != lv.ids[j - 1];
    assert i < j && j + 1 < |lv.ids| ==> lv.ids[i] != lv.ids[j + 1];
  }

  lemma SplitNew(nodes: Nodes, lv: Level, leaf: bool, j: nat, b1: nat, p1: seq<Rec>, b2: nat, p2: seq<Rec>)
    requires Linked(nodes, lv, leaf) && j < |lv.ids|
    requires b1 !in nodes && b2 !in nodes && b1 != b2 && b1 != 0 && b2 != 0 && 0 !in nodes
    ensures lv.ids[j] in nodes
    ensures var nodes' := SplitMap(nodes, lv.ids[j], b1, p1, b2, p2);
            && b1 in nodes' && nodes'[b1] == BNode(p1, PrevId(lv.ids, j), b2, leaf)
            && b2 in nodes' && nodes'[b2] == BNode(p2, b1, NextId(lv.ids, j), leaf)
  {
    LinksAt(nodes, lv, leaf, j);
  }

  /** A node of the level and its neighbours. */
  lemma LinksAt(nodes: Nodes, lv: Level, leaf: bool, j: nat)
    requires Linked(nodes, lv, leaf) && j < |lv.ids|
    ensures LinkedAt(nodes, lv, leaf, j)
    ensures j > 0 ==> lv.ids[j - 1] in nodes
    ensures j + 1 < |lv.ids| ==> lv.ids[j + 1] in nodes
  {
    assert j > 0 ==> LinkedAt(nodes, lv, leaf, j - 1);
    assert j + 1 < |lv.ids| ==> LinkedAt(nodes, lv, leaf, j + 1);
  }

  /** Where no node of the level is, nothing changes. */
  lemma SplitElsewhere(nodes: Nodes, lv: Level, leaf: bool, j: nat, b1: nat, p1: seq<Rec>, b2: nat, p2: seq<Rec>,
                       x: nat)
    requires Linked(nodes, lv, leaf) && j < |lv.ids| && lv.ids[j] in nodes && 0 !in nodes && x !in lv.ids
    ensures var nodes' := SplitMap(nodes, lv.ids[j], b1, p1, b2, p2);
            && (x in nodes && x != b1 && x != b2 ==> x in nodes' && nodes'[x] == nodes[x])
            && (x in nodes' ==> x in nodes || x == b1 || x == b2)
  {
    LinksAt(nodes, lv, leaf, j);
    assert j > 0 ==> lv.ids[j - 1] in lv.ids;
    assert j + 1 < |lv.ids| ==> lv.ids[j + 1] in lv.ids;
  }

  lemma SplitNoDup(lv: Level, j: nat, b1: nat, p1: seq<Rec>, b2: nat, p2: seq<Rec>)
    requires |lv.ids| == |lv.groups| && j < |lv.ids| && NoDup(lv.ids)
    requires b1 !in lv.ids && b2 !in lv.ids && b1 != b2 && b1 != 0 && b2 != 0
    ensures NoDup(SplitLevel(lv, j, b1, p1, b2, p2).ids)
    ensures forall x :: x in SplitLevel(lv, j, b1, p1, b2, p2).ids <==>
                          x == b1 || x == b2 || (x in lv.ids && x != lv.ids[j])
  {
    var ids := SplitLevel(lv, j, b1, p1, b2, p2).ids;
    forall x | x in lv.ids && x != lv.ids[j] ensures x in ids {
      var i :| 0 <= i < |lv.ids| && lv.ids[i] == x;
      assert ids[if i < j then i else i + 1] == x;
    }
    assert ids[j] == b1 && ids[j + 1] == b2;
  }

  /** A split of a node that is then given up. */
  lemma SplitTied(nodes: Nodes, ls: seq<Level>, m: nat, j: nat, b1: nat, p1: seq<Rec>, b2: nat, p2: seq<Rec>)
    requires Tied(nodes, ls) && m < |ls| && j < |ls[m].ids| && 0 !in nodes
    requires b1 !in nodes && b2 !in nodes && b1 != b2 && b1 != 0 && b2 != 0
    ensures |ls[m].ids| == |ls[m].groups| && ls[m].ids[j] in nodes
    ensures Tied(SplitMap(nodes, ls[m].ids[j], b1, p1, b2, p2) - {ls[m].ids[j]},
                 ls[m := SplitLevel(ls[m], j, b1, p1, b2, p2)])
  {
    hide Tied, NoDup, SplitMap;
    var lv := ls[m];
    LevelOf(nodes, ls, m);
    IdsIn(nodes, lv, m == 0);
    var id := lv.ids[j];
    assert id in lv.ids;
    SplitLinked(nodes, lv, m == 0, j, b1, p1, b2, p2);
    SplitNoDup(lv, j, b1, p1, b2, p2);
    var nodes' := SplitMap(nodes, id, b1, p1, b2, p2);
    var lv' := SplitLevel(lv, j, b1, p1, b2, p2);
    IdsIn(nodes', lv', m == 0);
    LinkedFrame(nodes', nodes' - {id}, lv', m == 0);
    forall x | x !in lv.ids
      ensures (x in nodes && x != b1 && x != b2 ==> x in nodes' && nodes'[x] == nodes[x])
              && (x in nodes' ==> x in nodes || x == b1 || x == b2)
    {
      SplitElsewhere(nodes, lv, m == 0, j, b1, p1, b2, p2, x);
    }
    Replaced(nodes, nodes' - {id}, ls, m, lv');
  }

  /** A new level with one node. */
  lemma GrowTied(nodes: Nodes, ls: seq<Level>, id: nat, recs: seq<Rec>)
    requires Tied(nodes, ls) && |ls| > 0 && id !in nodes && id != 0
    ensures Tied(nodes[id := BNode(recs, 0, 0, false)], ls + [Level([id], [recs])])
  {
    var nodes' := nodes[id := BNode(recs, 0, 0, false)];
    var top := Level([id], [recs]);
    var ls' := ls + [top];
    forall n | 0 <= n < |ls| ensures Linked(nodes', ls[n], n == 0) && id !in ls[n].ids {
      IdsIn(nodes, ls[n], n == 0);
      LinkedFrame(nodes, nodes', ls[n], n == 0);
    }
    hide Linked;
    assert Linked(nodes', top, false) by {
      GrowLinked(nodes, id, recs);
    }
    forall x | x in nodes' ensures Owned(ls', x) {
      if x == id {
        assert ls'[|ls|] == top && id in top.ids;
      } else {
        var n :| 0 <= n < |ls| && x in ls[n].ids;
        assert ls'[n] == ls[n];
      }
    }
  }

  lemma GrowLinked(nodes: Nodes, id: nat, recs: seq<Rec>)
    ensures Linked(nodes[id := BNode(recs, 0, 0, false)], Level([id], [recs]), false)
  {
    assert LinkedAt(nodes[id := BNode(recs, 0, 0, false)], Level([id], [recs]), false, 0);
  }

  /** The top level taken away. */
  lemma ShrinkTied(nodes: Nodes, ls: seq<Level>, id: nat)
    requires Tied(nodes, ls) && |ls| > 1 && ls[|ls| - 1].ids == [id]
    ensures Tied(nodes - {id}, ls[..|ls| - 1])
  {
    hide Linked, NoDup;
    var t := |ls| - 1;
    assert id in ls[t].ids;
    forall n | 0 <= n < t ensures Linked(nodes - {id}, ls[n], n == 0) {
      IdsIn(nodes, ls[n], n == 0);
      LinkedFrame(nodes, nodes - {id}, ls[n], n == 0);
    }
    forall x | x in nodes - {id} ensures Owned(ls[..t], x) {
      var n :| 0 <= n < |ls| && x in ls[n].ids;
      assert n < t && ls[..t][n] == ls[n];
    }
  }

  /** Takes a node out of its chain and gives it up. */
  function Unlink(nodes: Nodes, id: nat): Nodes
    requires id in nodes
  {
    var n := nodes[id];
    SetPrev(SetNext(nodes, n.prev, n.next), n.next, n.prev) - {id}
  }

  lemma DropIds(lv: Level, j: nat, i: nat)
    requires |lv.ids| == |lv.groups| && j < |lv.ids| && i + 1 < |lv.ids|
    ensures var lv' := DropNode(lv, j); var i' := if i < j then i else i + 1;
            |lv'.ids| == |lv'.groups| == |lv.ids| - 1 && lv'.ids[i] == lv.ids[i'] && lv'.groups[i] == lv.groups[i']
  {
  }

  lemma DropKeeps(nodes: Nodes, lv: Level, leaf: bool, j: nat, i: nat)
    requires Linked(nodes, lv, leaf) && NoDup(lv.ids) && j < |lv.ids| && i < |lv.ids| && i != j && 0 !in nodes
    ensures lv.ids[j] in nodes && lv.ids[i] in Unlink(nodes, lv.ids[j])
    ensures Unlink(nodes, lv.ids[j])[lv.ids[i]] ==
            BNode(lv.groups[i], if i == j + 1 then PrevId(lv.ids, j) else PrevId(lv.ids, i),
                  if i + 1 == j then NextId(lv.ids, j) else NextId(lv.ids, i), leaf)
  {
    LinksAt(nodes, lv, leaf, i);
    LinksAt(nodes, lv, leaf, j);
    hide Linked;
    assert lv.ids[i] in nodes && lv.ids[j] in nodes;
    assert i + 1 < j ==> lv.ids[i] != lv.ids[j - 1];
    assert j + 1 < i ==> lv.ids[i] != lv.ids[j + 1];
    assert 0 < j < i ==> lv.ids[i] != lv.ids[j - 1];
    assert i < j && j + 1 < |lv.ids| ==> lv.ids[i] != lv.ids[j + 1];
  }

  lemma DropLinkedAt(nodes: Nodes, lv: Level, leaf: bool, j: nat, i: nat)
    requires Linked(nodes, lv, leaf) && NoDup(lv.ids) && j < |lv.ids| && i + 1 < |lv.ids| && lv.ids[j] in nodes
             && 0 !in nodes
    ensures LinkedAt(Unlink(nodes, lv.ids[j]), DropNode(lv, j), leaf, i)
  {
    hide DropNode, Unlink, NoDup, Linked;
    LinksAt(nodes, lv, leaf, j);
    DropIds(lv, j, i);
    if i > 0 {
      DropIds(lv, j, i - 1);
    }
    if i + 2 < |lv.ids| {
      DropIds(lv, j, i + 1);
    }
    DropKeeps(nodes, lv, leaf, j, if i < j then i else i + 1);
  }

  lemma DropNoDup(lv: Level, j: nat)
    requires |lv.ids| == |lv.groups| && j < |lv.ids| && NoDup(lv.ids)
    ensures NoDup(DropNode(lv, j).ids) && forall x :: x in DropNode(lv, j).ids <==> x in lv.ids && x != lv.ids[j]
  {
    var ids := DropNode(lv, j).ids;
    forall x | x in lv.ids && x != lv.ids[j] ensures x in ids {
      var i :| 0 <= i < |lv.ids| && lv.ids[i] == x;
      assert ids[if i < j then i else i - 1] == x;
    }
  }

  lemma DropElsewhere(nodes: Nodes, lv: Level, leaf: bool, j: nat, x: nat)
    requires Linked(nodes, lv, leaf) && j < |lv.ids| && lv.ids[j] in nodes && 0 !in nodes && x !in lv.ids
    ensures (x in nodes <==> x in Unlink(nodes, lv.ids[j])) && (x in nodes ==> Unlink(nodes, lv.ids[j])[x] == nodes[x])
  {
    LinksAt(nodes, lv, leaf, j);
    assert lv.ids[j] in lv.ids;
    assert j > 0 ==> lv.ids[j - 1] in lv.ids;
    assert j + 1 < |lv.ids| ==> lv.ids[j + 1] in lv.ids;
  }

  lemma UnlinkTied(nodes: Nodes, ls: seq<Level>, m: nat, j: nat)
    requires Tied(nodes, ls) && m < |ls| && j < |ls[m].ids| && 0 !in nodes
    ensures |ls[m].ids| == |ls[m].groups| && ls[m].ids[j] in nodes
    ensures Tied(Unlink(nodes, ls[m].ids[j]), ls[m := DropNode(ls[m], j)])
  {
    hide Tied, NoDup, Unlink, DropNode;
    var lv := ls[m];
    LevelOf(nodes, ls, m);
    IdsIn(nodes, lv, m == 0);
    var id := lv.ids[j];
    assert id in lv.ids;
    var nodes', lv' := Unlink(nodes, id), DropNode(lv, j);
    DropNoDup(lv, j);
    var leaf := m == 0;
    forall i: nat | i + 1 < |lv.ids| ensures LinkedAt(nodes', lv', leaf, i) {
      DropLinkedAt(nodes, lv, leaf, j, i);
    }
    DropLength(lv, j);
    forall x | x !in lv.ids ensures (x in nodes <==> x in nodes') && (x in nodes ==> nodes'[x] == nodes[x]) {
      DropElsewhere(nodes, lv, m == 0, j, x);
    }
    UnlinkIds(nodes, id);
    Replaced(nodes, nodes', ls, m, lv');
  }

  lemma DropLength(lv: Level, j: nat)
    requires |lv.ids| == |lv.groups| && j < |lv.ids|
    ensures |DropNode(lv, j).ids| == |DropNode(lv, j).groups| == |lv.ids| - 1
  {
  }

  lemma UnlinkIds(nodes: Nodes, id: nat)
    requires id in nodes
    ensures Unlink(nodes, id).Keys == nodes.Keys - {id}
  {
  }
}
