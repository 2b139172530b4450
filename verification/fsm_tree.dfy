/** The shape of the free-space B-tree: nodes in memory, the tree they spell out,
    and one-hole contexts for the path that a single-pass operation descends. */
module FsmTree {
  import opened FsmKeys

  /** One node of the free-space B-tree. The two arrays are embedded in the node, so they
      are sequence-valued fields of fixed length. */
  class Node {
    var next: Node?
    var nrActive: nat
    var level: nat
    var leaf: bool
    var keyVals: seq<Key>
    var children: seq<Node?>

    constructor (order: nat)
      requires order >= 1
      ensures nrActive == 0 && level == 0 && leaf && next == null
      ensures |keyVals| == 2 * order - 1 && |children| == 2 * order
    {
      nrActive, level, leaf, next := 0, 0, true, null;
      keyVals := seq(2 * order - 1, _ => Key(0, 0));
      children := seq(2 * order, _ => null);
    }

    /** What the live part of the node holds: its level, keys and children (none in a leaf). */
    ghost predicate Is(lvl: nat, isLeaf: bool, keys: seq<Key>, kids: seq<Node?>, order: nat)
      reads this`nrActive, this`level, this`leaf, this`keyVals, this`children
    {
      && nrActive == |keys| <= |keyVals| == 2 * order - 1 && |children| == 2 * order
      && level == lvl && leaf == isLeaf
      && keyVals[..|keys|] == keys
      && (if leaf then kids == [] else |kids| == |keys| + 1 && children[..|kids|] == kids)
    }
  }

  /** The tree that a node and its descendants spell out; a leaf has no kids. */
  datatype Tree = Tree(node: Node, level: nat, keys: seq<Key>, kids: seq<Tree>)

  ghost function Nodes(t: Tree): set<Node> {
    {t.node} + NodesOf(t.kids)
  }

  ghost function NodesOf(ts: seq<Tree>): set<Node> {
    set j, n | 0 <= j < |ts| && n in Nodes(ts[j]) :: n
  }

  /** Node `t.node` in memory holds exactly the keys of `t` and points to its kids. */
  ghost predicate Here(t: Tree, order: nat)
    reads t.node`nrActive, t.node`level, t.node`leaf, t.node`keyVals, t.node`children
  {
    t.node.Is(t.level, t.kids == [], t.keys, Ptrs(t.kids), order)
  }

  /** The root nodes of a list of trees, as references. */
  ghost function Ptrs(ts: seq<Tree>): seq<Node?> {
    seq(|ts|, j requires 0 <= j < |ts| => ts[j].node)
  }

  lemma PtrsConcat(a: seq<Tree>, b: seq<Tree>)
    ensures Ptrs(a + b) == Ptrs(a) + Ptrs(b)
  {
  }

  lemma PtrsSplit(ts: seq<Tree>, i: nat)
    requires i < |ts|
    ensures Ptrs(ts) == Ptrs(ts[..i]) + [ts[i].node] + Ptrs(ts[i + 1..])
  {
  }

  /** A node is a leaf or has one kid more than keys. */
  ghost predicate Shaped(t: Tree) {
    t.kids == [] || |t.kids| == |t.keys| + 1
  }

  /** The whole of `t` is in memory. */
  ghost predicate Link(t: Tree, order: nat)
    reads Nodes(t)`nrActive, Nodes(t)`level, Nodes(t)`leaf, Nodes(t)`keyVals, Nodes(t)`children
    decreases t, 1
  {
    Here(t, order) && LinkKids(t.kids, order)
  }

  ghost predicate LinkKids(ts: seq<Tree>, order: nat)
    reads NodesOf(ts)`nrActive, NodesOf(ts)`level, NodesOf(ts)`leaf, NodesOf(ts)`keyVals, NodesOf(ts)`children
    decreases ts, 0
  {
    forall j :: 0 <= j < |ts| ==> Link(ts[j], order)
  }

  /** No node occurs twice. */
  ghost predicate Sep(t: Tree)
    decreases t, 1
  {
    && t.node !in NodesOf(t.kids)
    && SepKids(t.kids)
  }

  ghost predicate SepKids(ts: seq<Tree>)
    decreases ts, 0
  {
    && (forall j :: 0 <= j < |ts| ==> Sep(ts[j]))
    && (forall i, j :: 0 <= i < j < |ts| ==> Nodes(ts[i]) !! Nodes(ts[j]))
  }

  /** B-tree balance: key counts within bounds, all leaves at level 0. */
  ghost predicate Bal(t: Tree, order: nat, min: int)
    decreases t, 1
  {
    && min <= |t.keys| < 2 * order
    && (t.level == 0 <==> t.kids == [])
    && (t.level > 0 ==> |t.kids| == |t.keys| + 1 && BalKids(t.kids, order, t.level - 1))
  }

  ghost predicate BalKids(ts: seq<Tree>, order: nat, level: nat)
    decreases ts, 0
  {
    forall j :: 0 <= j < |ts| ==> ts[j].level == level && Bal(ts[j], order, order - 1)
  }

  /** The keys of `t` in order. */
  ghost function Inorder(t: Tree): seq<Key>
    decreases t, 1
  {
    if |t.kids| != |t.keys| + 1 then t.keys
    else Pre(t.kids[..|t.keys|], t.keys) + Inorder(t.kids[|t.keys|])
  }

  /** kid, key, kid, key, ... */
  ghost function Pre(ts: seq<Tree>, ks: seq<Key>): seq<Key>
    requires |ts| == |ks|
    decreases ts, 0
  {
    if ts == [] then []
    else var m := |ts| - 1; Pre(ts[..m], ks[..m]) + Inorder(ts[m]) + [ks[m]]
  }

  /** key, kid, key, kid, ... */
  ghost function Suf(ks: seq<Key>, ts: seq<Tree>): seq<Key>
    requires |ts| == |ks|
    decreases ts, 0
  {
    if ts == [] then []
    else [ks[0]] + Inorder(ts[0]) + Suf(ks[1..], ts[1..])
  }

  /** Cutting the in-order walk at kid `i`. */
  lemma {:induction false} InorderAt(t: Tree, i: nat)
    requires |t.kids| == |t.keys| + 1 && i <= |t.keys|
    ensures Inorder(t) == Pre(t.kids[..i], t.keys[..i]) + Inorder(t.kids[i]) + Suf(t.keys[i..], t.kids[i + 1..])
    decreases |t.keys| - i
  {
    hide Inorder, Pre, Suf;
    if i == |t.keys| {
      InorderEnd(t);
    } else {
      InorderAt(t, i + 1);
      PreStep(t.kids[..i + 1], t.keys[..i + 1]);
      SufStep(t.keys[i..], t.kids[i + 1..]);
      assert t.kids[..i + 1][..i] == t.kids[..i] && t.keys[..i + 1][..i] == t.keys[..i];
      assert t.keys[i..][1..] == t.keys[i + 1..] && t.kids[i + 1..][1..] == t.kids[i + 2..];
      assert t.keys[i..][0] == t.keys[i] && t.kids[i + 1..][0] == t.kids[i + 1];
      Shift(Pre(t.kids[..i], t.keys[..i]), Inorder(t.kids[i]), t.keys[i], Inorder(t.kids[i + 1]),
            Suf(t.keys[i + 1..], t.kids[i + 2..]));
    }
  }

  lemma InorderEnd(t: Tree)
    requires |t.kids| == |t.keys| + 1
    ensures var i := |t.keys|;
            Inorder(t) == Pre(t.kids[..i], t.keys[..i]) + Inorder(t.kids[i]) + Suf(t.keys[i..], t.kids[i + 1..])
  {
    assert t.keys[..|t.keys|] == t.keys;
  }

  lemma Shift(p: seq<Key>, x: seq<Key>, k: Key, y: seq<Key>, s: seq<Key>)
    ensures (p + x + [k]) + y + s == p + x + ([k] + y + s)
  {
  }

  /** Cutting it around two adjacent kids. */
  lemma InorderPair(t: Tree, i: nat)
    requires |t.kids| == |t.keys| + 1 && i < |t.keys|
    ensures Inorder(t) ==
            Pre(t.kids[..i], t.keys[..i]) + (Inorder(t.kids[i]) + [t.keys[i]] + Inorder(t.kids[i + 1]))
            + Suf(t.keys[i + 1..], t.kids[i + 2..])
  {
    InorderAt(t, i);
    assert t.keys[i..][1..] == t.keys[i + 1..] && t.kids[i + 1..][1..] == t.kids[i + 2..];
    assert t.keys[i..][0] == t.keys[i] && t.kids[i + 1..][0] == t.kids[i + 1];
  }

  /** The part of `t` before its key `m`, kept in `t`'s own node. */
  ghost function Lower(t: Tree, m: nat): Tree
    requires m < |t.keys|
  {
    t.(keys := t.keys[..m], kids := if |t.kids| == |t.keys| + 1 then t.kids[..m + 1] else [])
  }

  /** The part of `t` after its key `m`, put in `node`. */
  ghost function Upper(t: Tree, m: nat, node: Node): Tree
    requires m < |t.keys|
  {
    Tree(node, t.level, t.keys[m + 1..], if |t.kids| == |t.keys| + 1 then t.kids[m + 1..] else [])
  }

  /** Two siblings and the key between them in one node. */
  ghost function Join(a: Tree, k: Key, b: Tree, node: Node): Tree {
    Tree(node, a.level, a.keys + [k] + b.keys, a.kids + b.kids)
  }

  lemma SufStep(ks: seq<Key>, ts: seq<Tree>)
    requires |ks| == |ts| > 0
    ensures Suf(ks, ts) == [ks[0]] + Inorder(ts[0]) + Suf(ks[1..], ts[1..])
    ensures Pre([], []) == [] == Suf([], [])
  {
  }

  lemma PreStep(ts: seq<Tree>, ks: seq<Key>)
    requires |ks| == |ts| > 0
    ensures var m := |ts| - 1; Pre(ts, ks) == Pre(ts[..m], ks[..m]) + Inorder(ts[m]) + [ks[m]]
  {
  }

  lemma InorderCut(t: Tree, m: nat, node: Node)
    requires Shaped(t) && m < |t.keys|
    ensures Inorder(t) == Inorder(Lower(t, m)) + [t.keys[m]] + Inorder(Upper(t, m, node))
  {
    if |t.kids| == |t.keys| + 1 {
      InorderCutInner(t, m, node);
    } else {
      assert t.keys == t.keys[..m] + [t.keys[m]] + t.keys[m + 1..];
    }
  }

  lemma InorderCutInner(t: Tree, m: nat, node: Node)
    requires |t.kids| == |t.keys| + 1 && m < |t.keys|
    ensures Inorder(t) == Inorder(Lower(t, m)) + [t.keys[m]] + Inorder(Upper(t, m, node))
  {
    hide Inorder, Pre, Suf;
    var lo, hi := Lower(t, m), Upper(t, m, node);
    InorderAt(t, m);
    SufStep(t.keys[m..], t.kids[m + 1..]);
    assert t.keys[m..][1..] == t.keys[m + 1..] && t.kids[m + 1..][1..] == t.kids[m + 2..];
    InorderAt(lo, m);
    assert lo.kids[..m] == t.kids[..m] && lo.keys[..m] == t.keys[..m] && lo.keys[m..] == [] && lo.kids[m + 1..] == [];
    InorderAt(hi, 0);
    assert hi.kids[1..] == t.kids[m + 2..] && hi.keys[0..] == t.keys[m + 1..] && hi.keys[..0] == []
           && hi.kids[..0] == [];
  }

  lemma InorderSame(a: Tree, b: Tree)
    requires a.keys == b.keys && a.kids == b.kids
    ensures Inorder(a) == Inorder(b)
  {
  }

  lemma InorderJoin(a: Tree, k: Key, b: Tree, node: Node)
    requires Shaped(a) && Shaped(b) && (a.kids == [] <==> b.kids == [])
    ensures Inorder(Join(a, k, b, node)) == Inorder(a) + [k] + Inorder(b)
  {
    var t := Join(a, k, b, node);
    var m := |a.keys|;
    InorderCut(t, m, b.node);
    assert t.keys[..m] == a.keys && t.keys[m + 1..] == b.keys;
    if a.kids != [] {
      assert t.kids[..m + 1] == a.kids && t.kids[m + 1..] == b.kids;
    }
    InorderSame(Lower(t, m), a);
    InorderSame(Upper(t, m, b.node), b);
  }

  // The three local rearrangements of single-pass B-tree algorithms.

  /** Kid `i` cut at its key `m`; the upper part goes to `node`. */
  ghost function SplitKid(p: Tree, i: nat, m: nat, node: Node): Tree
    requires i < |p.kids| && i <= |p.keys| && m < |p.kids[i].keys|
  {
    var c := p.kids[i];
    p.(keys := p.keys[..i] + [c.keys[m]] + p.keys[i..],
       kids := p.kids[..i] + [Lower(c, m), Upper(c, m, node)] + p.kids[i + 1..])
  }

  /** Kids `i` and `i + 1` and the key between them joined in `node`. */
  ghost function MergeKids(p: Tree, i: nat, node: Node): Tree
    requires i < |p.keys| && i + 1 < |p.kids|
  {
    p.(keys := p.keys[..i] + p.keys[i + 1..],
       kids := p.kids[..i] + [Join(p.kids[i], p.keys[i], p.kids[i + 1], node)] + p.kids[i + 2..])
  }

  /** Kids `i` and `i + 1` re-cut at key `m` of their join. */
  ghost function Rotate(p: Tree, i: nat, m: nat): Tree
    requires i < |p.keys| && i + 1 < |p.kids|
    requires m <= |p.kids[i].keys| + |p.kids[i + 1].keys|
  {
    var l, r := p.kids[i], p.kids[i + 1];
    var j := Join(l, p.keys[i], r, l.node);
    p.(keys := p.keys[i := j.keys[m]], kids := p.kids[i := Lower(j, m)][i + 1 := Upper(j, m, r.node)])
  }

  lemma SplitKidInorder(p: Tree, i: nat, m: nat, node: Node)
    requires |p.kids| == |p.keys| + 1 && i <= |p.keys| && m < |p.kids[i].keys| && Shaped(p.kids[i])
    ensures Inorder(SplitKid(p, i, m, node)) == Inorder(p)
  {
    var q := SplitKid(p, i, m, node);
    InorderAt(p, i);
    InorderPair(q, i);
    InorderCut(p.kids[i], m, node);
    assert q.kids[..i] == p.kids[..i] && q.keys[..i] == p.keys[..i];
    assert q.keys[i + 1..] == p.keys[i..] && q.kids[i + 2..] == p.kids[i + 1..];
  }

  lemma MergeKidsInorder(p: Tree, i: nat, node: Node)
    requires |p.kids| == |p.keys| + 1 && i < |p.keys|
    requires Shaped(p.kids[i]) && Shaped(p.kids[i + 1]) && (p.kids[i].kids == [] <==> p.kids[i + 1].kids == [])
    ensures Inorder(MergeKids(p, i, node)) == Inorder(p)
  {
    var q := MergeKids(p, i, node);
    InorderPair(p, i);
    InorderAt(q, i);
    InorderJoin(p.kids[i], p.keys[i], p.kids[i + 1], node);
    assert q.kids[..i] == p.kids[..i] && q.keys[..i] == p.keys[..i];
    assert q.keys[i..] == p.keys[i + 1..] && q.kids[i + 1..] == p.kids[i + 2..];
  }

  lemma RotateInorder(p: Tree, i: nat, m: nat)
    requires |p.kids| == |p.keys| + 1 && i < |p.keys|
    requires m <= |p.kids[i].keys| + |p.kids[i + 1].keys|
    requires Shaped(p.kids[i]) && Shaped(p.kids[i + 1]) && (p.kids[i].kids == [] <==> p.kids[i + 1].kids == [])
    ensures Inorder(Rotate(p, i, m)) == Inorder(p)
  {
    var q := Rotate(p, i, m);
    var l, r := p.kids[i], p.kids[i + 1];
    InorderPair(p, i);
    InorderPair(q, i);
    InorderJoin(l, p.keys[i], r, l.node);
    InorderCut(Join(l, p.keys[i], r, l.node), m, r.node);
    assert q.kids[..i] == p.kids[..i] && q.keys[..i] == p.keys[..i];
    assert q.keys[i + 1..] == p.keys[i + 1..] && q.kids[i + 2..] == p.kids[i + 2..];
  }

  // Separation and balance of concatenated kid lists.

  lemma NodesOfConcat(a: seq<Tree>, b: seq<Tree>)
    ensures NodesOf(a + b) == NodesOf(a) + NodesOf(b)
  {
    forall n | n in NodesOf(a) ensures n in NodesOf(a + b) {
      var j :| 0 <= j < |a| && n in Nodes(a[j]);
      assert (a + b)[j] == a[j];
    }
    forall n | n in NodesOf(b) ensures n in NodesOf(a + b) {
      var j :| 0 <= j < |b| && n in Nodes(b[j]);
      assert (a + b)[|a| + j] == b[j];
    }
  }

  lemma SepConcat(a: seq<Tree>, b: seq<Tree>)
    ensures SepKids(a + b) <==> SepKids(a) && SepKids(b) && NodesOf(a) !! NodesOf(b)
  {
    var s := a + b;
    if SepKids(s) {
      forall i | 0 <= i < |a| ensures Sep(a[i]) { assert s[i] == a[i]; }
      forall i | 0 <= i < |b| ensures Sep(b[i]) { assert s[|a| + i] == b[i]; }
      forall i, j | 0 <= i < j < |a| ensures Nodes(a[i]) !! Nodes(a[j]) { assert s[i] == a[i] && s[j] == a[j]; }
      forall i, j | 0 <= i < j < |b| ensures Nodes(b[i]) !! Nodes(b[j]) {
        assert s[|a| + i] == b[i] && s[|a| + j] == b[j];
      }
      forall i, j | 0 <= i < |a| && 0 <= j < |b| ensures Nodes(a[i]) !! Nodes(b[j]) {
        assert s[i] == a[i] && s[|a| + j] == b[j];
      }
    }
    if SepKids(a) && SepKids(b) && NodesOf(a) !! NodesOf(b) {
      forall i, j | 0 <= i < j < |s| ensures Nodes(s[i]) !! Nodes(s[j]) {
        if i < |a| <= j {
          assert Nodes(a[i]) <= NodesOf(a) && Nodes(b[j - |a|]) <= NodesOf(b);
        }
      }
    }
  }

  lemma Assemble(a: seq<Tree>, t: Tree, b: seq<Tree>)
    ensures NodesOf(a + [t] + b) == NodesOf(a) + Nodes(t) + NodesOf(b)
    ensures SepKids(a + [t] + b) <==>
            SepKids(a) && Sep(t) && SepKids(b) && NodesOf(a) !! Nodes(t) !! NodesOf(b)
  {
    hide SepKids, NodesOf;
    Singleton(t);
    NodesOfConcat(a, [t]);
    NodesOfConcat(a + [t], b);
    SepConcat(a, [t]);
    SepConcat(a + [t], b);
  }

  lemma Singleton(t: Tree)
    ensures NodesOf([t]) == Nodes(t)
    ensures SepKids([t]) <==> Sep(t)
  {
    assert [t][0] == t;
  }

  /** What separation says of two adjacent kids, in terms of their joined kid lists. */
  ghost predicate PairApart(a: seq<Tree>, ln: Node, rn: Node, ks: seq<Tree>, b: seq<Tree>) {
    && SepKids(a) && SepKids(b) && SepKids(ks) && ln != rn
    && {ln, rn} !! NodesOf(ks) !! NodesOf(a) !! NodesOf(b)
  }

  lemma PairNodes(a: seq<Tree>, l: Tree, r: Tree, b: seq<Tree>)
    ensures NodesOf(a + [l, r] + b) == NodesOf(a) + {l.node, r.node} + NodesOf(l.kids + r.kids) + NodesOf(b)
  {
    hide SepKids, NodesOf;
    Assemble(a, l, [r] + b);
    Singleton(r);
    NodesOfConcat([r], b);
    assert a + [l] + ([r] + b) == a + [l, r] + b;
    NodesOfConcat(l.kids, r.kids);
  }

  lemma PairSep(a: seq<Tree>, l: Tree, r: Tree, b: seq<Tree>)
    ensures SepKids(a + [l, r] + b) <==> PairApart(a, l.node, r.node, l.kids + r.kids, b)
  {
    hide SepKids, NodesOf;
    Assemble(a, l, [r] + b);
    Singleton(r);
    NodesOfConcat([r], b);
    SepConcat([r], b);
    assert a + [l] + ([r] + b) == a + [l, r] + b;
    NodesOfConcat(l.kids, r.kids);
    SepConcat(l.kids, r.kids);
  }

  /** Re-cutting two siblings keeps every node exactly once. */
  lemma RecutSep(p: Tree, q: Tree, a: seq<Tree>, l: Tree, r: Tree, l': Tree, r': Tree, b: seq<Tree>)
    requires Sep(p) && p.kids == a + [l, r] + b && q.kids == a + [l', r'] + b && p.node == q.node
    requires l.node == l'.node && r.node == r'.node && l.kids + r.kids == l'.kids + r'.kids
    ensures Sep(q) && Nodes(q) == Nodes(p)
  {
    hide SepKids, NodesOf;
    PairNodes(a, l, r, b);
    PairNodes(a, l', r', b);
    PairSep(a, l, r, b);
    PairSep(a, l', r', b);
  }

  lemma PairSplit(ts: seq<Tree>, i: nat)
    requires i + 1 < |ts|
    ensures ts == ts[..i] + [ts[i], ts[i + 1]] + ts[i + 2..]
  {
  }

  lemma RotateKids(p: Tree, i: nat, m: nat)
    requires |p.kids| == |p.keys| + 1 && i < |p.keys| && m <= |p.kids[i].keys| + |p.kids[i + 1].keys|
    requires Shaped(p.kids[i]) && Shaped(p.kids[i + 1]) && (p.kids[i].kids == [] <==> p.kids[i + 1].kids == [])
    ensures var q := Rotate(p, i, m);
            && |q.kids| == |p.kids| && q.node == p.node && q.kids[..i] == p.kids[..i]
               && q.kids[i + 2..] == p.kids[i + 2..]
            && q.kids[i].node == p.kids[i].node && q.kids[i + 1].node == p.kids[i + 1].node
            && q.kids[i].kids + q.kids[i + 1].kids == p.kids[i].kids + p.kids[i + 1].kids
  {
    var l, r := p.kids[i], p.kids[i + 1];
    CutKids(Join(l, p.keys[i], r, l.node), m, r.node);
  }

  lemma CutKids(t: Tree, m: nat, node: Node)
    requires Shaped(t) && m < |t.keys|
    ensures Lower(t, m).kids + Upper(t, m, node).kids == t.kids
  {
  }

  lemma RotateSep(p: Tree, i: nat, m: nat)
    requires Sep(p) && |p.kids| == |p.keys| + 1 && i < |p.keys|
    requires m <= |p.kids[i].keys| + |p.kids[i + 1].keys|
    requires Shaped(p.kids[i]) && Shaped(p.kids[i + 1]) && (p.kids[i].kids == [] <==> p.kids[i + 1].kids == [])
    ensures Sep(Rotate(p, i, m)) && Nodes(Rotate(p, i, m)) == Nodes(p)
  {
    var q := Rotate(p, i, m);
    RotateKids(p, i, m);
    hide Rotate, SepKids, NodesOf;
    PairSplit(p.kids, i);
    PairSplit(q.kids, i);
    RecutSep(p, q, p.kids[..i], p.kids[i], p.kids[i + 1], q.kids[i], q.kids[i + 1], p.kids[i + 2..]);
  }

  /** Balance without the bounds on the number of keys. */
  ghost predicate Even(t: Tree, order: nat) {
    && (t.level == 0 <==> t.kids == [])
    && (t.level > 0 ==> |t.kids| == |t.keys| + 1 && BalKids(t.kids, order, t.level - 1))
  }

  lemma JoinEven(a: Tree, k: Key, b: Tree, node: Node, order: nat)
    requires Even(a, order) && Even(b, order) && a.level == b.level
    ensures Even(Join(a, k, b, node), order)
  {
    var j := Join(a, k, b, node);
    forall x | 0 <= x < |j.kids| ensures j.kids[x] == if x < |a.kids| then a.kids[x] else b.kids[x - |a.kids|] {}
  }

  lemma CutEven(t: Tree, m: nat, node: Node, order: nat)
    requires Even(t, order) && m < |t.keys|
    ensures Even(Lower(t, m), order) && Even(Upper(t, m, node), order)
  {
  }

  lemma CutBal(t: Tree, m: nat, node: Node, order: nat)
    requires order - 1 <= m < 2 * order && order - 1 <= |t.keys| - 1 - m < 2 * order
    requires Even(Lower(t, m), order) && Even(Upper(t, m, node), order)
    ensures Bal(Lower(t, m), order, order - 1) && Bal(Upper(t, m, node), order, order - 1)
    ensures Lower(t, m).level == Upper(t, m, node).level == t.level
  {
  }

  lemma KidBal(ts: seq<Tree>, i: nat, order: nat, level: nat)
    requires BalKids(ts, order, level) && i < |ts|
    ensures ts[i].level == level && Bal(ts[i], order, order - 1)
  {
  }

  lemma BalUpdate(ts: seq<Tree>, i: nat, t: Tree, order: nat, level: nat)
    requires BalKids(ts, order, level) && i < |ts| && t.level == level && Bal(t, order, order - 1)
    ensures BalKids(ts[i := t], order, level)
  {
  }

  lemma RotateBal(p: Tree, i: nat, m: nat, order: nat, min: int)
    requires order >= 2 && Bal(p, order, min) && p.level > 0 && i < |p.keys|
    requires var n := |p.kids[i].keys| + |p.kids[i + 1].keys|;
             m <= n && order - 1 <= m < 2 * order && order - 1 <= n - m < 2 * order
    ensures Bal(Rotate(p, i, m), order, min)
  {
    hide BalKids, Even, Lower, Upper;
    var l, r := p.kids[i], p.kids[i + 1];
    KidBal(p.kids, i, order, p.level - 1);
    KidBal(p.kids, i + 1, order, p.level - 1);
    JoinEven(l, p.keys[i], r, l.node, order);
    var j := Join(l, p.keys[i], r, l.node);
    CutEven(j, m, r.node, order);
    CutBal(j, m, r.node, order);
    BalUpdate(p.kids, i, Lower(j, m), order, p.level - 1);
    BalUpdate(p.kids[i := Lower(j, m)], i + 1, Upper(j, m, r.node), order, p.level - 1);
  }

  lemma MergeSep(p: Tree, i: nat, node: Node)
    requires Sep(p) && |p.kids| == |p.keys| + 1 && i < |p.keys| && node !in Nodes(p)
    ensures Sep(MergeKids(p, i, node))
    ensures Nodes(MergeKids(p, i, node)) == Nodes(p) - {p.kids[i].node, p.kids[i + 1].node} + {node}
  {
    hide SepKids, NodesOf;
    var q := MergeKids(p, i, node);
    var a, l, r, b := p.kids[..i], p.kids[i], p.kids[i + 1], p.kids[i + 2..];
    PairSplit(p.kids, i);
    PairNodes(a, l, r, b);
    PairSep(a, l, r, b);
    Assemble(a, q.kids[i], b);
  }

  lemma MergeBal(p: Tree, i: nat, node: Node, order: nat, min: int)
    requires order >= 2 && Bal(p, order, min) && p.level > 0 && i < |p.keys|
    requires |p.kids[i].keys| + |p.kids[i + 1].keys| + 1 < 2 * order
    ensures Bal(MergeKids(p, i, node), order, min - 1)
  {
    var l, r := p.kids[i], p.kids[i + 1];
    assert Bal(l, order, order - 1) && Bal(r, order, order - 1) && l.level == r.level;
    JoinEven(l, p.keys[i], r, node, order);
  }

  lemma SplitSep(p: Tree, i: nat, m: nat, node: Node)
    requires Sep(p) && |p.kids| == |p.keys| + 1 && i <= |p.keys| && node !in Nodes(p)
    requires m < |p.kids[i].keys| && Shaped(p.kids[i])
    ensures Sep(SplitKid(p, i, m, node))
    ensures Nodes(SplitKid(p, i, m, node)) == Nodes(p) + {node}
  {
    hide SepKids, NodesOf;
    var a, c, b := p.kids[..i], p.kids[i], p.kids[i + 1..];
    var l, r := Lower(c, m), Upper(c, m, node);
    assert p.kids == a + [c] + b;
    Assemble(a, c, b);
    SplitApart(a, c, l, r, b);
    PairNodes(a, l, r, b);
    PairSep(a, l, r, b);
  }

  lemma SplitApart(a: seq<Tree>, c: Tree, l: Tree, r: Tree, b: seq<Tree>)
    requires SepKids(a) && Sep(c) && SepKids(b) && NodesOf(a) !! Nodes(c) !! NodesOf(b)
    requires l.node == c.node && r.node !in NodesOf(a) + Nodes(c) + NodesOf(b)
    requires l.kids + r.kids == c.kids
    ensures PairApart(a, l.node, r.node, l.kids + r.kids, b)
  {
  }

  lemma SplitBal(p: Tree, i: nat, m: nat, node: Node, order: nat)
    requires order >= 2 && p.level > 0 && |p.kids| == |p.keys| + 1 && BalKids(p.kids, order, p.level - 1)
    requires i <= |p.keys| < 2 * order - 1 && |p.kids[i].keys| == 2 * order - 1 && m == order - 1
    ensures Bal(SplitKid(p, i, m, node), order, |p.keys| + 1)
  {
    var c := p.kids[i];
    assert Bal(c, order, order - 1);
    CutEven(c, m, node, order);
  }

  // Linking the rearranged trees from their changed nodes and untouched parts.

  lemma LinkConcat(a: seq<Tree>, b: seq<Tree>, order: nat)
    ensures LinkKids(a + b, order) <==> LinkKids(a, order) && LinkKids(b, order)
  {
    var s := a + b;
    if LinkKids(s, order) {
      forall j | 0 <= j < |a| ensures Link(a[j], order) { assert s[j] == a[j]; }
      forall j | 0 <= j < |b| ensures Link(b[j], order) { assert s[|a| + j] == b[j]; }
    }
  }

  lemma {:induction false} AllAllocated(t: Tree)
    ensures forall n :: n in Nodes(t) ==> allocated(n)
  {
    forall n | n in Nodes(t) ensures allocated(n) {
      if n != t.node {
        assert n in NodesOf(t.kids);
        var j :| 0 <= j < |t.kids| && n in Nodes(t.kids[j]);
        AllAllocated(t.kids[j]);
      }
    }
  }

  /** Around kid `i`: the parts of `p` that changes to `p.node` and the kid's node leave alone. */
  lemma KidApart(p: Tree, i: nat, order: nat)
    requires Link(p, order) && Sep(p) && i < |p.kids|
    ensures var a, c, b := p.kids[..i], p.kids[i], p.kids[i + 1..];
            && LinkKids(a, order) && Link(c, order) && LinkKids(b, order)
            && {p.node, c.node} !! NodesOf(a) && {p.node, c.node} !! NodesOf(b) && {p.node, c.node} !! NodesOf(c.kids)
            && p.node != c.node
            && NodesOf(a) <= Nodes(p) && NodesOf(b) <= Nodes(p) && NodesOf(c.kids) <= Nodes(p)
    ensures forall n :: n in Nodes(p) ==> allocated(n)
  {
    var a, c, b := p.kids[..i], p.kids[i], p.kids[i + 1..];
    assert p.kids == a + [c] + b;
    Assemble(a, c, b);
    AllAllocated(p);
  }

  lemma LinkPair(a: seq<Tree>, l: Tree, r: Tree, b: seq<Tree>, order: nat)
    requires LinkKids(a, order) && LinkKids(b, order) && Here(l, order) && Here(r, order)
    requires LinkKids(l.kids + r.kids, order)
    ensures LinkKids(a + [l, r] + b, order)
  {
    LinkConcat(l.kids, r.kids, order);
    assert Link(l, order) && Link(r, order);
  }

  /** The path above a node: a tree with one kid missing at each step. */
  datatype Ctx = Top | In(up: Ctx, node: Node, level: nat, keys: seq<Key>, left: seq<Tree>, right: seq<Tree>)

  ghost function Fill(c: Ctx, t: Tree): Tree
    requires c.In?
  {
    Tree(c.node, c.level, c.keys, c.left + [t] + c.right)
  }

  ghost function Plug(c: Ctx, t: Tree): Tree
    decreases c
  {
    if c.Top? then t else Plug(c.up, Fill(c, t))
  }

  /** One step down, from `t` to its kid `i`. */
  ghost function Down(c: Ctx, t: Tree, i: nat): Ctx
    requires i < |t.kids|
  {
    In(c, t.node, t.level, t.keys, t.kids[..i], t.kids[i + 1..])
  }

  ghost function CtxNodes(c: Ctx): set<Node> {
    if c.Top? then {} else {c.node} + NodesOf(c.left) + NodesOf(c.right) + CtxNodes(c.up)
  }

  ghost predicate LinkCtx(c: Ctx, hole: Node, order: nat)
    reads CtxNodes(c)`nrActive, CtxNodes(c)`level, CtxNodes(c)`leaf, CtxNodes(c)`keyVals, CtxNodes(c)`children
  {
    c.In? ==>
      && c.node.Is(c.level, false, c.keys, Ptrs(c.left) + [hole] + Ptrs(c.right), order)
      && LinkKids(c.left, order) && LinkKids(c.right, order)
      && LinkCtx(c.up, c.node, order)
  }

  ghost predicate SepCtx(c: Ctx) {
    c.In? ==>
      && SepKids(c.left) && SepKids(c.right)
      && {c.node} !! NodesOf(c.left) !! NodesOf(c.right) !! CtxNodes(c.up)
      && SepCtx(c.up)
  }

  ghost function MinKeys(c: Ctx, order: nat): int {
    if c.Top? then 1 else order - 1
  }

  ghost predicate BalCtx(c: Ctx, order: nat, level: nat)
    decreases c
  {
    c.In? ==>
      && c.level == level + 1
      && MinKeys(c.up, order) <= |c.keys| < 2 * order
      && |c.left| + |c.right| == |c.keys|
      && BalKids(c.left, order, level) && BalKids(c.right, order, level)
      && BalCtx(c.up, order, level + 1)
  }

  ghost function Before(c: Ctx, order: nat, level: nat): seq<Key>
    requires BalCtx(c, order, level)
    decreases c
  {
    if c.Top? then [] else Before(c.up, order, level + 1) + Pre(c.left, c.keys[..|c.left|])
  }

  ghost function After(c: Ctx, order: nat, level: nat): seq<Key>
    requires BalCtx(c, order, level)
    decreases c
  {
    if c.Top? then [] else Suf(c.keys[|c.left|..], c.right) + After(c.up, order, level + 1)
  }

  /** `t` sits in the hole of `c`, and the two together are a sound B-tree in memory. */
  ghost predicate Focus(c: Ctx, t: Tree, order: nat)
    reads CtxNodes(c)`nrActive, CtxNodes(c)`level, CtxNodes(c)`leaf, CtxNodes(c)`keyVals, CtxNodes(c)`children
    reads Nodes(t)`nrActive, Nodes(t)`level, Nodes(t)`leaf, Nodes(t)`keyVals, Nodes(t)`children
  {
    && LinkCtx(c, t.node, order) && Link(t, order)
    && SepCtx(c) && Sep(t) && CtxNodes(c) !! Nodes(t)
    && BalCtx(c, order, t.level) && Bal(t, order, MinKeys(c, order))
  }

  lemma FillInorder(c: Ctx, t: Tree)
    requires c.In? && |c.left| + |c.right| == |c.keys|
    ensures Inorder(Fill(c, t)) == Pre(c.left, c.keys[..|c.left|]) + Inorder(t) + Suf(c.keys[|c.left|..], c.right)
  {
    var f, i := Fill(c, t), |c.left|;
    InorderAt(f, i);
    assert f.kids[..i] == c.left && f.kids[i + 1..] == c.right && f.kids[i] == t;
  }

  lemma Regroup(a: seq<Key>, b: seq<Key>, m: seq<Key>, d: seq<Key>, e: seq<Key>)
    ensures (a + b) + m + (d + e) == a + (b + m + d) + e
  {
  }

  lemma {:induction false} PlugInorder(c: Ctx, t: Tree, order: nat)
    requires BalCtx(c, order, t.level)
    ensures Inorder(Plug(c, t)) == Before(c, order, t.level) + Inorder(t) + After(c, order, t.level)
    decreases c
  {
    if c.In? {
      FillInorder(c, t);
      PlugInorder(c.up, Fill(c, t), order);
      Regroup(Before(c.up, order, c.level), Pre(c.left, c.keys[..|c.left|]), Inorder(t),
              Suf(c.keys[|c.left|..], c.right), After(c.up, order, c.level));
    } else {
      assert Before(c, order, t.level) + Inorder(t) + After(c, order, t.level) == Inorder(t);
    }
  }

  lemma DownSep(c: Ctx, t: Tree, i: nat)
    requires SepCtx(c) && Sep(t) && CtxNodes(c) !! Nodes(t) && i < |t.kids|
    ensures SepCtx(Down(c, t, i)) && Sep(t.kids[i]) && CtxNodes(Down(c, t, i)) !! Nodes(t.kids[i])
    ensures CtxNodes(Down(c, t, i)) + Nodes(t.kids[i]) == CtxNodes(c) + Nodes(t)
  {
    var a, k, b := t.kids[..i], t.kids[i], t.kids[i + 1..];
    assert t.kids == a + [k] + b;
    Assemble(a, k, b);
  }

  lemma DownLink(c: Ctx, t: Tree, i: nat, order: nat)
    requires LinkCtx(c, t.node, order) && Link(t, order) && i < |t.kids|
    ensures LinkCtx(Down(c, t, i), t.kids[i].node, order) && Link(t.kids[i], order)
  {
    PtrsSplit(t.kids, i);
  }

  lemma DownBal(c: Ctx, t: Tree, i: nat, order: nat)
    requires BalCtx(c, order, t.level) && Bal(t, order, MinKeys(c, order)) && i < |t.kids|
    ensures t.kids[i].level + 1 == t.level
    ensures BalCtx(Down(c, t, i), order, t.kids[i].level) && Bal(t.kids[i], order, order - 1)
  {
    assert t.level > 0;
  }

  lemma FocusDown(c: Ctx, t: Tree, i: nat, order: nat)
    requires Focus(c, t, order) && i < |t.kids|
    ensures Focus(Down(c, t, i), t.kids[i], order)
    ensures CtxNodes(Down(c, t, i)) + Nodes(t.kids[i]) == CtxNodes(c) + Nodes(t)
    ensures Plug(Down(c, t, i), t.kids[i]) == Plug(c, t)
  {
    DownSep(c, t, i);
    DownLink(c, t, i, order);
    DownBal(c, t, i, order);
    assert t.kids == t.kids[..i] + [t.kids[i]] + t.kids[i + 1..];
  }

  lemma UpSep(c: Ctx, t: Tree)
    requires c.In? && SepCtx(c) && Sep(t) && CtxNodes(c) !! Nodes(t)
    ensures SepCtx(c.up) && Sep(Fill(c, t)) && CtxNodes(c.up) !! Nodes(Fill(c, t))
    ensures CtxNodes(c.up) + Nodes(Fill(c, t)) == CtxNodes(c) + Nodes(t)
  {
    Assemble(c.left, t, c.right);
  }

  lemma UpLink(c: Ctx, t: Tree, order: nat)
    requires c.In? && LinkCtx(c, t.node, order) && Link(t, order)
    ensures LinkCtx(c.up, c.node, order) && Link(Fill(c, t), order)
  {
    var f := Fill(c, t);
    assert f.kids[..|c.left|] == c.left && f.kids[|c.left| + 1..] == c.right;
    PtrsSplit(f.kids, |c.left|);
  }

  lemma FocusUp(c: Ctx, t: Tree, order: nat)
    requires c.In? && Focus(c, t, order)
    ensures Focus(c.up, Fill(c, t), order)
    ensures CtxNodes(c.up) + Nodes(Fill(c, t)) == CtxNodes(c) + Nodes(t)
  {
    UpSep(c, t);
    UpLink(c, t, order);
  }

  lemma {:induction false} FocusPlug(c: Ctx, t: Tree, order: nat)
    requires Focus(c, t, order)
    ensures var w := Plug(c, t);
            Focus(Top, w, order) && Nodes(w) == CtxNodes(c) + Nodes(t)
    decreases c
  {
    if c.In? {
      FocusUp(c, t, order);
      FocusPlug(c.up, Fill(c, t), order);
    }
  }
}
