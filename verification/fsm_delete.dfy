/** The steps of a single-pass deletion: going one level down while making sure that the
    node in focus can lose a key, and pushing the key down from an inner node. */
module FsmDelete {
  import opened FsmKeys
  import opened FsmTree
  import opened FsmNodes

  // Where a key can be.

  lemma KeysInInorder(t: Tree, i: nat)
    requires Shaped(t) && i < |t.keys|
    ensures t.keys[i] in Inorder(t)
  {
    InorderCut(t, i, t.node);
  }

  lemma PreLast(ts: seq<Tree>, ks: seq<Key>)
    requires |ts| == |ks| > 0
    ensures var s := Pre(ts, ks); s != [] && s[|s| - 1] == ks[|ks| - 1]
  {
  }

  /** If `k` lies between keys `i - 1` and `i`, it can only be in kid `i`. */
  lemma Locate(t: Tree, i: nat, k: Key)
    requires |t.kids| == |t.keys| + 1 && i <= |t.keys| && Sorted(Inorder(t))
    requires i > 0 ==> Lt(t.keys[i - 1], k)
    requires i < |t.keys| ==> Lt(k, t.keys[i])
    ensures AllBelow(Pre(t.kids[..i], t.keys[..i]), k) && AllAbove(k, Suf(t.keys[i..], t.kids[i + 1..]))
    ensures Sorted(Inorder(t.kids[i]))
    ensures Without(Inorder(t), k) ==
            Pre(t.kids[..i], t.keys[..i]) + Without(Inorder(t.kids[i]), k) + Suf(t.keys[i..], t.kids[i + 1..])
  {
    var a, m, b := Pre(t.kids[..i], t.keys[..i]), Inorder(t.kids[i]), Suf(t.keys[i..], t.kids[i + 1..]);
    InorderAt(t, i);
    if i > 0 {
      PreLast(t.kids[..i], t.keys[..i]);
    }
    if i < |t.keys| {
      SufStep(t.keys[i..], t.kids[i + 1..]);
    }
    assert i > 0 ==> a != [] && Lt(a[|a| - 1], k);
    assert i < |t.keys| ==> b != [] && Lt(k, b[0]);
    assert (i == 0 ==> a == []) && (i == |t.keys| ==> b == []);
    hide Inorder, Pre, Suf;
    LocateSeq(a, m, b, k);
  }

  lemma LocateSeq(a: seq<Key>, m: seq<Key>, b: seq<Key>, k: Key)
    requires Sorted(a + m + b) && (a != [] ==> Lt(a[|a| - 1], k)) && (b != [] ==> Lt(k, b[0]))
    ensures AllBelow(a, k) && AllAbove(k, b) && Sorted(m) && Without(a + m + b, k) == a + Without(m, k) + b
  {
    SortedParts(a + m, b);
    SortedParts(a, m);
    hide Without;
    WithoutMiddle(a, m, b, k);
  }

  // The state of a descent: a focus on the current node, and what deleting `k` below it would leave.

  ghost function Goal(c: Ctx, t: Tree, order: nat, k: Key): seq<Key>
    requires BalCtx(c, order, t.level)
  {
    Before(c, order, t.level) + Without(Inorder(t), k) + After(c, order, t.level)
  }

  ghost function RootOf(c: Ctx, node: Node): Node {
    if c.Top? then node else RootOf(c.up, c.node)
  }

  lemma DownGoal(c: Ctx, t: Tree, i: nat, order: nat, k: Key)
    requires BalCtx(c, order, t.level) && Bal(t, order, MinKeys(c, order)) && i < |t.kids| && Sorted(Inorder(t))
    requires i > 0 ==> Lt(t.keys[i - 1], k)
    requires i < |t.keys| ==> Lt(k, t.keys[i])
    ensures BalCtx(Down(c, t, i), order, t.kids[i].level)
    ensures Goal(Down(c, t, i), t.kids[i], order, k) == Goal(c, t, order, k)
    ensures Sorted(Inorder(t.kids[i]))
  {
    DownBal(c, t, i, order);
    Locate(t, i, k);
    Regroup(Before(c, order, t.level), Pre(t.kids[..i], t.keys[..i]), Without(Inorder(t.kids[i]), k),
            Suf(t.keys[i..], t.kids[i + 1..]), After(c, order, t.level));
  }

  lemma KidBelowKey(q: Tree, i: nat, x: Key)
    requires |q.kids| == |q.keys| + 1 && i < |q.keys| && Sorted(Inorder(q)) && x in Inorder(q.kids[i])
    ensures Lt(x, q.keys[i])
  {
    InorderAt(q, i);
    SortedParts(Pre(q.kids[..i], q.keys[..i]) + Inorder(q.kids[i]), Suf(q.keys[i..], q.kids[i + 1..]));
    assert Suf(q.keys[i..], q.kids[i + 1..])[0] == q.keys[i];
    assert x in Pre(q.kids[..i], q.keys[..i]) + Inorder(q.kids[i]);
  }

  lemma KidAboveKey(q: Tree, i: nat, x: Key)
    requires |q.kids| == |q.keys| + 1 && 0 < i <= |q.keys| && Sorted(Inorder(q)) && x in Inorder(q.kids[i])
    ensures Lt(q.keys[i - 1], x)
  {
    InorderAt(q, i);
    SortedParts(Pre(q.kids[..i], q.keys[..i]) + Inorder(q.kids[i]), Suf(q.keys[i..], q.kids[i + 1..]));
    SortedParts(Pre(q.kids[..i], q.keys[..i]), Inorder(q.kids[i]));
    PreLast(q.kids[..i], q.keys[..i]);
  }

  // Making room on the way down: a kid of minimal size borrows from or merges with a sibling.

  lemma BorrowBounds(p: Tree, i: nat, order: nat, k: Key)
    requires order >= 2 && Bal(p, order, 1) && p.level > 0 && i < |p.keys| && Sorted(Inorder(p))
    requires |p.kids[i].keys| == order - 1 && |p.kids[i + 1].keys| > order - 1
    requires i > 0 ==> Lt(p.keys[i - 1], k)
    requires Lt(k, p.keys[i])
    ensures var q := Rotate(p, i, order);
            && Bal(q, order, |p.keys|) && Inorder(q) == Inorder(p)
            && (i > 0 ==> Lt(q.keys[i - 1], k)) && Lt(k, q.keys[i])
  {
    hide Inorder, Sorted, BalKids;
    var q := Rotate(p, i, order);
    Alike(p, i, order);
    RotateBal(p, i, order, order, |p.keys|);
    RotateInorder(p, i, order);
    assert q.kids[i].keys[order - 1] == p.keys[i];
    KeysInInorder(q.kids[i], order - 1);
    KidBelowKey(q, i, p.keys[i]);
  }

  lemma Alike(p: Tree, i: nat, order: nat)
    requires order >= 2 && Bal(p, order, 1) && p.level > 0 && i < |p.keys|
    ensures |p.kids| == |p.keys| + 1 && |p.keys| < 2 * order
    ensures var l, r := p.kids[i], p.kids[i + 1];
            && Bal(l, order, order - 1) && Bal(r, order, order - 1) && l.level == r.level
            && Shaped(l) && Shaped(r) && (l.kids == [] <==> r.kids == [])
  {
  }

  lemma LendBounds(p: Tree, q: Tree, j: nat, i: nat, m: nat, order: nat, k: Key)
    requires order >= 2 && Bal(p, order, 1) && p.level > 0 && i == j + 1 <= |p.keys| && Sorted(Inorder(p))
    requires |p.kids[i].keys| == order - 1 < |p.kids[j].keys| && m == |p.kids[j].keys| - 1
    requires q == Rotate(p, j, m) && Lt(p.keys[j], k) && (i < |p.keys| ==> Lt(k, p.keys[i]))
    ensures Bal(q, order, |p.keys|) && Inorder(q) == Inorder(p)
    ensures |q.keys| == |p.keys| && Lt(q.keys[j], k) && (i < |p.keys| ==> Lt(k, q.keys[i]))
  {
    Alike(p, j, order);
    hide Inorder, Sorted, Lt, BalKids;
    RotateBal(p, j, m, order, |p.keys|);
    RotateInorder(p, j, m);
    LentKeys(p, i, m);
    hide Bal, Rotate;
    LendOrder(q, i, p.keys[j], k);
  }

  /** The separator comes down in front of kid `i`; the one behind the kid stays. */
  lemma LentKeys(p: Tree, i: nat, m: nat)
    requires |p.kids| == |p.keys| + 1 && 0 < i <= |p.keys| && m == |p.kids[i - 1].keys| - 1
    requires Shaped(p.kids[i - 1]) && Shaped(p.kids[i]) && (p.kids[i - 1].kids == [] <==> p.kids[i].kids == [])
    ensures var q := Rotate(p, i - 1, m);
            && |q.kids| == |q.keys| + 1 == |p.kids| && q.kids[i].keys != [] && q.kids[i].keys[0] == p.keys[i - 1]
            && Shaped(q.kids[i]) && (i < |p.keys| ==> q.keys[i] == p.keys[i])
  {
  }

  lemma LendOrder(q: Tree, i: nat, x: Key, k: Key)
    requires |q.kids| == |q.keys| + 1 && 0 < i < |q.kids| && Sorted(Inorder(q)) && Lt(x, k)
    requires Shaped(q.kids[i]) && q.kids[i].keys != [] && q.kids[i].keys[0] == x
    ensures Lt(q.keys[i - 1], k)
  {
    hide Inorder, Sorted;
    KeysInInorder(q.kids[i], 0);
    KidAboveKey(q, i, x);
  }

  /** Key `k` lies strictly between keys `j - 1` and `j + 1` of `p`. */
  ghost predicate Around(p: Tree, j: nat, k: Key) {
    && p.level > 0 && j < |p.keys|
    && (j > 0 ==> Lt(p.keys[j - 1], k))
    && (j + 1 < |p.keys| ==> Lt(k, p.keys[j + 1]))
  }

  lemma MergeBounds(p: Tree, q: Tree, j: nat, node: Node, order: nat, k: Key)
    requires order >= 2 && Bal(p, order, 1) && Around(p, j, k)
    requires |p.kids[j].keys| == |p.kids[j + 1].keys| == order - 1
    requires q == MergeKids(p, j, node)
    ensures Bal(q, order, |p.keys| - 1) && Inorder(q) == Inorder(p)
    ensures (j > 0 ==> Lt(q.keys[j - 1], k)) && (j < |q.keys| ==> Lt(k, q.keys[j]))
  {
    assert Bal(p.kids[j], order, order - 1) && Bal(p.kids[j + 1], order, order - 1);
    MergeBal(p, j, node, order, |p.keys|);
    MergeKidsInorder(p, j, node);
  }

  /** Neighbouring keys of a node are in order. */
  lemma KeyOrder(p: Tree, i: nat)
    requires |p.kids| == |p.keys| + 1 && i + 1 < |p.keys| && Sorted(Inorder(p))
    ensures Lt(p.keys[i], p.keys[i + 1])
  {
    InorderAt(p, i + 1);
    PreLast(p.kids[..i + 1], p.keys[..i + 1]);
    var a, m, b := Pre(p.kids[..i + 1], p.keys[..i + 1]), Inorder(p.kids[i + 1]), Suf(p.keys[i + 1..], p.kids[i + 2..]);
    SortedParts(a + m, b);
    assert (a + m)[|a| - 1] == a[|a| - 1] == p.keys[i];
    assert b[0] == p.keys[i + 1];
  }

  lemma {:induction false} CtxAllocated(c: Ctx)
    ensures forall n :: n in CtxNodes(c) ==> allocated(n)
  {
    if c.In? {
      CtxAllocated(c.up);
      KidsAllocated(c.left);
      KidsAllocated(c.right);
    }
  }

  lemma KidsAllocated(ts: seq<Tree>)
    ensures forall n :: n in NodesOf(ts) ==> allocated(n)
  {
    forall n | n in NodesOf(ts) ensures allocated(n) {
      var j :| 0 <= j < |ts| && n in Nodes(ts[j]);
      AllAllocated(ts[j]);
    }
  }

  /** The loop state of a descent that looks for `k`: the node in focus can lose a key. */
  ghost predicate At(c: Ctx, t: Tree, order: nat)
    reads CtxNodes(c), Nodes(t)
  {
    Focus(c, t, order) && (c.In? ==> |t.keys| >= order) && Sorted(Inorder(t))
  }

  /** One step of the descent: one level down, nothing but `k` at stake. */
  ghost predicate Stepped(c: Ctx, p: Tree, c': Ctx, t': Tree, order: nat, k: Key)
    requires BalCtx(c, order, p.level)
    reads CtxNodes(c'), Nodes(t')
  {
    At(c', t', order) && t'.level < p.level && Goal(c', t', order, k) == Goal(c, p, order, k)
  }

  lemma StepDown(c: Ctx, p: Tree, q: Tree, i: nat, order: nat, k: Key)
    requires order >= 2 && BalCtx(c, order, p.level) && Focus(c, q, order) && q.level == p.level > 0
    requires Sorted(Inorder(q)) && Inorder(q) == Inorder(p) && i < |q.kids| && |q.kids[i].keys| >= order
    requires i > 0 ==> Lt(q.keys[i - 1], k)
    requires i < |q.keys| ==> Lt(k, q.keys[i])
    ensures Stepped(c, p, Down(c, q, i), q.kids[i], order, k)
    ensures CtxNodes(Down(c, q, i)) + Nodes(q.kids[i]) == CtxNodes(c) + Nodes(q)
  {
    FocusDown(c, q, i, order);
    DownGoal(c, q, i, order, k);
  }

  /** Kid `i` already has a key to spare. */
  lemma StepPlain(c: Ctx, p: Tree, i: nat, order: nat, k: Key)
    requires order >= 2 && At(c, p, order) && p.level > 0 && i < |p.kids| && |p.kids[i].keys| >= order
    requires i > 0 ==> Lt(p.keys[i - 1], k)
    requires i < |p.keys| ==> Lt(k, p.keys[i])
    ensures Stepped(c, p, Down(c, p, i), p.kids[i], order, k)
    ensures CtxNodes(Down(c, p, i)) + Nodes(p.kids[i]) == CtxNodes(c) + Nodes(p)
  {
    StepDown(c, p, p, i, order, k);
  }

  /** Two neighbouring kids of a balanced node look alike. */
  lemma Siblings(p: Tree, i: nat, order: nat)
    requires Bal(p, order, 0) && i + 1 < |p.kids|
    ensures |p.kids| == |p.keys| + 1
    ensures var l, r := p.kids[i], p.kids[i + 1];
            && l.level == r.level && Shaped(l) && Shaped(r) && (l.kids == [] <==> r.kids == [])
            && |l.keys| >= order - 1 && |r.keys| >= order - 1 && |l.keys| < 2 * order && |r.keys| < 2 * order
            && l.node in Nodes(p) && r.node in Nodes(p)
  {
    var l, r := p.kids[i], p.kids[i + 1];
    assert p.level > 0 && Bal(l, order, order - 1) && Bal(r, order, order - 1);
    assert l.node in Nodes(l) && r.node in Nodes(r);
  }

  /** The part of `At` that does not depend on memory. */
  ghost predicate Sound(c: Ctx, t: Tree, order: nat) {
    && order >= 2 && SepCtx(c) && Sep(t) && CtxNodes(c) !! Nodes(t)
    && BalCtx(c, order, t.level) && Bal(t, order, MinKeys(c, order))
    && (c.In? ==> |t.keys| >= order) && Sorted(Inorder(t))
  }

  /** Key `k` lies between keys `i - 1` and `i` of `p`. */
  ghost predicate Between(p: Tree, i: nat, k: Key) {
    && p.level > 0 && i <= |p.keys|
    && (i > 0 ==> Lt(p.keys[i - 1], k))
    && (i < |p.keys| ==> Lt(k, p.keys[i]))
  }

  lemma BorrowStep(c: Ctx, p: Tree, q: Tree, i: nat, order: nat, k: Key)
    requires Sound(c, p, order) && Between(p, i, k) && i < |p.keys|
    requires |p.kids[i].keys| == order - 1 < |p.kids[i + 1].keys|
    requires q == Rotate(p, i, order) && LinkCtx(c, p.node, order) && Link(q, order)
    ensures Stepped(c, p, Down(c, q, i), q.kids[i], order, k) && q.kids[i].node == p.kids[i].node
    ensures CtxNodes(Down(c, q, i)) + Nodes(q.kids[i]) == CtxNodes(c) + Nodes(p)
  {
    Siblings(p, i, order);
    RotateSep(p, i, order);
    BorrowBounds(p, i, order, k);
    StepDown(c, p, q, i, order, k);
  }

  method StepBorrow(parent: Node, i: nat, k: Key, order: nat, ghost c: Ctx, ghost p: Tree)
      returns (ghost c': Ctx, ghost t': Tree)
    requires p.node == parent && Link(p, order) && LinkCtx(c, parent, order)
    requires Sound(c, p, order) && Between(p, i, k) && i < |p.keys|
    requires |p.kids[i].keys| == order - 1 && |p.kids[i + 1].keys| > order - 1
    modifies Nodes(p)
    ensures Stepped(c, p, c', t', order, k) && t'.node == p.kids[i].node && c'.In? && c'.up == c && c'.node == parent
    ensures CtxNodes(c') + Nodes(t') == CtxNodes(c) + Nodes(p)
  {
    CtxAllocated(c);
    Siblings(p, i, order);
    MoveKey(parent, i, LEFT, order, p, i);
    ghost var q := Rotate(p, i, order);
    assert LinkCtx(c, p.node, order);
    BorrowStep(c, p, q, i, order, k);
    c', t' := Down(c, q, i), q.kids[i];
  }

  lemma LendFacts(p: Tree, q: Tree, j: nat, i: nat, m: nat, order: nat)
    requires order >= 2 && Bal(p, order, 1) && Sep(p) && i == j + 1 < |p.kids|
    requires |p.kids[i].keys| == order - 1 < |p.kids[j].keys| && m == |p.kids[j].keys| - 1
    requires q == Rotate(p, j, m)
    ensures Sep(q) && Nodes(q) == Nodes(p) && q.level == p.level && q.node == p.node
    ensures i < |q.kids| && |q.kids[i].keys| == order && q.kids[i].node == p.kids[i].node
    ensures |q.keys| == |p.keys| && (i < |q.keys| ==> q.keys[i] == p.keys[i])
  {
    Siblings(p, j, order);
    RotateSep(p, j, m);
  }

  lemma LendStep(c: Ctx, p: Tree, q: Tree, j: nat, i: nat, m: nat, order: nat, k: Key)
    requires Sound(c, p, order) && Between(p, i, k) && i == j + 1
    requires |p.kids[i].keys| == order - 1 < |p.kids[j].keys| && m == |p.kids[j].keys| - 1
    requires q == Rotate(p, j, m) && LinkCtx(c, p.node, order) && Link(q, order)
    ensures i < |q.kids| && q.node == p.node && Stepped(c, p, Down(c, q, i), q.kids[i], order, k)
            && q.kids[i].node == p.kids[i].node
    ensures CtxNodes(Down(c, q, i)) + Nodes(q.kids[i]) == CtxNodes(c) + Nodes(p)
  {
    hide Stepped, Inorder, Goal, Rotate, Lt, SepKids, NodesOf, LinkKids;
    LendFacts(p, q, j, i, m, order);
    LendBounds(p, q, j, i, m, order, k);
    hide Sorted, Sep, Link;
    StepDown(c, p, q, i, order, k);
  }

  method StepLend(parent: Node, i: nat, k: Key, order: nat, ghost c: Ctx, ghost p: Tree)
      returns (ghost c': Ctx, ghost t': Tree)
    requires p.node == parent && Link(p, order) && LinkCtx(c, parent, order)
    requires Sound(c, p, order) && Between(p, i, k) && 0 < i
    requires |p.kids[i].keys| == order - 1 && |p.kids[i - 1].keys| > order - 1
    modifies Nodes(p)
    ensures Stepped(c, p, c', t', order, k) && t'.node == p.kids[i].node && c'.In? && c'.up == c && c'.node == parent
    ensures CtxNodes(c') + Nodes(t') == CtxNodes(c) + Nodes(p)
  {
    hide Rotate, Stepped, Inorder, Goal;
    CtxAllocated(c);
    Siblings(p, i - 1, order);
    MoveKey(parent, i, RIGHT, order, p, i - 1);
    ghost var m := |p.kids[i - 1].keys| - 1;
    ghost var q := Rotate(p, i - 1, m);
    assert LinkCtx(c, p.node, order);
    LendStep(c, p, q, i - 1, i, m, order, k);
    c', t' := Down(c, q, i), q.kids[i];
  }

  lemma MergeShape(p: Tree, j: nat, node: Node)
    requires |p.kids| == |p.keys| + 1 && j < |p.keys|
    ensures var q := MergeKids(p, j, node);
            && q.node == p.node && q.level == p.level && |q.keys| == |p.keys| - 1 && |q.kids| == |p.kids| - 1
            && q.kids[j].node == node && q.kids[j].level == p.kids[j].level
            && |q.kids[j].keys| == |p.kids[j].keys| + 1 + |p.kids[j + 1].keys|
  {
  }

  lemma MergeStep(c: Ctx, p: Tree, q: Tree, j: nat, node: Node, order: nat, k: Key)
    requires Sound(c, p, order) && Around(p, j, k)
    requires |p.kids[j].keys| == |p.kids[j + 1].keys| == order - 1
    requires node !in Nodes(p) && node !in CtxNodes(c)
    requires q == MergeKids(p, j, node) && LinkCtx(c, p.node, order) && Link(q, order)
    ensures q.kids[j].node == node && (q.keys == [] ==> c.Top?)
    ensures var c' := if q.keys == [] then c else Down(c, q, j);
            && Stepped(c, p, c', q.kids[j], order, k)
            && CtxNodes(c') + Nodes(q.kids[j]) <= CtxNodes(c) + Nodes(p) + {node}
  {
    hide Inorder, Sorted, Lt, NodesOf, SepKids, LinkKids, Goal, Stepped;
    Siblings(p, j, order);
    MergeSep(p, j, node);
    MergeBounds(p, q, j, node, order, k);
    MergeShape(p, j, node);
    hide MergeKids;
    if |q.keys| == 0 {
      OnlyKid(c, q, order);
      OnlyStep(c, p, q, order, k);
    } else {
      StepDown(c, p, q, j, order, k);
    }
  }

  lemma OnlyStep(c: Ctx, p: Tree, q: Tree, order: nat, k: Key)
    requires order >= 2 && BalCtx(c, order, p.level) && c.Top? && |q.kids| == 1 && Focus(c, q.kids[0], order)
             && q.kids[0].level < p.level
    requires Inorder(q.kids[0]) == Inorder(p) && Sorted(Inorder(p))
    ensures Stepped(c, p, c, q.kids[0], order, k)
  {
  }

  /** A root with no keys left stands for its only kid. */
  lemma OnlyKid(c: Ctx, q: Tree, order: nat)
    requires order >= 2 && q.keys == [] && |q.kids| == 1 && q.level > 0 && BalKids(q.kids, order, q.level - 1)
    requires Link(q, order) && Sep(q) && c.Top?
    ensures Focus(c, q.kids[0], order) && Inorder(q.kids[0]) == Inorder(q) && Nodes(q.kids[0]) <= Nodes(q)
  {
    var t := q.kids[0];
    assert Bal(t, order, order - 1) && Link(t, order) && Sep(t);
    InorderAt(q, 0);
  }

  method StepMerge(parent: Node, j: nat, k: Key, order: nat, ghost c: Ctx, ghost p: Tree)
      returns (node: Node, ghost c': Ctx, ghost t': Tree)
    requires p.node == parent && Link(p, order) && LinkCtx(c, parent, order)
    requires Sound(c, p, order) && Around(p, j, k)
    requires |p.kids[j].keys| == |p.kids[j + 1].keys| == order - 1
    modifies parent
    ensures Stepped(c, p, c', t', order, k) && node == t'.node && fresh(node) && node.next == null
    ensures CtxNodes(c') + Nodes(t') <= CtxNodes(c) + Nodes(p) + {node}
    ensures if parent.nrActive == 0 then c' == c && c.Top? else c'.In? && c'.up == c && c'.node == parent
  {
    hide Inorder, Goal, Stepped, SepKids, BalKids, Lt, Sorted;
    CtxAllocated(c);
    AllAllocated(p);
    Siblings(p, j, order);
    node := MergeAt(parent, j, order, p);
    ghost var q := MergeKids(p, j, node);
    assert LinkCtx(c, p.node, order);
    MergeStep(c, p, q, j, node, order, k);
    c', t' := if q.keys == [] then c else Down(c, q, j), q.kids[j];
  }

  lemma BetweenAround(p: Tree, i: nat, k: Key)
    requires |p.kids| == |p.keys| + 1 && Sorted(Inorder(p)) && Between(p, i, k) && |p.keys| > 0
    ensures Around(p, if i == |p.keys| then i - 1 else i, k)
  {
    if i == |p.keys| {
      if i > 1 { KeyOrder(p, i - 2); }
    } else if i + 1 < |p.keys| {
      KeyOrder(p, i);
    }
  }

  lemma AtKeyAround(p: Tree, i: nat)
    requires |p.kids| == |p.keys| + 1 && Sorted(Inorder(p)) && p.level > 0 && i < |p.keys|
    ensures Around(p, i, p.keys[i])
  {
    if i > 0 { KeyOrder(p, i - 1); }
    if i + 1 < |p.keys| { KeyOrder(p, i); }
  }

  // Deleting from an inner node: the key trades places with its neighbour in a leaf below. The order of
  // the whole tree is broken until that leaf is reached, but the subtree in focus stays sorted.

  lemma {:induction false} PlugShape(c: Ctx, a: Tree, b: Tree)
    requires a.node == b.node && a.level == b.level && |a.keys| == |b.keys|
    ensures Plug(c, a).node == Plug(c, b).node == RootOf(c, a.node)
    ensures Plug(c, a).level == Plug(c, b).level && |Plug(c, a).keys| == |Plug(c, b).keys|
    decreases c
  {
    if c.In? {
      PlugShape(c.up, Fill(c, a), Fill(c, b));
    }
  }

  lemma TopEmpty(t: Tree, order: nat)
    ensures Plug(Top, t) == t && Before(Top, order, t.level) == [] == After(Top, order, t.level) && CtxNodes(Top) == {}
  {
  }

  lemma NothingAfter(c: Ctx, l: Tree, order: nat)
    requires BalCtx(c, order, l.level) && Bal(l, order, MinKeys(c, order)) && l.level > 0
             && After(c, order, l.level) == []
    ensures var n := |l.keys|;
            BalCtx(Down(c, l, n), order, l.kids[n].level) && After(Down(c, l, n), order, l.kids[n].level) == []
  {
    var n := |l.keys|;
    DownBal(c, l, n, order);
    assert Suf(l.keys[n..], l.kids[n + 1..]) == [];
  }

  lemma NothingBefore(c: Ctx, l: Tree, order: nat)
    requires BalCtx(c, order, l.level) && Bal(l, order, MinKeys(c, order)) && l.level > 0
             && Before(c, order, l.level) == []
    ensures BalCtx(Down(c, l, 0), order, l.kids[0].level) && Before(Down(c, l, 0), order, l.kids[0].level) == []
  {
    DownBal(c, l, 0, order);
    assert Pre(l.kids[..0], l.keys[..0]) == [];
  }

  method GetMaxKeyPos(nd: Node, order: nat, ghost t: Tree) returns (leaf: Node, ghost c: Ctx, ghost l: Tree)
    requires Focus(Top, t, order) && t.node == nd
    ensures Focus(c, l, order) && l.node == leaf && leaf.leaf && l.level == 0 && Plug(c, l) == t
    ensures CtxNodes(c) + Nodes(l) == Nodes(t) && After(c, order, 0) == []
  {
    hide Inorder, Pre, Suf, SepKids, LinkKids, Plug, NodesOf, Before, After;
    leaf := nd;
    c, l := Top, t;
    TopEmpty(t, order);
    while !leaf.leaf
      invariant Focus(c, l, order) && l.node == leaf && Plug(c, l) == t
      invariant CtxNodes(c) + Nodes(l) == Nodes(t) && After(c, order, l.level) == []
      decreases l.level
    {
      ghost var n := |l.keys|;
      assert leaf.children[..|l.kids|] == Ptrs(l.kids);
      leaf := leaf.children[leaf.nrActive];
      assert leaf == Ptrs(l.kids)[n];
      FocusDown(c, l, n, order);
      NothingAfter(c, l, order);
      c, l := Down(c, l, n), l.kids[n];
    }
  }

  method GetMinKeyPos(nd: Node, order: nat, ghost t: Tree) returns (leaf: Node, ghost c: Ctx, ghost l: Tree)
    requires Focus(Top, t, order) && t.node == nd
    ensures Focus(c, l, order) && l.node == leaf && leaf.leaf && l.level == 0 && Plug(c, l) == t
    ensures CtxNodes(c) + Nodes(l) == Nodes(t) && Before(c, order, 0) == []
  {
    hide Inorder, Pre, Suf, SepKids, LinkKids, Plug, NodesOf, Before, After;
    leaf := nd;
    c, l := Top, t;
    TopEmpty(t, order);
    while !leaf.leaf
      invariant Focus(c, l, order) && l.node == leaf && Plug(c, l) == t
      invariant CtxNodes(c) + Nodes(l) == Nodes(t) && Before(c, order, l.level) == []
      decreases l.level
    {
      assert leaf.children[..|l.kids|] == Ptrs(l.kids);
      leaf := leaf.children[0];
      assert leaf == Ptrs(l.kids)[0];
      FocusDown(c, l, 0, order);
      NothingBefore(c, l, order);
      c, l := Down(c, l, 0), l.kids[0];
    }
  }

  lemma SwapMaxSeq(a: seq<Key>, s: seq<Key>, x: Key, k: Key, r: seq<Key>)
    requires Sorted(a + (s + [x]) + [k] + r)
    ensures Sorted(s + [k])
    ensures a + Without(s + [k], k) + ([x] + r) == Without(a + (s + [x]) + [k] + r, k)
  {
    hide Without, Sorted;
    var w := a + (s + [x]);
    SortedAround(w, k, r);
    WithoutOne(w, k, r);
    ReplaceLast(a, s, x, k);
    assert a + s + ([x] + r) == w + r;
  }

  lemma ReplaceFirst(k: Key, x: Key, s: seq<Key>, r: seq<Key>)
    requires Sorted(([x] + s) + r) && AllAbove(k, ([x] + s) + r)
    ensures Sorted([k] + s) && Without([k] + s, k) == s
  {
    var w := ([x] + s) + r;
    forall i | 0 <= i < |s| ensures Lt(k, s[i]) {
      assert w[1 + i] == s[i];
    }
    SortedParts([x] + s, r);
    SortedParts([x], s);
    SortedCons(k, s);
    assert ([k] + s)[1..] == s;
  }

  lemma ReplaceLast(a: seq<Key>, s: seq<Key>, x: Key, k: Key)
    requires Sorted(a + (s + [x])) && AllBelow(a + (s + [x]), k)
    ensures Sorted(s + [k]) && Without(s + [k], k) == s
  {
    var w := a + (s + [x]);
    forall i | 0 <= i < |s| ensures Lt(s[i], k) {
      assert w[|a| + i] == s[i];
    }
    SortedParts(a, s + [x]);
    SortedParts(s, [x]);
    assert forall i, j :: 0 <= i < j < |s + [k]| ==> Lt((s + [k])[i], (s + [k])[j]);
    hide Without;
    WithoutOne(s, k, []);
    assert s + [k] + [] == s + [k] && s + [] == s;
  }

  lemma SwapMinSeq(l: seq<Key>, k: Key, x: Key, s: seq<Key>, r: seq<Key>)
    requires Sorted(l + [k] + (([x] + s) + r))
    ensures Sorted([k] + s)
    ensures (l + [x]) + Without([k] + s, k) + r == Without(l + [k] + (([x] + s) + r), k)
  {
    hide Without, Sorted;
    var w := ([x] + s) + r;
    SortedAround(l, k, w);
    WithoutOne(l, k, w);
    ReplaceFirst(k, x, s, r);
    assert (l + [x]) + s + r == l + w;
  }

  lemma SwapMaxGoal(t: Tree, i: nat, s: seq<Key>, x: Key)
    requires |t.kids| == |t.keys| + 1 && i < |t.keys| && Sorted(Inorder(t)) && Inorder(t.kids[i]) == s + [x]
    ensures Sorted(s + [t.keys[i]])
    ensures Pre(t.kids[..i], t.keys[..i]) + Without(s + [t.keys[i]], t.keys[i])
            + Suf(t.keys[i := x][i..], t.kids[i + 1..]) == Without(Inorder(t), t.keys[i])
  {
    var k := t.keys[i];
    var a, r := Pre(t.kids[..i], t.keys[..i]), Inorder(t.kids[i + 1]) + Suf(t.keys[i + 1..], t.kids[i + 2..]);
    assert t.keys[i := x][i..][1..] == t.keys[i + 1..] && t.kids[i + 1..][1..] == t.kids[i + 2..];
    SufStep(t.keys[i := x][i..], t.kids[i + 1..]);
    InorderPair(t, i);
    hide Inorder, Pre, Suf, Without, Sorted;
    assert Inorder(t) == a + (s + [x]) + [k] + r;
    assert Suf(t.keys[i := x][i..], t.kids[i + 1..]) == [x] + r;
    SwapMaxSeq(a, s, x, k, r);
  }

  lemma SwapMinGoal(t: Tree, i: nat, x: Key, s: seq<Key>)
    requires |t.kids| == |t.keys| + 1 && i < |t.keys| && Sorted(Inorder(t)) && Inorder(t.kids[i + 1]) == [x] + s
    ensures Sorted([t.keys[i]] + s)
    ensures Pre(t.kids[..i + 1], t.keys[i := x][..i + 1]) + Without([t.keys[i]] + s, t.keys[i])
            + Suf(t.keys[i + 1..], t.kids[i + 2..]) == Without(Inorder(t), t.keys[i])
  {
    var k := t.keys[i];
    var l, r := Pre(t.kids[..i], t.keys[..i]) + Inorder(t.kids[i]), Suf(t.keys[i + 1..], t.kids[i + 2..]);
    assert t.kids[..i + 1][..i] == t.kids[..i] && t.keys[i := x][..i + 1][..i] == t.keys[..i];
    PreStep(t.kids[..i + 1], t.keys[i := x][..i + 1]);
    InorderPair(t, i);
    hide Inorder, Pre, Suf, Without, Sorted;
    assert Inorder(t) == l + [k] + (([x] + s) + r);
    assert Pre(t.kids[..i + 1], t.keys[i := x][..i + 1]) == l + [x];
    SwapMinSeq(l, k, x, s, r);
  }

  /** The focus on kid `i` of `t` after key `i` of `t` was replaced by `x` and the kid by `kid`. */
  ghost function Swapped(c: Ctx, t: Tree, i: nat, h: nat, x: Key): Ctx
    requires i < |t.keys| && h < |t.kids|
  {
    In(c, t.node, t.level, t.keys[i := x], t.kids[..h], t.kids[h + 1..])
  }

  lemma SwappedFocus(c: Ctx, t: Tree, i: nat, h: nat, x: Key, kid: Tree, order: nat)
    requires Sound(c, t, order) && t.level > 0 && i < |t.keys| && h < |t.kids|
    requires Focus(Top, kid, order) && Nodes(kid) == Nodes(t.kids[h]) && kid.level == t.kids[h].level
    requires |kid.keys| >= order - 1 && kid.node == t.kids[h].node
    requires LinkCtx(c, t.node, order) && LinkKids(t.kids[..h], order) && LinkKids(t.kids[h + 1..], order)
    requires t.node.Is(t.level, false, t.keys[i := x], Ptrs(t.kids), order)
    ensures Focus(Swapped(c, t, i, h, x), kid, order)
    ensures CtxNodes(Swapped(c, t, i, h, x)) + Nodes(kid) == CtxNodes(c) + Nodes(t)
  {
    DownSep(c, t, h);
    DownBal(c, t, h, order);
    PtrsSplit(t.kids, h);
  }

  lemma SwappedGoal(c: Ctx, t: Tree, i: nat, h: nat, x: Key, kid: Tree, order: nat, k: Key)
    requires i < |t.keys| && h <= |t.keys| && |t.kids| == |t.keys| + 1 && kid.level + 1 == t.level
    requires BalCtx(c, order, t.level) && BalCtx(Swapped(c, t, i, h, x), order, kid.level)
    ensures Goal(Swapped(c, t, i, h, x), kid, order, k) ==
            Before(c, order, t.level)
            + (Pre(t.kids[..h], t.keys[i := x][..h]) + Without(Inorder(kid), k)
               + Suf(t.keys[i := x][h..], t.kids[h + 1..]))
            + After(c, order, t.level)
  {
    Regroup(Before(c, order, t.level), Pre(t.kids[..h], t.keys[i := x][..h]), Without(Inorder(kid), k),
            Suf(t.keys[i := x][h..], t.kids[h + 1..]), After(c, order, t.level));
  }

  lemma SwapMaxStep(c: Ctx, t: Tree, i: nat, s: seq<Key>, x: Key, kid: Tree, order: nat)
    requires Sound(c, t, order) && t.level > 0 && i < |t.keys| && kid.level + 1 == t.level
    requires BalCtx(Swapped(c, t, i, i, x), order, kid.level)
    requires Inorder(t.kids[i]) == s + [x] && Inorder(kid) == s + [t.keys[i]]
    ensures Goal(Swapped(c, t, i, i, x), kid, order, t.keys[i]) == Goal(c, t, order, t.keys[i])
    ensures Sorted(Inorder(kid))
  {
    SwapMaxGoal(t, i, s, x);
    assert t.keys[i := x][..i] == t.keys[..i];
    SwappedGoal(c, t, i, i, x, kid, order, t.keys[i]);
  }

  lemma SwapMinStep(c: Ctx, t: Tree, i: nat, x: Key, s: seq<Key>, kid: Tree, order: nat)
    requires Sound(c, t, order) && t.level > 0 && i < |t.keys| && kid.level + 1 == t.level
    requires BalCtx(Swapped(c, t, i, i + 1, x), order, kid.level)
    requires Inorder(t.kids[i + 1]) == [x] + s && Inorder(kid) == [t.keys[i]] + s
    ensures Goal(Swapped(c, t, i, i + 1, x), kid, order, t.keys[i]) == Goal(c, t, order, t.keys[i])
    ensures Sorted(Inorder(kid))
  {
    SwapMinGoal(t, i, x, s);
    assert t.keys[i := x][i + 1..] == t.keys[i + 1..];
    SwappedGoal(c, t, i, i + 1, x, kid, order, t.keys[i]);
  }

  lemma SwapDone(c: Ctx, t: Tree, i: nat, h: nat, x: Key, s: seq<Key>, kid: Tree, order: nat)
    requires Sound(c, t, order) && t.level > 0 && i < |t.keys| && (h == i || h == i + 1)
    requires Focus(Top, kid, order) && Nodes(kid) == Nodes(t.kids[h]) && kid.level + 1 == t.level
    requires |kid.keys| >= order && kid.node == t.kids[h].node
    requires LinkCtx(c, t.node, order) && LinkKids(t.kids[..h], order) && LinkKids(t.kids[h + 1..], order)
    requires t.node.Is(t.level, false, t.keys[i := x], Ptrs(t.kids), order)
    requires h == i ==> Inorder(t.kids[h]) == s + [x] && Inorder(kid) == s + [t.keys[i]]
    requires h == i + 1 ==> Inorder(t.kids[h]) == [x] + s && Inorder(kid) == [t.keys[i]] + s
    ensures Stepped(c, t, Swapped(c, t, i, h, x), kid, order, t.keys[i])
    ensures CtxNodes(Swapped(c, t, i, h, x)) + Nodes(kid) == CtxNodes(c) + Nodes(t)
  {
    hide Inorder, Goal, BalKids, LinkKids, NodesOf;
    DownBal(c, t, h, order);
    SwappedFocus(c, t, i, h, x, kid, order);
    if h == i {
      SwapMaxStep(c, t, i, s, x, kid, order);
    } else {
      SwapMinStep(c, t, i, x, s, kid, order);
    }
  }

  /** Replaces one key of the leaf in focus. */
  lemma LeafKey(c: Ctx, l: Tree, l': Tree, t: Tree, pos: nat, k: Key, order: nat)
    requires BalCtx(c, order, l.level) && l.kids == [] && pos < |l.keys| && l' == l.(keys := l.keys[pos := k])
    requires Focus(c, l', order) && Plug(c, l) == t && CtxNodes(c) + Nodes(l) == Nodes(t)
    ensures var t' := Plug(c, l');
            && Focus(Top, t', order) && Nodes(t') == Nodes(t) && t'.node == t.node && t'.level == t.level
            && |t'.keys| == |t.keys|
            && Inorder(t) == Before(c, order, l.level) + l.keys + After(c, order, l.level)
            && Inorder(t') == Before(c, order, l.level) + l.keys[pos := k] + After(c, order, l.level)
  {
    FocusPlug(c, l', order);
    PlugShape(c, l, l');
    PlugInorder(c, l, order);
    PlugInorder(c, l', order);
  }

  lemma SplitLast(b: seq<Key>, ks: seq<Key>, k: Key)
    requires |ks| > 0
    ensures var n := |ks| - 1;
            b + ks + [] == (b + ks[..n]) + [ks[n]] && b + ks[n := k] + [] == (b + ks[..n]) + [k]
  {
  }

  lemma SplitFirst(ks: seq<Key>, k: Key, a: seq<Key>)
    requires |ks| > 0
    ensures [] + ks + a == [ks[0]] + (ks[1..] + a) && [] + ks[0 := k] + a == [k] + (ks[1..] + a)
  {
  }

  method SetLeafKey(leaf: Node, pos: nat, k: Key, order: nat, ghost c: Ctx, ghost l: Tree)
    requires Focus(c, l, order) && l.node == leaf && l.kids == [] && pos < |l.keys|
    modifies leaf`keyVals
    ensures Focus(c, l.(keys := l.keys[pos := k]), order)
  {
    leaf.keyVals := leaf.keyVals[pos := k];
    assert LinkCtx(c, leaf, order);
  }

  /** Puts `k` in the place of the greatest key below `child`, and returns that key. */
  method ReplaceMax(child: Node, k: Key, order: nat, ghost kid: Tree)
      returns (x: Key, ghost t': Tree, ghost s: seq<Key>)
    requires order >= 2 && Focus(Top, kid, order) && kid.node == child
    modifies Nodes(kid)
    ensures Focus(Top, t', order) && Nodes(t') == Nodes(kid) && t'.node == child && t'.level == kid.level
    ensures |t'.keys| == |kid.keys| && Inorder(kid) == s + [x] && Inorder(t') == s + [k]
  {
    var sub;
    ghost var cl, l;
    sub, cl, l := GetMaxKeyPos(child, order, kid);
    var pos := sub.nrActive - 1;
    x := sub.keyVals[pos];
    assert x == l.keys[pos];
    SetLeafKey(sub, pos, k, order, cl, l);
    ghost var l' := l.(keys := l.keys[pos := k]);
    LeafKey(cl, l, l', kid, pos, k, order);
    t' := Plug(cl, l');
    s := Before(cl, order, 0) + l.keys[..pos];
    SplitLast(Before(cl, order, 0), l.keys, k);
  }

  /** Puts `k` in the place of the least key below `child`, and returns that key. */
  method ReplaceMin(child: Node, k: Key, order: nat, ghost kid: Tree)
      returns (x: Key, ghost t': Tree, ghost s: seq<Key>)
    requires order >= 2 && Focus(Top, kid, order) && kid.node == child
    modifies Nodes(kid)
    ensures Focus(Top, t', order) && Nodes(t') == Nodes(kid) && t'.node == child && t'.level == kid.level
    ensures |t'.keys| == |kid.keys| && Inorder(kid) == [x] + s && Inorder(t') == [k] + s
  {
    var sub;
    ghost var cl, l;
    sub, cl, l := GetMinKeyPos(child, order, kid);
    x := sub.keyVals[0];
    assert x == l.keys[0];
    SetLeafKey(sub, 0, k, order, cl, l);
    ghost var l' := l.(keys := l.keys[0 := k]);
    LeafKey(cl, l, l', kid, 0, k, order);
    t' := Plug(cl, l');
    s := l.keys[1..] + After(cl, order, 0);
    SplitFirst(l.keys, k, After(cl, order, 0));
  }

  method StepSwapMax(node: Node, index: nat, k: Key, order: nat, ghost c: Ctx, ghost t: Tree)
      returns (child: Node, ghost c': Ctx, ghost t': Tree)
    requires t.node == node && Link(t, order) && LinkCtx(c, node, order) && Sound(c, t, order)
    requires t.level > 0 && index < |t.keys| && k == t.keys[index] && |t.kids[index].keys| >= order
    modifies Nodes(t)
    ensures Stepped(c, t, c', t', order, k) && t'.node == child && c'.In? && c'.up == c && c'.node == node
    ensures CtxNodes(c') + Nodes(t') == CtxNodes(c) + Nodes(t)
  {
    hide Inorder, Sorted, Goal, Stepped, SepKids, BalKids, NodesOf;
    KidFocus(t, index, order);
    CtxAllocated(c);
    AllAllocated(t);
    child := node.children[index];
    var x;
    ghost var s;
    x, t', s := ReplaceMax(child, k, order, t.kids[index]);
    assert LinkKids(t.kids[..index], order) && LinkKids(t.kids[index + 1..], order) && LinkCtx(c, node, order);
    node.keyVals := node.keyVals[index := x];
    c' := Swapped(c, t, index, index, x);
    SwapDone(c, t, index, index, x, s, t', order);
  }

  method StepSwapMin(node: Node, index: nat, k: Key, order: nat, ghost c: Ctx, ghost t: Tree)
      returns (child: Node, ghost c': Ctx, ghost t': Tree)
    requires t.node == node && Link(t, order) && LinkCtx(c, node, order) && Sound(c, t, order)
    requires t.level > 0 && index < |t.keys| && k == t.keys[index] && |t.kids[index + 1].keys| >= order
    modifies Nodes(t)
    ensures Stepped(c, t, c', t', order, k) && t'.node == child && c'.In? && c'.up == c && c'.node == node
    ensures CtxNodes(c') + Nodes(t') == CtxNodes(c) + Nodes(t)
  {
    hide Inorder, Sorted, Goal, Stepped, SepKids, BalKids, NodesOf;
    var h := index + 1;
    KidFocus(t, h, order);
    CtxAllocated(c);
    AllAllocated(t);
    child := node.children[h];
    var x;
    ghost var s;
    x, t', s := ReplaceMin(child, k, order, t.kids[h]);
    assert LinkKids(t.kids[..h], order) && LinkKids(t.kids[h + 1..], order) && LinkCtx(c, node, order);
    node.keyVals := node.keyVals[index := x];
    c' := Swapped(c, t, index, h, x);
    SwapDone(c, t, index, h, x, s, t', order);
  }

  lemma KidFocus(t: Tree, h: nat, order: nat)
    requires order >= 2 && Link(t, order) && Sep(t) && Bal(t, order, 1) && t.level > 0 && h < |t.kids|
    ensures Focus(Top, t.kids[h], order) && t.kids[h].level + 1 == t.level && Nodes(t.kids[h]) <= Nodes(t)
    ensures t.node.children[h] == t.kids[h].node && t.node !in Nodes(t.kids[h])
    ensures LinkKids(t.kids[..h], order) && LinkKids(t.kids[h + 1..], order)
    ensures NodesOf(t.kids[..h]) !! Nodes(t.kids[h]) && NodesOf(t.kids[h + 1..]) !! Nodes(t.kids[h])
    ensures t.node !in NodesOf(t.kids[..h]) && t.node !in NodesOf(t.kids[h + 1..])
    ensures NodesOf(t.kids[..h]) <= Nodes(t) && NodesOf(t.kids[h + 1..]) <= Nodes(t)
  {
    assert Bal(t.kids[h], order, order - 1);
    assert t.node.children[..|t.kids|] == Ptrs(t.kids);
    assert t.kids == t.kids[..h] + [t.kids[h]] + t.kids[h + 1..];
    Assemble(t.kids[..h], t.kids[h], t.kids[h + 1..]);
  }

  /** The index of the first key of `node` that is not below `k`. */
  method FindIndex(node: Node, k: Key, order: nat, ghost t: Tree) returns (i: nat)
    requires t.node == node && Here(t, order)
    ensures i <= |t.keys| && (i > 0 ==> Lt(t.keys[i - 1], k)) && (i < |t.keys| ==> !Lt(t.keys[i], k))
  {
    i := 0;
    assert node.keyVals[..|t.keys|] == t.keys;
    while i < node.nrActive && Lt(node.keyVals[i], k)
      invariant i <= |t.keys| && (i > 0 ==> Lt(t.keys[i - 1], k))
    {
      i := i + 1;
    }
  }

  lemma {:induction false} PlugInner(c: Ctx, t: Tree)
    requires c.In?
    ensures Plug(c, t).kids != []
    decreases c
  {
    if c.up.In? {
      PlugInner(c.up, Fill(c, t));
    }
  }

  lemma AbsentLeaf(c: Ctx, t: Tree, i: nat, k: Key, order: nat)
    requires t.kids == [] && t.level == 0 && BalCtx(c, order, t.level) && Sorted(Inorder(t)) && i <= |t.keys|
    requires (i > 0 ==> Lt(t.keys[i - 1], k)) && (i < |t.keys| ==> Lt(k, t.keys[i]))
    ensures Inorder(Plug(c, t)) == Goal(c, t, order, k)
  {
    assert t.keys == t.keys[..i] + t.keys[i..];
    assert k !in t.keys;
    WithoutAbsent(t.keys, k);
    PlugInorder(c, t, order);
  }

  lemma LeafWithout(ks: seq<Key>, pos: nat)
    requires pos < |ks| && Sorted(ks)
    ensures Without(ks, ks[pos]) == ks[..pos] + ks[pos + 1..]
  {
    assert ks == ks[..pos] + [ks[pos]] + ks[pos + 1..];
    SortedAround(ks[..pos], ks[pos], ks[pos + 1..]);
    WithoutOne(ks[..pos], ks[pos], ks[pos + 1..]);
  }

  method ShrinkLeaf(node: Node, pos: nat, order: nat, ghost c: Ctx, ghost t: Tree)
    requires t.node == node && Link(t, order) && LinkCtx(c, node, order) && CtxNodes(c) !! Nodes(t)
    requires t.kids == [] && pos < |t.keys|
    modifies node`nrActive, node`keyVals
    ensures LinkCtx(c, node, order) && Link(t.(keys := t.keys[..pos] + t.keys[pos + 1..]), order)
    ensures node.nrActive == |t.keys| - 1
  {
    CtxAllocated(c);
    node.nrActive := node.nrActive - 1;
    CloseKey(node, pos, order, t.keys);
    assert LinkCtx(c, node, order);
  }

  /** Moves the keys above `pos` of a leaf down by one; the key count is already reduced. */
  method CloseKey(node: Node, pos: nat, order: nat, ghost ks: seq<Key>)
    requires pos <= node.nrActive == |ks| - 1 && |ks| <= |node.keyVals| && node.keyVals[..|ks|] == ks
    modifies node`keyVals
    ensures |node.keyVals| == old(|node.keyVals|)
    ensures node.keyVals[..node.nrActive] == ks[..pos] + ks[pos + 1..]
  {
    if pos < node.nrActive {
      var n := node.nrActive;
      node.keyVals := node.keyVals[..pos] + node.keyVals[pos + 1..n + 1] + node.keyVals[n..];
    }
  }

  /** The kids around `i` as the parent sees them. */
  lemma KidsAt(p: Tree, i: nat, order: nat)
    requires order >= 2 && Link(p, order) && Bal(p, order, 1) && p.level > 0 && i <= |p.keys|
    ensures forall x :: i - 1 <= x <= i + 1 && 0 <= x < |p.kids| ==>
              && p.node.children[x] == p.kids[x].node && p.kids[x].node.nrActive == |p.kids[x].keys|
              && order - 1 <= |p.kids[x].keys| < 2 * order
    ensures |p.kids| == |p.keys| + 1 && p.node.nrActive == |p.keys|
  {
    assert p.node.children[..|p.kids|] == Ptrs(p.kids);
    forall x | i - 1 <= x <= i + 1 && 0 <= x < |p.kids|
      ensures && p.node.children[x] == p.kids[x].node && p.kids[x].node.nrActive == |p.kids[x].keys|
              && order - 1 <= |p.kids[x].keys| < 2 * order
    {
      assert Link(p.kids[x], order) && Bal(p.kids[x], order, order - 1);
    }
  }
}
