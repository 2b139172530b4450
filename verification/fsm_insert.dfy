/** The steps of a single-pass insertion: going one level down while splitting full nodes. */
module FsmInsert {
  import opened FsmKeys
  import opened FsmTree
  import opened FsmNodes
  import opened FsmDelete

  /** The node in focus is where `k` belongs, and `s` is the whole content. */
  ghost predicate Fits(c: Ctx, t: Tree, order: nat, k: Key, s: seq<Key>) {
    && BalCtx(c, order, t.level)
    && AllBelow(Before(c, order, t.level), k) && AllAbove(k, After(c, order, t.level))
    && s == Before(c, order, t.level) + Inorder(t) + After(c, order, t.level) && Sorted(s)
  }

  lemma FitsSorted(c: Ctx, t: Tree, order: nat, k: Key, s: seq<Key>)
    requires Fits(c, t, order, k, s)
    ensures Sorted(Inorder(t)) && (k in s <==> k in Inorder(t))
  {
    SortedMiddle(Before(c, order, t.level), Inorder(t), After(c, order, t.level));
  }

  /** Going down to the kid between whose neighbouring keys `k` lies. */
  lemma FitsDown(c: Ctx, t: Tree, i: nat, order: nat, k: Key, s: seq<Key>)
    requires Fits(c, t, order, k, s) && Bal(t, order, MinKeys(c, order)) && Between(t, i, k)
    ensures Fits(Down(c, t, i), t.kids[i], order, k, s)
  {
    FitsSorted(c, t, order, k, s);
    DownBal(c, t, i, order);
    Locate(t, i, k);
    InorderAt(t, i);
    var b, p, m, d, a := Before(c, order, t.level), Pre(t.kids[..i], t.keys[..i]), Inorder(t.kids[i]),
                         Suf(t.keys[i..], t.kids[i + 1..]), After(c, order, t.level);
    Regroup(b, p, m, d, a);
    BelowConcat(b, p, k);
    AboveConcat(k, d, a);
  }

  lemma BelowConcat(a: seq<Key>, b: seq<Key>, k: Key)
    requires AllBelow(a, k) && AllBelow(b, k)
    ensures AllBelow(a + b, k)
  {
  }

  lemma AboveConcat(k: Key, a: seq<Key>, b: seq<Key>)
    requires AllAbove(k, a) && AllAbove(k, b)
    ensures AllAbove(k, a + b)
  {
  }

  /** A key of the node in focus is in the tree. */
  lemma FoundHere(c: Ctx, t: Tree, i: nat, order: nat, k: Key, s: seq<Key>)
    requires Fits(c, t, order, k, s) && Shaped(t) && i < |t.keys| && t.keys[i] == k
    ensures k in s
  {
    KeysInInorder(t, i);
  }

  /** So is a key of one of its kids. */
  lemma FoundBelow(c: Ctx, t: Tree, i: nat, j: nat, order: nat, k: Key, s: seq<Key>)
    requires Fits(c, t, order, k, s) && |t.kids| == |t.keys| + 1 && i < |t.kids| && Shaped(t.kids[i])
    requires j < |t.kids[i].keys| && t.kids[i].keys[j] == k
    ensures k in s
  {
    KeysInInorder(t.kids[i], j);
    InorderAt(t, i);
  }

  /** Putting `k` at its place in the leaf in focus. */
  lemma LeafWith(c: Ctx, t: Tree, i: nat, order: nat, k: Key, s: seq<Key>)
    requires Fits(c, t, order, k, s) && t.kids == [] && i <= |t.keys|
    requires AllBelow(t.keys[..i], k) && AllAbove(k, t.keys[i..])
    ensures With(s, k) ==
            Before(c, order, t.level) + (t.keys[..i] + [k] + t.keys[i..]) + After(c, order, t.level)
    ensures k !in s && Sorted(With(s, k))
  {
    hide With, Sorted, Before, After;
    WithBetween(Before(c, order, t.level), t.keys, i, k, After(c, order, t.level));
    WithSorted(s, k);
  }

  lemma WithBetween(b: seq<Key>, ks: seq<Key>, i: nat, k: Key, a: seq<Key>)
    requires i <= |ks| && AllBelow(b, k) && AllBelow(ks[..i], k) && AllAbove(k, ks[i..]) && AllAbove(k, a)
    ensures With(b + ks + a, k) == b + (ks[..i] + [k] + ks[i..]) + a && k !in b + ks + a
  {
    hide With;
    BelowConcat(b, ks[..i], k);
    AboveConcat(k, ks[i..], a);
    assert b + ks + a == (b + ks[..i]) + (ks[i..] + a);
    WithMiddle(b + ks[..i], k, ks[i..] + a);
    assert (b + ks[..i]) + [k] + (ks[i..] + a) == b + (ks[..i] + [k] + ks[i..]) + a;
  }

  /** The place of `k` in a leaf, by binary search. */
  method LeafPosition(node: Node, k: Key, order: nat, ghost t: Tree) returns (exists': bool, pos: nat)
    requires t.node == node && Here(t, order) && t.kids == [] && Sorted(t.keys)
    ensures exists' <==> k in t.keys
    ensures !exists' ==> pos <= |t.keys| && AllBelow(t.keys[..pos], k) && AllAbove(k, t.keys[pos..])
  {
    var imin, imax: int := 0, node.nrActive - 1;
    assert node.keyVals[..|t.keys|] == t.keys;
    while imax >= imin
      invariant 0 <= imin <= imax + 1 <= |t.keys|
      invariant forall x :: 0 <= x < imin ==> Lt(t.keys[x], k)
      invariant forall x :: imax < x < |t.keys| ==> Lt(k, t.keys[x])
      decreases imax - imin
    {
      var imid := (imin + imax) / 2;
      assert node.keyVals[imid] == t.keys[imid];
      if Lt(node.keyVals[imid], k) {
        imin := imid + 1;
      } else if Lt(k, node.keyVals[imid]) {
        imax := imid - 1;
      } else {
        return true, imid;
      }
    }
    exists', pos := false, imax + 1;
  }

  /** Whether `k` is a key of the inner node `node`, and else the kid it belongs to. */
  method KidPosition(node: Node, k: Key, order: nat, ghost t: Tree) returns (exists': bool, i: nat)
    requires t.node == node && Here(t, order) && t.level > 0
    ensures exists' ==> i < |t.keys| && t.keys[i] == k
    ensures !exists' ==> Between(t, i, k)
  {
    assert node.keyVals[..|t.keys|] == t.keys;
    i := node.nrActive;
    while i > 0
      invariant 0 <= i <= |t.keys| && (i < |t.keys| ==> Lt(k, t.keys[i]))
    {
      if node.keyVals[i - 1] == k {
        return true, i - 1;
      }
      if Lt(node.keyVals[i - 1], k) {
        break;
      }
      i := i - 1;
    }
    exists' := false;
  }

  /** The keys of a node in a sorted tree are sorted. */
  lemma KeysSorted(t: Tree)
    requires Shaped(t) && Sorted(Inorder(t))
    ensures Sorted(t.keys)
  {
    if t.kids != [] {
      forall x, y | 0 <= x < y < |t.keys| ensures Lt(t.keys[x], t.keys[y]) {
        KeysApart(t, x, y);
      }
    }
  }

  lemma {:induction false} KeysApart(t: Tree, x: nat, y: nat)
    requires |t.kids| == |t.keys| + 1 && Sorted(Inorder(t)) && x < y < |t.keys|
    ensures Lt(t.keys[x], t.keys[y])
    decreases y - x
  {
    KeyOrder(t, y - 1);
    if x + 1 < y {
      KeysApart(t, x, y - 1);
    }
  }

  /** Whether `k` is a key of `child`, scanning until a greater key is met. */
  method ScanKeys(child: Node, k: Key, order: nat, ghost t: Tree) returns (exists': bool, j: nat)
    requires t.node == child && Here(t, order) && Sorted(t.keys)
    ensures exists' ==> j < |t.keys| && t.keys[j] == k
    ensures !exists' ==> k !in t.keys
  {
    assert child.keyVals[..|t.keys|] == t.keys;
    j := 0;
    while j < child.nrActive
      invariant j <= |t.keys| && forall x :: 0 <= x < j ==> t.keys[x] != k
    {
      if child.keyVals[j] == k {
        return true, j;
      }
      if Lt(k, child.keyVals[j]) {
        break;
      }
      j := j + 1;
    }
    exists' := false;
  }

  lemma SplitHere(p: Tree, i: nat, m: nat, node: Node)
    requires i < |p.kids| && i <= |p.keys| && m < |p.kids[i].keys|
    ensures SplitKid(p, i, m, node).node == p.node && SplitKid(p, i, m, node).level == p.level
  {
  }

  lemma SplitFacts(p: Tree, q: Tree, i: nat, node: Node, order: nat)
    requires order >= 2 && Even(p, order) && p.level > 0 && i <= |p.keys| < 2 * order - 1
    requires |p.kids[i].keys| == 2 * order - 1
    requires q == SplitKid(p, i, order - 1, node)
    ensures Shaped(p.kids[i]) && Bal(q, order, |p.keys| + 1) && Inorder(q) == Inorder(p)
  {
    hide Inorder, SplitKid;
    assert Bal(p.kids[i], order, order - 1);
    SplitBal(p, i, order - 1, node, order);
    SplitKidInorder(p, i, order - 1, node);
  }

  lemma SplitSides(p: Tree, q: Tree, i: nat, node: Node, order: nat, k: Key)
    requires order >= 2 && Between(p, i, k) && |p.kids| == |p.keys| + 1 && |p.kids[i].keys| == 2 * order - 1
    requires q == SplitKid(p, i, order - 1, node) && k != q.keys[i]
    ensures |q.kids| == |q.keys| + 1 == |p.kids| + 1 && q.level == p.level
    ensures |q.kids[i].keys| == |q.kids[i + 1].keys| == order - 1
    ensures q.keys[i] == p.kids[i].keys[order - 1]
    ensures Between(q, if Lt(q.keys[i], k) then i + 1 else i, k)
  {
    assert i > 0 ==> q.keys[i - 1] == p.keys[i - 1];
    assert i < |p.keys| ==> q.keys[i + 1] == p.keys[i];
  }

  /** The focus moves with a rearrangement of the node in it. */
  lemma Refocus(c: Ctx, p: Tree, q: Tree, node: Node, order: nat, k: Key, s: seq<Key>)
    requires Fits(c, p, order, k, s) && SepCtx(c) && CtxNodes(c) !! Nodes(p) && node !in CtxNodes(c)
    requires q.node == p.node && q.level == p.level && Sep(q) && Nodes(q) == Nodes(p) + {node}
    requires Bal(q, order, MinKeys(c, order)) && Inorder(q) == Inorder(p)
    requires LinkCtx(c, q.node, order) && Link(q, order)
    ensures Focus(c, q, order) && Fits(c, q, order, k, s)
  {
  }

  lemma SplitStep(c: Ctx, p: Tree, q: Tree, i: nat, node: Node, order: nat, k: Key, s: seq<Key>)
    requires order >= 2 && Fits(c, p, order, k, s) && SepCtx(c) && Sep(p) && CtxNodes(c) !! Nodes(p)
    requires Bal(p, order, MinKeys(c, order)) && p.level > 0 && i <= |p.keys| < 2 * order - 1
    requires |p.kids[i].keys| == 2 * order - 1 && node !in Nodes(p) && node !in CtxNodes(c)
    requires q == SplitKid(p, i, order - 1, node) && LinkCtx(c, p.node, order) && Link(q, order)
    ensures Focus(c, q, order) && Fits(c, q, order, k, s)
    ensures Nodes(q) == Nodes(p) + {node}
  {
    hide SplitKid, Inorder, Sep, Nodes, BalKids, Link, LinkCtx, SepCtx, CtxNodes, Fits;
    SplitFacts(p, q, i, node, order);
    SplitHere(p, i, order - 1, node);
    SplitSep(p, i, order - 1, node);
    Refocus(c, p, q, node, order, k, s);
  }

  method SplitInPlace(parent: Node, i: nat, child: Node, order: nat, ghost c: Ctx, ghost p: Tree)
      returns (newChild: Node)
    requires order >= 2 && p.node == parent && Link(p, order) && Sep(p)
    requires LinkCtx(c, parent, order) && CtxNodes(c) !! Nodes(p)
    requires i < |p.kids| && p.kids[i].node == child && |p.keys| < 2 * order - 1 == |p.kids[i].keys|
    modifies Nodes(p)
    ensures fresh(newChild) && newChild !in Nodes(p) && newChild !in CtxNodes(c)
    ensures Link(SplitKid(p, i, order - 1, newChild), order) && LinkCtx(c, parent, order)
  {
    AllAllocated(p);
    CtxAllocated(c);
    assert child in Nodes(p.kids[i]) && child in Nodes(p);
    newChild := SplitChild(parent, i, child, order, p);
    assert LinkCtx(c, parent, order);
  }

  method GrowLeaf(node: Node, pos: nat, k: Key, order: nat, ghost c: Ctx, ghost t: Tree)
    requires t.node == node && Link(t, order) && LinkCtx(c, node, order) && CtxNodes(c) !! Nodes(t)
    requires t.kids == [] && pos <= |t.keys| < 2 * order - 1
    modifies node`nrActive, node`keyVals
    ensures LinkCtx(c, node, order) && Link(t.(keys := t.keys[..pos] + [k] + t.keys[pos..]), order)
  {
    CtxAllocated(c);
    assert node.keyVals[..pos] == t.keys[..pos] && node.keyVals[pos..node.nrActive] == t.keys[pos..];
    PutKey(node, pos, k);
    node.nrActive := node.nrActive + 1;
    assert LinkCtx(c, node, order);
  }

  /** Looks for `k` among the keys of kid `i` of the node in focus. */
  method ScanChild(child: Node, i: nat, k: Key, order: nat, ghost c: Ctx, ghost t: Tree, ghost s: seq<Key>)
      returns (found: bool, ghost j: nat)
    requires Fits(c, t, order, k, s) && Link(t, order) && Bal(t, order, 0) && t.level > 0 && i < |t.kids|
    requires t.kids[i].node == child
    ensures found ==> k in s
    ensures !found ==> k !in t.kids[i].keys
  {
    var pos;
    assert Link(t.kids[i], order) && Bal(t.kids[i], order, order - 1);
    FitsSorted(c, t, order, k, s);
    KidSorted(t, i);
    found, pos := ScanKeys(child, k, order, t.kids[i]);
    j := pos;
    if found {
      FoundBelow(c, t, i, pos, order, k, s);
    }
  }

  lemma KidSorted(t: Tree, i: nat)
    requires Sorted(Inorder(t)) && |t.kids| == |t.keys| + 1 && i < |t.kids| && Shaped(t.kids[i])
    ensures Sorted(t.kids[i].keys)
  {
    InorderAt(t, i);
    SortedMiddle(Pre(t.kids[..i], t.keys[..i]), Inorder(t.kids[i]), Suf(t.keys[i..], t.kids[i + 1..]));
    KeysSorted(t.kids[i]);
  }

  /** Splits the full kid `i` and goes down to the half that `k` belongs to. */
  method SplitDown(node: Node, i: nat, child: Node, k: Key, order: nat, ghost c: Ctx, ghost t: Tree, ghost s: seq<Key>)
      returns (next: Node, newChild: Node, ghost c': Ctx, ghost t': Tree)
    requires order >= 2 && t.node == node && Focus(c, t, order) && Fits(c, t, order, k, s) && |t.keys| < 2 * order - 1
    requires t.level > 0 && Between(t, i, k) && t.kids[i].node == child
    requires |t.kids[i].keys| == 2 * order - 1 && k !in t.kids[i].keys
    modifies Nodes(t)
    ensures fresh(newChild) && t'.node == next && Focus(c', t', order) && Fits(c', t', order, k, s)
    ensures t'.level < t.level && |t'.keys| == order - 1 && c'.In? && c'.up == c && c'.node == node
    ensures CtxNodes(c') + Nodes(t') == CtxNodes(c) + Nodes(t) + {newChild}
  {
    ghost var q;
    newChild, q := SplitFocused(node, i, child, k, order, c, t, s);
    HalvesAt(q, i, order);
    var h := if Lt(node.keyVals[i], k) then i + 1 else i;
    next := node.children[h];
    c', t' := Down(c, q, h), q.kids[h];
    FocusFitsDown(c, q, h, order, k, s);
  }

  lemma HalvesAt(q: Tree, i: nat, order: nat)
    requires Here(q, order) && i < |q.keys| && |q.kids| == |q.keys| + 1
    ensures i + 1 < |q.node.children| && i < |q.node.keyVals| && q.node.keyVals[i] == q.keys[i]
    ensures q.node.children[i] == q.kids[i].node && q.node.children[i + 1] == q.kids[i + 1].node
  {
    assert q.node.keyVals[..|q.keys|] == q.keys && q.node.children[..|q.kids|] == Ptrs(q.kids);
    assert Ptrs(q.kids)[i] == q.kids[i].node && Ptrs(q.kids)[i + 1] == q.kids[i + 1].node;
  }

  method SplitFocused(node: Node, i: nat, child: Node, k: Key, order: nat, ghost c: Ctx, ghost t: Tree,
                      ghost s: seq<Key>)
      returns (newChild: Node, ghost q: Tree)
    requires order >= 2 && t.node == node && Focus(c, t, order) && Fits(c, t, order, k, s) && |t.keys| < 2 * order - 1
    requires t.level > 0 && Between(t, i, k) && t.kids[i].node == child
    requires |t.kids[i].keys| == 2 * order - 1 && k !in t.kids[i].keys
    modifies Nodes(t)
    ensures fresh(newChild) && Nodes(q) == Nodes(t) + {newChild}
    ensures Focus(c, q, order) && Fits(c, q, order, k, s) && q.node == node && q.level == t.level
    ensures i < |q.keys| && |q.kids| == |q.keys| + 1 && |q.kids[i].keys| == |q.kids[i + 1].keys| == order - 1
    ensures Between(q, if Lt(q.keys[i], k) then i + 1 else i, k)
  {
    newChild := SplitInPlace(node, i, child, order, c, t);
    q := SplitKid(t, i, order - 1, newChild);
    SplitStep(c, t, q, i, newChild, order, k, s);
    SplitSides(t, q, i, newChild, order, k);
  }

  lemma FocusFitsDown(c: Ctx, t: Tree, i: nat, order: nat, k: Key, s: seq<Key>)
    requires Focus(c, t, order) && Fits(c, t, order, k, s) && Between(t, i, k)
    ensures Focus(Down(c, t, i), t.kids[i], order) && Fits(Down(c, t, i), t.kids[i], order, k, s)
    ensures t.kids[i].level < t.level
    ensures CtxNodes(Down(c, t, i)) + Nodes(t.kids[i]) == CtxNodes(c) + Nodes(t)
  {
    FitsDown(c, t, i, order, k, s);
    FocusDown(c, t, i, order);
    DownBal(c, t, i, order);
  }

  /** A root without keys above a single kid. */
  lemma RaisedRoot(p: Tree, t: Tree, order: nat)
    requires order >= 2 && p.keys == [] && p.kids == [t] && p.level == t.level + 1 && p.node !in Nodes(t)
    requires Link(t, order) && Sep(t) && Bal(t, order, order - 1)
    requires p.node.Is(p.level, false, [], [t.node], order)
    ensures Link(p, order) && Sep(p) && Even(p, order) && Nodes(p) == Nodes(t) + {p.node} && Inorder(p) == Inorder(t)
  {
    Singleton(t);
    assert Ptrs(p.kids) == [t.node];
    InorderAt(p, 0);
  }

  /** A new, empty root above a full one. */
  method NewRoot(rnode: Node, order: nat, ghost t: Tree) returns (newRoot: Node, ghost p: Tree)
    requires order >= 2 && t.node == rnode && Link(t, order) && Sep(t) && Bal(t, order, order - 1)
    ensures fresh(newRoot) && p == Tree(newRoot, t.level + 1, [], [t])
    ensures Link(p, order) && Sep(p) && Even(p, order) && Nodes(p) == Nodes(t) + {newRoot} && Inorder(p) == Inorder(t)
  {
    AllAllocated(t);
    newRoot := new Node(order);
    newRoot.level := rnode.level + 1;
    newRoot.leaf := false;
    newRoot.children := newRoot.children[0 := rnode];
    p := Tree(newRoot, t.level + 1, [], [t]);
    assert Link(t, order);
    RaisedRoot(p, t, order);
  }

  /** Splits the full kid of an empty root. */
  method SplitRoot(newRoot: Node, rnode: Node, order: nat, ghost p: Tree) returns (newChild: Node, ghost q: Tree)
    requires order >= 2 && p.node == newRoot && p.keys == [] && |p.kids| == 1 && p.kids[0].node == rnode
    requires Link(p, order) && Sep(p) && Even(p, order) && p.level > 0 && |p.kids[0].keys| == 2 * order - 1
    modifies Nodes(p)
    ensures fresh(newChild) && Nodes(q) == Nodes(p) + {newChild} && q.node == newRoot && |q.keys| == 1 && q.level > 0
    ensures Focus(Top, q, order) && Inorder(q) == Inorder(p)
  {
    newChild := SplitInPlace(newRoot, 0, rnode, order, Top, p);
    q := SplitKid(p, 0, order - 1, newChild);
    SplitRootFocus(p, q, newChild, order);
  }

  lemma SplitRootFocus(p: Tree, q: Tree, node: Node, order: nat)
    requires order >= 2 && p.keys == [] && |p.kids| == 1 && Sep(p) && Even(p, order) && p.level > 0
    requires |p.kids[0].keys| == 2 * order - 1 && node !in Nodes(p) && q == SplitKid(p, 0, order - 1, node)
    requires Link(q, order)
    ensures Focus(Top, q, order) && Inorder(q) == Inorder(p) && Nodes(q) == Nodes(p) + {node} && |q.keys| == 1
  {
    SplitFacts(p, q, 0, node, order);
    SplitSep(p, 0, order - 1, node);
  }

  /** A new root above a full one, with the old root split between its two kids. */
  method Raise(rnode: Node, order: nat, ghost t: Tree) returns (newRoot: Node, ghost q: Tree, ghost extra: set<Node>)
    requires order >= 2 && t.node == rnode && Link(t, order) && Sep(t) && Bal(t, order, 2 * order - 1)
    modifies Nodes(t)
    ensures fresh(extra) && Nodes(q) == Nodes(t) + extra && q.node == newRoot && |q.keys| == 1 && q.level > 0
    ensures Focus(Top, q, order) && Inorder(q) == Inorder(t)
  {
    ghost var p;
    newRoot, p := NewRoot(rnode, order, t);
    var newChild;
    newChild, q := SplitRoot(newRoot, rnode, order, p);
    extra := {newRoot, newChild};
  }

  /** A leaf in focus that has gained a key. */
  lemma GrownFocus(c: Ctx, t: Tree, l: Tree, order: nat)
    requires order >= 2 && SepCtx(c) && Sep(t) && CtxNodes(c) !! Nodes(t) && BalCtx(c, order, t.level) && t.level == 0
    requires c.In? ==> |t.keys| >= order - 1
    requires t.kids == [] && l.kids == [] && l.node == t.node && l.level == t.level
             && |l.keys| == |t.keys| + 1 < 2 * order
    requires LinkCtx(c, l.node, order) && Link(l, order)
    ensures Focus(c, l, order) && Nodes(l) == Nodes(t)
  {
  }
}
