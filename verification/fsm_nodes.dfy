/** The in-place work on free-space B-tree nodes: splitting, moving keys between siblings
    and merging, each proved to perform a rearrangement of the tree it spells out. */
module FsmNodes {
  import opened FsmKeys
  import opened FsmTree

  /** Copies the keys and children above the middle of a full `child` to `to`. */
  method CopyUpper(to: Node, child: Node, order: nat)
    requires order >= 2 && to != child
    requires |to.keyVals| == |child.keyVals| == 2 * order - 1
    requires |to.children| == |child.children| == 2 * order
    modifies to`keyVals, to`children
    ensures |to.keyVals| == 2 * order - 1 && |to.children| == 2 * order
    ensures to.keyVals[..order - 1] == child.keyVals[order..]
    ensures !child.leaf ==> to.children[..order] == child.children[order..]
  {
    var count := 0;
    while count < order - 1
      invariant count <= order - 1
      invariant |to.keyVals| == 2 * order - 1 && |to.children| == 2 * order
      invariant forall x :: 0 <= x < count ==> to.keyVals[x] == child.keyVals[x + order]
      invariant !child.leaf ==> forall x :: 0 <= x < count ==> to.children[x] == child.children[x + order]
    {
      to.keyVals := to.keyVals[count := child.keyVals[count + order]];
      if !child.leaf {
        to.children := to.children[count := child.children[count + order]];
      }
      count := count + 1;
    }
    if !child.leaf {
      to.children := to.children[count := child.children[count + order]];
    }
  }

  /** Shifts the children of `parent` up and puts `node` at `index + 1`. */
  method PutChild(parent: Node, index: nat, node: Node)
    requires index <= parent.nrActive && parent.nrActive + 1 < |parent.children|
    modifies parent`children
    ensures |parent.children| == |old(parent.children)|
    ensures parent.children[..parent.nrActive + 2] ==
            old(parent.children)[..index + 1] + [node] + old(parent.children)[index + 1..parent.nrActive + 1]
  {
    var n := parent.nrActive;
    var count := n + 1;
    while count > index + 1
      invariant index + 1 <= count <= n + 1
      invariant |parent.children| == |old(parent.children)|
      invariant forall x :: 0 <= x <= count && x <= n ==> parent.children[x] == old(parent.children)[x]
      invariant forall x :: count < x <= n + 1 ==> parent.children[x] == old(parent.children)[x - 1]
    {
      parent.children := parent.children[count := parent.children[count - 1]];
      count := count - 1;
    }
    parent.children := parent.children[index + 1 := node];
  }

  /** Shifts the keys of `node` up and puts `k` at `index`. */
  method PutKey(node: Node, index: nat, k: Key)
    requires index <= node.nrActive < |node.keyVals|
    modifies node`keyVals
    ensures |node.keyVals| == |old(node.keyVals)|
    ensures node.keyVals[..node.nrActive + 1] ==
            old(node.keyVals)[..index] + [k] + old(node.keyVals)[index..node.nrActive]
  {
    var n := node.nrActive;
    var count := n;
    while count > index
      invariant index <= count <= n
      invariant |node.keyVals| == |old(node.keyVals)|
      invariant forall x :: 0 <= x <= count && x < n ==> node.keyVals[x] == old(node.keyVals)[x]
      invariant forall x :: count < x <= n ==> node.keyVals[x] == old(node.keyVals)[x - 1]
    {
      node.keyVals := node.keyVals[count := node.keyVals[count - 1]];
      count := count - 1;
    }
    node.keyVals := node.keyVals[index := k];
  }

  /** The array work of splitting a full `child` of `parent`. */
  method SplitNodes(parent: Node, index: nat, child: Node, order: nat,
                    ghost pk: seq<Key>, ghost pp: seq<Node?>, ghost ck: seq<Key>, ghost cp: seq<Node?>)
      returns (newChild: Node)
    requires order >= 2 && parent != child && index < |pp| && |pk| < 2 * order - 1 == |ck|
    requires parent.Is(parent.level, false, pk, pp, order) && child.Is(child.level, child.leaf, ck, cp, order)
    modifies parent`nrActive, parent`keyVals, parent`children, child`nrActive
    ensures fresh(newChild)
    ensures child.Is(child.level, child.leaf, ck[..order - 1], if child.leaf then [] else cp[..order], order)
    ensures newChild.Is(child.level, child.leaf, ck[order..], if child.leaf then [] else cp[order..], order)
    ensures parent.Is(parent.level, false, pk[..index] + [ck[order - 1]] + pk[index..],
                      pp[..index + 1] + [newChild] + pp[index + 1..], order)
  {
    newChild := new Node(order);
    newChild.leaf := child.leaf;
    newChild.level := child.level;
    newChild.nrActive := order - 1;
    CopyUpper(newChild, child, order);
    child.nrActive := order - 1;
    assert parent.keyVals[..index] == pk[..index] && parent.keyVals[index..parent.nrActive] == pk[index..];
    assert parent.children[..index + 1] == pp[..index + 1]
           && parent.children[index + 1..parent.nrActive + 1] == pp[index + 1..];
    PutChild(parent, index, newChild);
    PutKey(parent, index, child.keyVals[order - 1]);
    parent.nrActive := parent.nrActive + 1;
    assert child.keyVals[order - 1] == ck[order - 1] && child.keyVals[order..] == ck[order..];
  }

  method SplitChild(parent: Node, index: nat, child: Node, order: nat, ghost p: Tree)
      returns (newChild: Node)
    requires order >= 2 && p.node == parent && Link(p, order) && Sep(p)
    requires index < |p.kids| && p.kids[index].node == child
    requires |p.keys| < 2 * order - 1 && |p.kids[index].keys| == 2 * order - 1
    modifies parent, child
    ensures fresh(newChild)
    ensures Link(SplitKid(p, index, order - 1, newChild), order)
  {
    ghost var a, c, b := p.kids[..index], p.kids[index], p.kids[index + 1..];
    KidApart(p, index, order);
    newChild := SplitNodes(parent, index, child, order, p.keys, Ptrs(p.kids), c.keys, Ptrs(c.kids));
    assert LinkKids(a, order) && LinkKids(b, order) && LinkKids(c.kids, order);
    SplitLink(p, index, order - 1, newChild, order);
  }

  lemma SplitLink(p: Tree, i: nat, m: nat, node: Node, order: nat)
    requires |p.kids| == |p.keys| + 1 && i < |p.kids| && m < |p.kids[i].keys| && Shaped(p.kids[i])
    requires var c := p.kids[i];
             && LinkKids(p.kids[..i], order) && LinkKids(p.kids[i + 1..], order) && LinkKids(c.kids, order)
             && c.node.Is(c.level, c.kids == [], c.keys[..m], if c.kids == [] then [] else Ptrs(c.kids)[..m + 1], order)
             && node.Is(c.level, c.kids == [], c.keys[m + 1..], if c.kids == [] then [] else Ptrs(c.kids)[m + 1..],
                        order)
             && p.node.Is(p.level, false, p.keys[..i] + [c.keys[m]] + p.keys[i..],
                          Ptrs(p.kids)[..i + 1] + [node] + Ptrs(p.kids)[i + 1..], order)
    ensures Link(SplitKid(p, i, m, node), order)
  {
    hide Ptrs, LinkKids, NodesOf;
    var c := p.kids[i];
    CutPtrs(c, m, node);
    SplitPtrs(p, i, m, node);
    CutKids(c, m, node);
    LinkPair(p.kids[..i], Lower(c, m), Upper(c, m, node), p.kids[i + 1..], order);
  }

  lemma CutPtrs(c: Tree, m: nat, node: Node)
    requires m < |c.keys| && Shaped(c)
    ensures Ptrs(Lower(c, m).kids) == if c.kids == [] then [] else Ptrs(c.kids)[..m + 1]
    ensures Ptrs(Upper(c, m, node).kids) == if c.kids == [] then [] else Ptrs(c.kids)[m + 1..]
  {
  }

  lemma SplitPtrs(p: Tree, i: nat, m: nat, node: Node)
    requires i < |p.kids| && i <= |p.keys| && m < |p.kids[i].keys|
    ensures Ptrs(SplitKid(p, i, m, node).kids) == Ptrs(p.kids)[..i + 1] + [node] + Ptrs(p.kids)[i + 1..]
  {
  }

  /** Closes the gap that key `index` and child `index + 1` of `parent` leave. */
  method CloseSlot(parent: Node, index: nat, order: nat, ghost pk: seq<Key>, ghost pp: seq<Node?>)
    requires parent.Is(parent.level, false, pk, pp, order) && index < |pk|
    modifies parent`nrActive, parent`keyVals, parent`children
    ensures parent.Is(parent.level, false, pk[..index] + pk[index + 1..], pp[..index + 1] + pp[index + 2..], order)
  {
    var i := index + 1;
    assert parent.keyVals[..|pk|] == pk && parent.children[..|pp|] == pp;
    while i < parent.nrActive
      invariant index + 1 <= i <= parent.nrActive == |pk|
      invariant |parent.keyVals| == 2 * order - 1 && |parent.children| == 2 * order
      invariant forall x :: 0 <= x < index || i - 1 <= x < |pk| ==> parent.keyVals[x] == pk[x]
      invariant forall x :: index < x < i ==> parent.keyVals[x - 1] == pk[x]
      invariant forall x :: 0 <= x <= index || i <= x < |pp| ==> parent.children[x] == pp[x]
      invariant forall x :: index + 1 < x <= i ==> parent.children[x - 1] == pp[x]
    {
      assert parent.keyVals[i] == pk[i] && parent.children[i + 1] == pp[i + 1];
      parent.children := parent.children[i := parent.children[i + 1]];
      parent.keyVals := parent.keyVals[i - 1 := parent.keyVals[i]];
      i := i + 1;
    }
    parent.nrActive := parent.nrActive - 1;
  }

  /** Copies the keys and children of `from` to `to`, starting at `base`. */
  method CopyAll(to: Node, base: nat, from: Node, order: nat, ghost k: seq<Key>, ghost p: seq<Node?>)
    requires to != from && base + |k| <= 2 * order - 1
    requires from.Is(from.level, from.leaf, k, p, order)
    requires |to.keyVals| == 2 * order - 1 && |to.children| == 2 * order
    modifies to`keyVals, to`children
    ensures |to.keyVals| == 2 * order - 1 && |to.children| == 2 * order
    ensures to.keyVals[..base] == old(to.keyVals)[..base] && to.children[..base] == old(to.children)[..base]
    ensures to.keyVals[base..base + |k|] == k
    ensures !from.leaf ==> to.children[base..base + |p|] == p
  {
    var i := 0;
    while i < from.nrActive
      invariant i <= from.nrActive == |k|
      invariant |to.keyVals| == 2 * order - 1 && |to.children| == 2 * order
      invariant to.keyVals[..base] == old(to.keyVals)[..base] && to.children[..base] == old(to.children)[..base]
      invariant forall x :: 0 <= x < i ==> to.keyVals[base + x] == from.keyVals[x]
      invariant forall x :: 0 <= x < i ==> to.children[base + x] == from.children[x]
    {
      to.keyVals := to.keyVals[base + i := from.keyVals[i]];
      to.children := to.children[base + i := from.children[i]];
      i := i + 1;
    }
    to.children := to.children[base + i := from.children[i]];
  }

  /** Joins two siblings of minimal size and the key between them in a new node. */
  method MergeNodes(n1: Node, kv: Key, n2: Node, order: nat,
                    ghost lk: seq<Key>, ghost lp: seq<Node?>, ghost rk: seq<Key>, ghost rp: seq<Node?>)
      returns (newNode: Node)
    requires order >= 2 && |lk| == |rk| == order - 1
    requires n1.Is(n1.level, n1.leaf, lk, lp, order) && n2.Is(n1.level, n1.leaf, rk, rp, order)
    ensures fresh(newNode) && newNode.next == null
    ensures newNode.Is(n1.level, n1.leaf, lk + [kv] + rk, lp + rp, order)
  {
    newNode := new Node(order);
    CopyAll(newNode, 0, n1, order, lk, lp);
    newNode.keyVals := newNode.keyVals[n1.nrActive := kv];
    assert newNode.keyVals[..order] == lk + [kv] && n1.nrActive + 1 == order;
    ghost var cs := newNode.children[..order];
    CopyAll(newNode, n1.nrActive + 1, n2, order, rk, rp);
    Joined(newNode.keyVals, order, lk + [kv], rk);
    if !n1.leaf {
      assert cs == lp;
      Joined(newNode.children, order, lp, rp);
    }
    newNode.nrActive := n1.nrActive + n2.nrActive + 1;
    newNode.leaf := n1.leaf;
    newNode.level := n1.level;
  }

  lemma Joined<T>(s: seq<T>, n: nat, a: seq<T>, b: seq<T>)
    requires n + |b| <= |s| && s[..n] == a && s[n..n + |b|] == b
    ensures s[..n + |b|] == a + b
  {
    assert s[..n + |b|] == s[..n] + s[n..n + |b|];
  }

  /** Drops the first key and first child of `r`. */
  method DropFirst(r: Node, order: nat, ghost rk: seq<Key>, ghost rp: seq<Node?>)
    requires r.Is(r.level, r.leaf, rk, rp, order) && |rk| > 0
    modifies r`nrActive, r`keyVals, r`children
    ensures r.Is(r.level, r.leaf, rk[1..], if r.leaf then [] else rp[1..], order)
  {
    ghost var cs := r.children;
    var i := 0;
    while i < r.nrActive - 1
      invariant 0 <= i <= r.nrActive - 1
      invariant r.nrActive == |rk|
      invariant |r.keyVals| == 2 * order - 1 && |r.children| == 2 * order
      invariant forall x :: 0 <= x < i ==> r.keyVals[x] == rk[x + 1]
      invariant forall x :: 0 <= x < i ==> r.children[x] == cs[x + 1]
      invariant r.keyVals[i..|rk|] == rk[i..]
      invariant r.children[i..] == cs[i..]
    {
      assert r.keyVals[i + 1] == r.keyVals[i..|rk|][1] == rk[i + 1];
      assert r.children[i + 1] == r.children[i..][1] == cs[i + 1];
      assert r.keyVals[i + 1..|rk|] == r.keyVals[i..|rk|][1..] && r.children[i + 1..] == r.children[i..][1..];
      r.keyVals := r.keyVals[i := r.keyVals[i + 1]];
      r.children := r.children[i := r.children[i + 1]];
      i := i + 1;
    }
    assert r.children[r.nrActive] == r.children[i..][1] == cs[r.nrActive];
    r.children := r.children[r.nrActive - 1 := r.children[r.nrActive]];
    r.nrActive := r.nrActive - 1;
  }

  /** Shifts the keys and children of `r` up by one. */
  method ShiftUp(r: Node, order: nat)
    requires r.nrActive < |r.keyVals| == 2 * order - 1 && |r.children| == 2 * order
    modifies r`keyVals, r`children
    ensures |r.keyVals| == 2 * order - 1 && |r.children| == 2 * order
    ensures r.keyVals[1..r.nrActive + 1] == old(r.keyVals)[..r.nrActive]
    ensures r.children[1..r.nrActive + 2] == old(r.children)[..r.nrActive + 1]
  {
    var i := r.nrActive;
    while i > 0
      invariant 0 <= i <= r.nrActive
      invariant |r.keyVals| == 2 * order - 1 && |r.children| == 2 * order
      invariant forall x :: i < x <= r.nrActive ==> r.keyVals[x] == old(r.keyVals)[x - 1]
      invariant forall x :: i < x <= r.nrActive ==> r.children[x + 1] == old(r.children)[x]
      invariant forall x :: 0 <= x < i ==> r.keyVals[x] == old(r.keyVals)[x]
      invariant forall x :: 0 <= x <= i ==> r.children[x] == old(r.children)[x]
    {
      r.keyVals := r.keyVals[i := r.keyVals[i - 1]];
      r.children := r.children[i + 1 := r.children[i]];
      i := i - 1;
    }
    r.children := r.children[1 := r.children[0]];
  }

  /** Puts `k` and `p` in front of the keys and children of `r`. */
  method PutFirst(r: Node, k: Key, p: Node?, order: nat, ghost rk: seq<Key>, ghost rp: seq<Node?>)
    requires r.Is(r.level, r.leaf, rk, rp, order) && |rk| < 2 * order - 1
    modifies r`nrActive, r`keyVals, r`children
    ensures r.Is(r.level, r.leaf, [k] + rk, if r.leaf then [] else [p] + rp, order)
  {
    ShiftUp(r, order);
    r.keyVals := r.keyVals[0 := k];
    r.children := r.children[0 := p];
    r.nrActive := r.nrActive + 1;
  }

  /** Moves a key of `node` down to `l` and the first key of `r` up in its place. */
  method ShiftLeft(node: Node, at: nat, l: Node, r: Node, order: nat, ghost pk: seq<Key>, ghost pp: seq<Node?>,
                   ghost lk: seq<Key>, ghost lp: seq<Node?>, ghost rk: seq<Key>, ghost rp: seq<Node?>)
    requires node != l && node != r && l != r && at < |pk| && |lk| < 2 * order - 1 && |rk| > 0
    requires node.Is(node.level, false, pk, pp, order)
    requires l.Is(l.level, l.leaf, lk, lp, order) && r.Is(r.level, l.leaf, rk, rp, order)
    modifies node`keyVals, l`nrActive, l`keyVals, l`children, r`nrActive, r`keyVals, r`children
    ensures node.Is(node.level, false, pk[at := rk[0]], pp, order)
    ensures l.Is(l.level, l.leaf, lk + [pk[at]], if l.leaf then [] else lp + rp[..1], order)
    ensures r.Is(r.level, l.leaf, rk[1..], if l.leaf then [] else rp[1..], order)
  {
    l.keyVals := l.keyVals[l.nrActive := node.keyVals[at]];
    l.children := l.children[l.nrActive + 1 := r.children[0]];
    l.nrActive := l.nrActive + 1;
    node.keyVals := node.keyVals[at := r.keyVals[0]];
    DropFirst(r, order, rk, rp);
  }

  /** Moves a key of `node` down to `r` and the last key of `l` up in its place. */
  method ShiftRight(node: Node, at: nat, l: Node, r: Node, order: nat, ghost pk: seq<Key>, ghost pp: seq<Node?>,
                    ghost lk: seq<Key>, ghost lp: seq<Node?>, ghost rk: seq<Key>, ghost rp: seq<Node?>)
    requires node != l && node != r && l != r && at < |pk| && |rk| < 2 * order - 1 && |lk| > 0
    requires node.Is(node.level, false, pk, pp, order)
    requires l.Is(l.level, l.leaf, lk, lp, order) && r.Is(r.level, l.leaf, rk, rp, order)
    modifies node`keyVals, l`nrActive, l`keyVals, l`children, r`nrActive, r`keyVals, r`children
    ensures node.Is(node.level, false, pk[at := lk[|lk| - 1]], pp, order)
    ensures l.Is(l.level, l.leaf, lk[..|lk| - 1], if l.leaf then [] else lp[..|lk|], order)
    ensures r.Is(r.level, l.leaf, [pk[at]] + rk, if l.leaf then [] else lp[|lk|..] + rp, order)
  {
    PutFirst(r, node.keyVals[at], l.children[l.nrActive], order, rk, rp);
    l.children := l.children[l.nrActive := null];
    node.keyVals := node.keyVals[at := l.keyVals[l.nrActive - 1]];
    l.nrActive := l.nrActive - 1;
  }

  datatype Position = LEFT | RIGHT

  /** Moves one key between two siblings: to the kid at `index`, from its right (LEFT) or left (RIGHT) sibling. */
  method MoveKey(node: Node, index: nat, pos: Position, order: nat, ghost p: Tree, ghost j: nat)
    requires j == (if pos == LEFT then index else index - 1) && j < |p.keys| && |p.kids| == |p.keys| + 1
    requires p.node == node && Link(p, order) && Sep(p)
    requires p.kids[j].kids == [] <==> p.kids[j + 1].kids == []
    requires p.kids[j].level == p.kids[j + 1].level
    requires var l, r := |p.kids[j].keys|, |p.kids[j + 1].keys|;
             if pos == LEFT then l < 2 * order - 1 && r > 0 else r < 2 * order - 1 && l > 0
    modifies node, p.kids[j].node, p.kids[j + 1].node
    ensures Link(Rotate(p, j, if pos == LEFT then |p.kids[j].keys| + 1 else |p.kids[j].keys| - 1), order)
  {
    var at := if pos == RIGHT then index - 1 else index;
    var lchild, rchild := node.children[at], node.children[at + 1];
    assert node.children[..|p.kids|] == Ptrs(p.kids);
    assert lchild == Ptrs(p.kids)[j] && rchild == Ptrs(p.kids)[j + 1];
    if pos == LEFT {
      MoveLeft(node, at, lchild, rchild, order, p);
    } else {
      MoveRight(node, at, lchild, rchild, order, p);
    }
  }

  method MoveLeft(node: Node, at: nat, lchild: Node, rchild: Node, order: nat, ghost p: Tree)
    requires at < |p.keys| && |p.kids| == |p.keys| + 1
    requires p.node == node && Link(p, order) && Sep(p)
    requires p.kids[at].node == lchild && p.kids[at + 1].node == rchild
    requires p.kids[at].kids == [] <==> p.kids[at + 1].kids == []
    requires p.kids[at].level == p.kids[at + 1].level
    requires |p.kids[at].keys| < 2 * order - 1 && |p.kids[at + 1].keys| > 0
    modifies node, lchild, rchild
    ensures Link(Rotate(p, at, |p.kids[at].keys| + 1), order)
  {
    ghost var l, r := p.kids[at], p.kids[at + 1];
    PairApartLink(p, at, order);
    ShiftLeft(node, at, lchild, rchild, order, p.keys, Ptrs(p.kids), l.keys, Ptrs(l.kids), r.keys, Ptrs(r.kids));
    assert LinkRest(p, at, order);
    RotateLeftLink(p, at, order);
  }

  method MoveRight(node: Node, at: nat, lchild: Node, rchild: Node, order: nat, ghost p: Tree)
    requires at < |p.keys| && |p.kids| == |p.keys| + 1
    requires p.node == node && Link(p, order) && Sep(p)
    requires p.kids[at].node == lchild && p.kids[at + 1].node == rchild
    requires p.kids[at].kids == [] <==> p.kids[at + 1].kids == []
    requires p.kids[at].level == p.kids[at + 1].level
    requires |p.kids[at + 1].keys| < 2 * order - 1 && |p.kids[at].keys| > 0
    modifies node, lchild, rchild
    ensures Link(Rotate(p, at, |p.kids[at].keys| - 1), order)
  {
    ghost var l, r := p.kids[at], p.kids[at + 1];
    PairApartLink(p, at, order);
    ShiftRight(node, at, lchild, rchild, order, p.keys, Ptrs(p.kids), l.keys, Ptrs(l.kids), r.keys, Ptrs(r.kids));
    assert LinkRest(p, at, order);
    RotateRightLink(p, at, order);
  }

  ghost predicate LinkRest(p: Tree, i: nat, order: nat)
    requires i + 1 < |p.kids|
    reads NodesOf(p.kids[..i]), NodesOf(p.kids[i + 2..]), NodesOf(p.kids[i].kids + p.kids[i + 1].kids)
  {
    && LinkKids(p.kids[..i], order) && LinkKids(p.kids[i + 2..], order)
    && LinkKids(p.kids[i].kids + p.kids[i + 1].kids, order)
  }

  lemma RotateLeftLink(p: Tree, i: nat, order: nat)
    requires i < |p.keys| && |p.kids| == |p.keys| + 1 && LinkRest(p, i, order)
    requires Shaped(p.kids[i]) && Shaped(p.kids[i + 1]) && (p.kids[i].kids == [] <==> p.kids[i + 1].kids == [])
    requires |p.kids[i + 1].keys| > 0
    requires var l, r := p.kids[i], p.kids[i + 1];
             && l.level == r.level
             && p.node.Is(p.level, false, p.keys[i := r.keys[0]], Ptrs(p.kids), order)
             && l.node.Is(l.level, l.kids == [], l.keys + [p.keys[i]],
                          if l.kids == [] then [] else Ptrs(l.kids) + Ptrs(r.kids)[..1], order)
             && r.node.Is(l.level, l.kids == [], r.keys[1..], if l.kids == [] then [] else Ptrs(r.kids)[1..], order)
    ensures Link(Rotate(p, i, |p.kids[i].keys| + 1), order)
  {
    RotateLeftParts(p, i);
    RotateLink(p, i, |p.kids[i].keys| + 1, order);
  }

  lemma RotateRightLink(p: Tree, i: nat, order: nat)
    requires i < |p.keys| && |p.kids| == |p.keys| + 1 && LinkRest(p, i, order)
    requires Shaped(p.kids[i]) && Shaped(p.kids[i + 1]) && (p.kids[i].kids == [] <==> p.kids[i + 1].kids == [])
    requires |p.kids[i].keys| > 0
    requires var l, r := p.kids[i], p.kids[i + 1];
             var n := |l.keys|;
             && l.level == r.level
             && p.node.Is(p.level, false, p.keys[i := l.keys[n - 1]], Ptrs(p.kids), order)
             && l.node.Is(l.level, l.kids == [], l.keys[..n - 1], if l.kids == [] then [] else Ptrs(l.kids)[..n], order)
             && r.node.Is(l.level, l.kids == [], [p.keys[i]] + r.keys,
                          if l.kids == [] then [] else Ptrs(l.kids)[n..] + Ptrs(r.kids), order)
    ensures Link(Rotate(p, i, |p.kids[i].keys| - 1), order)
  {
    RotateRightParts(p, i);
    RotateLink(p, i, |p.kids[i].keys| - 1, order);
  }

  /** What the three nodes of a rotation hold. */
  ghost predicate Parts(q: Tree, i: nat, keys: seq<Key>, ptrs: seq<Node?>, lk: seq<Key>, lp: seq<Node?>,
                        rk: seq<Key>, rp: seq<Node?>)
    requires i + 1 < |q.kids|
  {
    && q.keys == keys && Ptrs(q.kids) == ptrs
    && q.kids[i].keys == lk && Ptrs(q.kids[i].kids) == lp
    && q.kids[i + 1].keys == rk && Ptrs(q.kids[i + 1].kids) == rp
  }

  lemma RotateLeftParts(p: Tree, i: nat)
    requires i < |p.keys| && |p.kids| == |p.keys| + 1
    requires Shaped(p.kids[i]) && Shaped(p.kids[i + 1]) && (p.kids[i].kids == [] <==> p.kids[i + 1].kids == [])
    requires |p.kids[i + 1].keys| > 0
    ensures var l, r := p.kids[i], p.kids[i + 1];
            Parts(Rotate(p, i, |l.keys| + 1), i, p.keys[i := r.keys[0]], Ptrs(p.kids),
                  l.keys + [p.keys[i]], if l.kids == [] then [] else Ptrs(l.kids) + Ptrs(r.kids)[..1],
                  r.keys[1..], if l.kids == [] then [] else Ptrs(r.kids)[1..])
  {
    var l, r := p.kids[i], p.kids[i + 1];
    var j := Join(l, p.keys[i], r, l.node);
    RotatePtrs(p, i, |l.keys| + 1);
    hide Ptrs;
    CutPtrs(j, |l.keys| + 1, r.node);
    PtrsConcat(l.kids, r.kids);
    PtrsLength(l.kids);
    PtrsLength(r.kids);
  }

  lemma PtrsLength(ts: seq<Tree>)
    ensures |Ptrs(ts)| == |ts|
  {
  }

  lemma RotatePtrs(p: Tree, i: nat, m: nat)
    requires i < |p.keys| && i + 1 < |p.kids| && m <= |p.kids[i].keys| + |p.kids[i + 1].keys|
    ensures Ptrs(Rotate(p, i, m).kids) == Ptrs(p.kids)
  {
  }

  lemma RotateRightParts(p: Tree, i: nat)
    requires i < |p.keys| && |p.kids| == |p.keys| + 1
    requires Shaped(p.kids[i]) && Shaped(p.kids[i + 1]) && (p.kids[i].kids == [] <==> p.kids[i + 1].kids == [])
    requires |p.kids[i].keys| > 0
    ensures var l, r := p.kids[i], p.kids[i + 1];
            var n := |l.keys|;
            Parts(Rotate(p, i, n - 1), i, p.keys[i := l.keys[n - 1]], Ptrs(p.kids),
                  l.keys[..n - 1], if l.kids == [] then [] else Ptrs(l.kids)[..n],
                  [p.keys[i]] + r.keys, if l.kids == [] then [] else Ptrs(l.kids)[n..] + Ptrs(r.kids))
  {
    var l, r := p.kids[i], p.kids[i + 1];
    var j := Join(l, p.keys[i], r, l.node);
    CutPtrs(j, |l.keys| - 1, r.node);
    PtrsConcat(l.kids, r.kids);
  }

  /** Around two adjacent kids: what changes to the three nodes leave alone. */
  lemma PairApartLink(p: Tree, i: nat, order: nat)
    requires Link(p, order) && Sep(p) && i + 1 < |p.kids|
    ensures var a, l, r, b := p.kids[..i], p.kids[i], p.kids[i + 1], p.kids[i + 2..];
            && LinkRest(p, i, order) && Here(l, order) && Here(r, order)
            && p.node != l.node && p.node != r.node && l.node != r.node
            && {p.node, l.node, r.node} !! NodesOf(a) && {p.node, l.node, r.node} !! NodesOf(b)
            && {p.node, l.node, r.node} !! NodesOf(l.kids + r.kids)
            && NodesOf(a) <= Nodes(p) && NodesOf(b) <= Nodes(p) && NodesOf(l.kids + r.kids) <= Nodes(p)
    ensures forall n :: n in Nodes(p) ==> allocated(n)
  {
    var a, l, r, b := p.kids[..i], p.kids[i], p.kids[i + 1], p.kids[i + 2..];
    PairSplit(p.kids, i);
    PairNodes(a, l, r, b);
    PairSep(a, l, r, b);
    LinkConcat(l.kids, r.kids, order);
    assert Link(l, order) && Link(r, order);
    AllAllocated(p);
  }

  lemma RotateLink(p: Tree, i: nat, m: nat, order: nat)
    requires |p.kids| == |p.keys| + 1 && i < |p.keys|
    requires m <= |p.kids[i].keys| + |p.kids[i + 1].keys|
    requires Shaped(p.kids[i]) && Shaped(p.kids[i + 1]) && (p.kids[i].kids == [] <==> p.kids[i + 1].kids == [])
    requires LinkRest(p, i, order)
    requires Here(Rotate(p, i, m), order)
    requires Here(Rotate(p, i, m).kids[i], order) && Here(Rotate(p, i, m).kids[i + 1], order)
    ensures Link(Rotate(p, i, m), order)
  {
    hide Rotate, NodesOf;
    var q := Rotate(p, i, m);
    RotateKids(p, i, m);
    PairSplit(q.kids, i);
    LinkPair(p.kids[..i], q.kids[i], q.kids[i + 1], p.kids[i + 2..], order);
  }

  /** Joins kids `index` and `index + 1` of `parent` and the key between them. */
  method MergeAt(parent: Node, index: nat, order: nat, ghost p: Tree) returns (newNode: Node)
    requires order >= 2 && index < |p.keys| && |p.kids| == |p.keys| + 1
    requires p.node == parent && Link(p, order) && Sep(p) && p.kids[index].level == p.kids[index + 1].level
    requires p.kids[index].kids == [] <==> p.kids[index + 1].kids == []
    requires |p.kids[index].keys| == |p.kids[index + 1].keys| == order - 1
    modifies parent
    ensures fresh(newNode) && newNode.next == null
    ensures Link(MergeKids(p, index, newNode), order)
  {
    ghost var l, r := p.kids[index], p.kids[index + 1];
    PairApartLink(p, index, order);
    var n1, n2 := parent.children[index], parent.children[index + 1];
    assert parent.children[..|p.kids|] == Ptrs(p.kids);
    assert n1 == Ptrs(p.kids)[index] && n2 == Ptrs(p.kids)[index + 1];
    newNode := MergeNodes(n1, parent.keyVals[index], n2, order, l.keys, Ptrs(l.kids), r.keys, Ptrs(r.kids));
    parent.children := parent.children[index := newNode];
    CloseSlot(parent, index, order, p.keys, Ptrs(p.kids)[index := newNode]);
    assert LinkRest(p, index, order);
    MergeLink(p, index, newNode, order);
  }

  lemma MergeLink(p: Tree, i: nat, node: Node, order: nat)
    requires i < |p.keys| && |p.kids| == |p.keys| + 1 && LinkRest(p, i, order)
    requires Shaped(p.kids[i]) && Shaped(p.kids[i + 1]) && (p.kids[i].kids == [] <==> p.kids[i + 1].kids == [])
    requires var l, r := p.kids[i], p.kids[i + 1];
             && node.Is(l.level, l.kids == [], l.keys + [p.keys[i]] + r.keys, Ptrs(l.kids) + Ptrs(r.kids), order)
             && p.node.Is(p.level, false, p.keys[..i] + p.keys[i + 1..],
                          Ptrs(p.kids)[i := node][..i + 1] + Ptrs(p.kids)[i := node][i + 2..], order)
    ensures Link(MergeKids(p, i, node), order)
  {
    var q := MergeKids(p, i, node);
    PtrsConcat(p.kids[i].kids, p.kids[i + 1].kids);
    assert Ptrs(q.kids) == Ptrs(p.kids)[i := node][..i + 1] + Ptrs(p.kids)[i := node][i + 2..];
    assert Link(q.kids[i], order);
  }
}
