/** Searching the free-space B-tree: descent by start block, and breadth-first search for a long
    enough extent through the nodes' own links. */
module FsmSearch {
  import opened FsmKeys
  import opened FsmTree
  import opened FsmDelete
  import opened FsmExtents

  /** The nodes of `ns` are linked in that order. */
  ghost predicate Chained(ns: seq<Node>)
    reads ns
  {
    forall j :: 0 <= j < |ns| - 1 ==> ns[j].next == ns[j + 1]
  }

  ghost predicate Distinct(ns: seq<Node>) {
    forall i, j :: 0 <= i < j < |ns| ==> ns[i] != ns[j]
  }

  /** The nodes at the top of the trees of `q`. */
  ghost function Roots(q: seq<Tree>): seq<Node> {
    seq(|q|, j requires 0 <= j < |q| => q[j].node)
  }

  lemma RootsDistinct(q: seq<Tree>)
    requires SepKids(q)
    ensures Distinct(Roots(q))
    ensures forall j :: 0 <= j < |q| ==> Roots(q)[j] in NodesOf(q)
  {
    forall i, j | 0 <= i < j < |q| ensures Roots(q)[i] != Roots(q)[j] {
      assert q[i].node in Nodes(q[i]) && q[j].node in Nodes(q[j]);
    }
    forall j | 0 <= j < |q| ensures Roots(q)[j] in NodesOf(q) {
      assert q[j].node in Nodes(q[j]);
    }
  }

  /** Appends the children of `node` to the chain `ns[..m]` that ends at `last`. */
  method Enqueue(node: Node, last: Node, order: nat, ghost ns: seq<Node>, ghost m: nat) returns (tail: Node)
    requires 0 < m < |ns| && |ns| - m == node.nrActive + 1 <= |node.children| && Distinct(ns)
    requires forall j :: m <= j < |ns| ==> node.children[j - m] == ns[j]
    requires Chained(ns[..m]) && last == ns[m - 1]
    modifies ns`next
    ensures Chained(ns) && tail == ns[|ns| - 1] && tail.next == null
  {
    tail := last;
    var i := 0;
    while i < node.nrActive + 1
      invariant 0 <= i <= node.nrActive + 1 && |ns| - m == node.nrActive + 1 <= |node.children|
      invariant tail == ns[m + i - 1] && (i > 0 ==> tail.next == null)
      invariant forall j :: 0 <= j < m + i - 1 ==> ns[j].next == ns[j + 1]
    {
      assert node.children[(m + i) - m] == ns[m + i];
      tail.next := node.children[i];
      tail := node.children[i];
      tail.next := null;
      i := i + 1;
    }
  }

  /** Some tree of `q` holds `k`. */
  ghost predicate Held(q: seq<Tree>, k: Key) {
    exists j :: 0 <= j < |q| && k in Inorder(q[j])
  }

  /** Taking the first tree apart: its keys and its kids hold what it held. */
  lemma HeldNext(q: seq<Tree>, k: Key)
    requires q != [] && Shaped(q[0]) && Held(q, k)
    ensures k in q[0].keys || Held(q[1..] + q[0].kids, k)
  {
    var j :| 0 <= j < |q| && k in Inorder(q[j]);
    if j > 0 {
      assert (q[1..] + q[0].kids)[j - 1] == q[j];
    } else if q[0].kids != [] && k !in q[0].keys {
      var i := KidHolding(q[0], k);
      assert (q[1..] + q[0].kids)[|q| - 1 + i] == q[0].kids[i];
    }
  }

  lemma KidHolding(t: Tree, k: Key) returns (i: nat)
    requires |t.kids| == |t.keys| + 1 && k in Inorder(t) && k !in t.keys
    ensures i < |t.kids| && k in Inorder(t.kids[i])
  {
    var n := |t.keys|;
    if k in Inorder(t.kids[n]) {
      i := n;
    } else {
      i := PreHolding(t.kids[..n], t.keys, k);
    }
  }

  lemma {:induction false} PreHolding(ts: seq<Tree>, ks: seq<Key>, k: Key) returns (i: nat)
    requires |ts| == |ks| && k in Pre(ts, ks) && k !in ks
    ensures i < |ts| && k in Inorder(ts[i])
  {
    var m := |ts| - 1;
    assert k != ks[m];
    if k in Inorder(ts[m]) {
      i := m;
    } else {
      i := PreHolding(ts[..m], ks[..m], k);
    }
  }

  /** A key of a tree in the queue is a key of the whole. */
  ghost predicate Within(q: seq<Tree>, s: seq<Key>) {
    forall j, k :: 0 <= j < |q| && k in Inorder(q[j]) ==> k in s
  }

  /** The queue after its first tree has been replaced by its kids, at the end. */
  ghost function Popped(q: seq<Tree>): seq<Tree>
    requires q != []
  {
    q[1..] + q[0].kids
  }

  lemma PoppedSep(q: seq<Tree>, order: nat)
    requires q != [] && SepKids(q) && LinkKids(q, order)
    ensures SepKids(Popped(q)) && LinkKids(Popped(q), order) && NodesOf(Popped(q)) == NodesOf(q) - {q[0].node}
  {
    assert q == [] + [q[0]] + q[1..];
    Assemble([], q[0], q[1..]);
    NodesOfConcat(q[1..], q[0].kids);
    SepConcat(q[1..], q[0].kids);
    assert Link(q[0], order);
    assert q == [q[0]] + q[1..];
    LinkConcat([q[0]], q[1..], order);
    LinkConcat(q[1..], q[0].kids, order);
  }

  lemma PoppedRoots(q: seq<Tree>)
    requires q != [] && SepKids(q)
    ensures Distinct(Roots(q + q[0].kids)) && Roots(q + q[0].kids)[1..] == Roots(Popped(q))
    ensures Roots(q + q[0].kids) == Roots(q) + Roots(q[0].kids)
    ensures forall j :: 0 <= j < |q + q[0].kids| ==> Roots(q + q[0].kids)[j] in NodesOf(q)
  {
    var ns, ks := Roots(q), Roots(q[0].kids);
    assert q + q[0].kids == [q[0]] + Popped(q);
    assert Sep(q[0]);
    RootsDistinct(q);
    RootsDistinct(q[0].kids);
    assert Nodes(q[0]) <= NodesOf(q);
    forall j | 0 <= j < |ks| ensures ks[j] in NodesOf(q[0].kids) && ks[j] in Nodes(q[0]) && ks[j] in NodesOf(q) {
      assert q[0].kids[j].node in Nodes(q[0].kids[j]);
    }
    forall i, j | 0 <= i < |ns| && 0 <= j < |ks| ensures ns[i] != ks[j] {
      assert ks[j] in NodesOf(q[0].kids);
      assert q[i].node in Nodes(q[i]);
      if i > 0 {
        assert Nodes(q[0]) !! Nodes(q[i]);
      }
    }
    assert Roots(q + q[0].kids) == ns + ks;
    DistinctConcat(ns, ks);
  }

  lemma DistinctConcat(a: seq<Node>, b: seq<Node>)
    requires Distinct(a) && Distinct(b) && forall i, j :: 0 <= i < |a| && 0 <= j < |b| ==> a[i] != b[j]
    ensures Distinct(a + b)
  {
  }

  /** The queue of a breadth-first search: its trees are linked in order and hold whatever may fit. */
  ghost predicate Queued(q: seq<Tree>, t: Tree, order: nat, length: nat)
    reads NodesOf(q)
  {
    && SepKids(q) && LinkKids(q, order) && NodesOf(q) <= Nodes(t)
    && (forall k :: k in Inorder(t) ==> k.length < length || Held(q, k))
    && Within(q, Inorder(t))
  }

  lemma QueuedNext(q: seq<Tree>, t: Tree, order: nat, length: nat)
    requires q != [] && Queued(q, t, order, length)
    requires forall k :: k in q[0].keys ==> k.length < length
    ensures Queued(Popped(q), t, order, length) && NodesOf(Popped(q)) < NodesOf(q)
  {
    PoppedSep(q, order);
    assert q[0].node in Nodes(q[0]) && q[0].node in NodesOf(q);
    assert Link(q[0], order);
    hide SepKids, LinkKids, NodesOf;
    forall k | k in Inorder(t) ensures k.length < length || Held(Popped(q), k) {
      if k.length >= length {
        HeldNext(q, k);
      }
    }
    forall j, k | 0 <= j < |Popped(q)| && k in Inorder(Popped(q)[j]) ensures k in Inorder(t) {
      if j < |q| - 1 {
        assert Popped(q)[j] == q[j + 1];
      } else {
        InorderAt(q[0], j - (|q| - 1));
        assert k in Inorder(q[0]);
      }
    }
  }

  // Breadth-first order.

  ghost function Weight(t: Tree): nat
    decreases t, 1
  {
    1 + WeightOf(t.kids)
  }

  ghost function WeightOf(q: seq<Tree>): nat
    decreases q, 0
  {
    if q == [] then 0 else WeightOf(q[..|q| - 1]) + Weight(q[|q| - 1])
  }

  lemma {:induction false} WeightConcat(a: seq<Tree>, b: seq<Tree>)
    ensures WeightOf(a + b) == WeightOf(a) + WeightOf(b)
    decreases |b|
  {
    if b == [] {
      assert a + b == a;
    } else {
      assert (a + b)[..|a + b| - 1] == a + b[..|b| - 1];
      WeightConcat(a, b[..|b| - 1]);
    }
  }

  lemma PoppedWeight(q: seq<Tree>)
    requires q != []
    ensures WeightOf(Popped(q)) < WeightOf(q)
  {
    WeightConcat(q[1..], q[0].kids);
    assert q == [q[0]] + q[1..];
    WeightConcat([q[0]], q[1..]);
    assert [q[0]][..0] == [];
  }

  /** The keys of the trees of `q`, level by level. */
  ghost function Wide(q: seq<Tree>): seq<Key>
    decreases WeightOf(q)
  {
    if q == [] then [] else PoppedWeight(q); q[0].keys + Wide(Popped(q))
  }

  /** `key` is the first of `ks` with at least `length` blocks. */
  ghost predicate FirstLong(ks: seq<Key>, length: nat, key: Key) {
    exists i :: 0 <= i < |ks| && ks[i] == key && key.length >= length
                && forall j :: 0 <= j < i ==> ks[j].length < length
  }

  /** The search has seen keys that are too short, and the trees of `q` are left. */
  ghost predicate Seen(t: Tree, q: seq<Tree>, length: nat) {
    exists seen :: Wide([t]) == seen + Wide(q) && forall k :: k in seen ==> k.length < length
  }

  lemma SeenMore(t: Tree, q: seq<Tree>, length: nat)
    requires Seen(t, q, length) && q != [] && forall k :: k in q[0].keys ==> k.length < length
    ensures Seen(t, Popped(q), length)
  {
    var seen :| Wide([t]) == seen + Wide(q) && forall k :: k in seen ==> k.length < length;
    var more := seen + q[0].keys;
    assert Wide([t]) == more + Wide(Popped(q));
  }

  lemma SeenFound(t: Tree, q: seq<Tree>, length: nat, i: nat)
    requires Seen(t, q, length) && q != [] && i < |q[0].keys| && q[0].keys[i].length >= length
    requires forall j :: 0 <= j < i ==> q[0].keys[j].length < length
    ensures FirstLong(Wide([t]), length, q[0].keys[i])
  {
    var seen :| Wide([t]) == seen + Wide(q) && forall k :: k in seen ==> k.length < length;
    var all, n := Wide([t]), |seen| + i;
    assert all[n] == q[0].keys[i];
    forall j | 0 <= j < n ensures all[j].length < length {
      assert all[j] == if j < |seen| then seen[j] else q[0].keys[j - |seen|];
    }
  }

  lemma SeenNothing(t: Tree, length: nat)
    ensures Seen(t, [t], length)
  {
    assert Wide([t]) == [] + Wide([t]);
  }

  /** The first key of `node` that is long enough. */
  method ScanLengths(node: Node, length: nat, order: nat, ghost t: Tree) returns (found: bool, key: Key)
    requires t.node == node && Here(t, order)
    ensures found ==> exists i :: 0 <= i < |t.keys| && t.keys[i] == key && key.length >= length
                                  && forall j :: 0 <= j < i ==> t.keys[j].length < length
    ensures !found ==> forall k :: k in t.keys ==> k.length < length
  {
    found, key := false, Key(0, 0);
    assert node.keyVals[..|t.keys|] == t.keys;
    var i := 0;
    while i < node.nrActive
      invariant i <= |t.keys| && forall j :: 0 <= j < i ==> t.keys[j].length < length
    {
      if length <= node.keyVals[i].length {
        assert node.keyVals[i] == t.keys[i];
        return true, node.keyVals[i];
      }
      i := i + 1;
    }
  }

  /** The links spell out the queue, from `node` to `tail`. */
  ghost predicate Linked(q: seq<Tree>, node: Node?, tail: Node, t: Tree)
    reads NodesOf(q), Roots(q), tail
  {
    && Chained(Roots(q)) && node == (if q == [] then null else q[0].node)
    && (q != [] ==> tail == q[|q| - 1].node && (tail.next == null || (q == [t] && t.kids != [])))
  }

  /** One step of the search: the kids of the first node are appended and the next node is taken. */
  method Advance(node: Node, last: Node, order: nat, ghost q: seq<Tree>, ghost t: Tree)
      returns (next: Node?, tail: Node)
    requires q != [] && SepKids(q) && Here(q[0], order) && Linked(q, node, last, t)
    modifies NodesOf(q)`next
    ensures Linked(Popped(q), next, tail, t)
    ensures q[0].kids == [] ==> node.next == old(node.next)
  {
    hide SepKids, Nodes, NodesOf;
    PoppedRoots(q);
    ghost var ns := Roots(q + q[0].kids);
    assert ns[0] == node && ns[|q| - 1] == last && ns[..|q|] == Roots(q);
    tail := last;
    if !node.leaf {
      assert node.children[..|q[0].kids|] == Ptrs(q[0].kids);
      assert forall j :: |q| <= j < |ns| ==> node.children[j - |q|] == ns[j];
      tail := Enqueue(node, last, order, ns, |q|);
    }
    next := node.next;
    AdvanceLinked(q, ns, next, tail, t);
  }

  lemma AdvanceLinked(q: seq<Tree>, ns: seq<Node>, next: Node?, tail: Node, t: Tree)
    requires q != [] && ns == Roots(q + q[0].kids) && Roots(Popped(q)) == ns[1..] && Chained(ns) && next == ns[0].next
    requires tail == ns[|ns| - 1] && (tail.next == null || q[0].kids == [])
    requires q[0].kids == [] ==> tail.next == null || (q == [t] && t.kids != [])
    ensures Linked(Popped(q), next, tail, t)
  {
    var p := Popped(q);
    assert forall j :: 0 <= j < |p| ==> p[j].node == Roots(p)[j] == ns[j + 1];
  }

  /** Breadth-first search for an extent of at least `length` blocks. */
  method FirstFit(root: Node, length: nat, order: nat, ghost t: Tree) returns (found: bool, key: Key)
    requires t.node == root && Link(t, order) && Sep(t) && (t.kids == [] ==> root.next == null)
    modifies Nodes(t)`next
    ensures found ==> key in Inorder(t) && key.length >= length && FirstLong(Wide([t]), length, key)
    ensures !found ==> forall k :: k in Inorder(t) ==> k.length < length
    ensures t.kids == [] ==> root.next == null
  {
    found, key := false, Key(0, 0);
    var node: Node? := root;
    var tail := root;
    ghost var q := [t];
    StartQueue(t, order, length);
    SeenNothing(t, length);
    hide Seen, Wide, FirstLong;
    while node != null && !found
      invariant !found ==> Queued(q, t, order, length) && Linked(q, node, tail, t) && Seen(t, q, length)
      invariant found ==> key in Inorder(t) && key.length >= length && FirstLong(Wide([t]), length, key)
      invariant t.kids == [] ==> root.next == null && (q == [] || q == [t])
      decreases NodesOf(q), !found
    {
      found, key, node, tail, q := SearchStep(node, tail, length, order, q, t);
    }
  }

  /** Looks at the first node of the queue and moves on to the next. */
  method SearchStep(node: Node, last: Node, length: nat, order: nat, ghost q: seq<Tree>, ghost t: Tree)
      returns (found: bool, key: Key, next: Node?, tail: Node, ghost q': seq<Tree>)
    requires q != [] && Queued(q, t, order, length) && Linked(q, node, last, t) && Seen(t, q, length)
    modifies NodesOf(q)`next
    ensures found ==> key in Inorder(t) && key.length >= length && q' == q && FirstLong(Wide([t]), length, key)
    ensures !found ==> Queued(q', t, order, length) && Linked(q', next, tail, t) && NodesOf(q') < NodesOf(q)
    ensures !found ==> Seen(t, q', length)
    ensures q[0].kids == [] ==> node.next == old(node.next) && (q' == q || q' == q[1..])
  {
    hide Seen, Wide, FirstLong;
    next, tail, q' := node, last, q;
    KidsAllocated(q);
    assert Link(q[0], order);
    found, key := ScanLengths(node, length, order, q[0]);
    if found {
      ghost var i :| 0 <= i < |q[0].keys| && q[0].keys[i] == key && key.length >= length
                     && forall j :: 0 <= j < i ==> q[0].keys[j].length < length;
      SeenFound(t, q, length, i);
      InQueue(q, t, order, length, key);
    } else {
      SeenMore(t, q, length);
      QueuedNext(q, t, order, length);
      next, tail := Advance(node, last, order, q, t);
      q' := Popped(q);
    }
  }

  lemma StartQueue(t: Tree, order: nat, length: nat)
    requires Link(t, order) && Sep(t) && (t.kids == [] ==> t.node.next == null)
    ensures Queued([t], t, order, length) && Linked([t], t.node, t.node, t)
  {
    var q := [t];
    Singleton(t);
    assert Roots(q) == [t.node];
    assert forall k :: k in Inorder(t) ==> k in Inorder(q[0]);
  }

  lemma InQueue(q: seq<Tree>, t: Tree, order: nat, length: nat, k: Key)
    requires q != [] && Queued(q, t, order, length) && k in q[0].keys
    ensures k in Inorder(t)
  {
    assert Link(q[0], order);
    var i :| 0 <= i < |q[0].keys| && q[0].keys[i] == k;
    KeysInInorder(q[0], i);
  }

  // Descent by start block.

  /** The first key of `node` that does not start before `start`. */
  method FindStart(node: Node, start: nat, order: nat, ghost t: Tree) returns (i: nat)
    requires t.node == node && Here(t, order)
    ensures i <= |t.keys| && (i > 0 ==> t.keys[i - 1].offset < start) && (i < |t.keys| ==> start <= t.keys[i].offset)
  {
    i := 0;
    assert node.keyVals[..|t.keys|] == t.keys;
    while i < node.nrActive && start > node.keyVals[i].offset
      invariant i <= |t.keys| && (i > 0 ==> t.keys[i - 1].offset < start)
    {
      i := i + 1;
    }
  }

  /** The extent that starts at `start`, if it is at least `length` blocks long. */
  method ExtentAt(root: Node, start: nat, length: nat, order: nat, ghost t: Tree) returns (found: bool, key: Key)
    requires order >= 2 && t.node == root && Link(t, order) && Bal(t, order, 1) && Extents(Inorder(t))
    ensures found ==> key in Inorder(t) && key.offset == start && key.length >= length
    ensures !found ==> forall k :: k in Inorder(t) && k.offset == start ==> k.length < length
  {
    var node := root;
    ghost var u := t;
    while true
      invariant u.node == node && Link(u, order) && Bal(u, order, 1) && Extents(Inorder(u))
      invariant forall k :: k in Inorder(u) ==> k in Inorder(t)
      invariant forall k :: k in Inorder(t) && k.offset == start && k.length >= length ==> k in Inorder(u)
      decreases u.level
    {
      AllAllocated(u);
      var i := FindStart(node, start, order, u);
      assert Link(u, order);
      assert node.keyVals[..|u.keys|] == u.keys;
      if i < node.nrActive && node.keyVals[i].offset == start && length <= node.keyVals[i].length {
        KeysInInorder(u, i);
        return true, node.keyVals[i];
      }
      if node.leaf {
        LeafStart(u, i, start, length);
        return false, Key(0, 0);
      }
      StartBelow(u, i, start, length, order);
      KidsAt(u, i, order);
      KidSound(u, i, order);
      node := node.children[i];
      u := u.kids[i];
    }
  }

  lemma KidSound(t: Tree, i: nat, order: nat)
    requires order >= 2 && Link(t, order) && Bal(t, order, 1) && i < |t.kids|
    ensures Link(t.kids[i], order) && Bal(t.kids[i], order, 1) && t.kids[i].level < t.level
  {
    assert Bal(t.kids[i], order, order - 1);
  }

  lemma LeafStart(t: Tree, i: nat, start: nat, length: nat)
    requires t.kids == [] && Extents(Inorder(t)) && i <= |t.keys|
    requires (i > 0 ==> t.keys[i - 1].offset < start) && (i < |t.keys| ==> start <= t.keys[i].offset)
    requires !(i < |t.keys| && t.keys[i].offset == start && length <= t.keys[i].length)
    ensures forall k :: k in Inorder(t) && k.offset == start ==> k.length < length
  {
    assert forall j :: 0 <= j < i - 1 ==> Lt(t.keys[j], t.keys[i - 1]);
    assert forall j :: i < j < |t.keys| ==> Lt(t.keys[i], t.keys[j]);
    assert forall j :: i < j < |t.keys| ==> Apart(t.keys[i], t.keys[j]);
  }

  lemma StartBelow(t: Tree, i: nat, start: nat, length: nat, order: nat)
    requires order >= 2 && Bal(t, order, 1) && t.level > 0 && Extents(Inorder(t)) && i <= |t.keys|
    requires (i > 0 ==> t.keys[i - 1].offset < start) && (i < |t.keys| ==> start <= t.keys[i].offset)
    requires !(i < |t.keys| && t.keys[i].offset == start && length <= t.keys[i].length)
    ensures Extents(Inorder(t.kids[i]))
    ensures forall k :: k in Inorder(t.kids[i]) ==> k in Inorder(t)
    ensures forall k :: k in Inorder(t) && k.offset == start && k.length >= length ==> k in Inorder(t.kids[i])
  {
    InorderAt(t, i);
    SortedMiddle(Pre(t.kids[..i], t.keys[..i]), Inorder(t.kids[i]), Suf(t.keys[i..], t.kids[i + 1..]));
    forall k | k in Inorder(t) && k.offset == start && k.length >= length ensures k in Inorder(t.kids[i]) {
      if i < |t.keys| {
        KeysInInorder(t, i);
        assert k == t.keys[i] || Apart(k, t.keys[i]);
      }
      Locate(t, i, k);
    }
  }

  // Looking for a neighbour of a range that is given back. Only the right spine is walked.

  datatype Neighbour = Nowhere | EndsThere | StartsThere

  /** The keys of the nodes on the right edge of `t`, from the root down. */
  ghost function Edge(t: Tree): seq<seq<Key>> {
    [t.keys] + if |t.kids| == |t.keys| + 1 then Edge(t.kids[|t.keys|]) else []
  }

  lemma {:induction false} EdgeHeld(t: Tree, order: nat, ks: seq<Key>, k: Key)
    requires Bal(t, order, 0) && ks in Edge(t) && k in ks
    ensures k in Inorder(t)
  {
    if ks == t.keys {
      var i :| 0 <= i < |t.keys| && t.keys[i] == k;
      KeysInInorder(t, i);
    } else {
      var n := |t.keys|;
      assert ks in Edge(t.kids[n]);
      assert Bal(t.kids[n], order, order - 1);
      EdgeHeld(t.kids[n], order, ks, k);
    }
  }

  /** None of the keys touches the range. */
  ghost predicate Clear(nodes: seq<seq<Key>>, off: nat, len: nat) {
    forall x :: 0 <= x < |nodes| ==> Touching(nodes[x], off, len) == |nodes[x]|
  }

  /** The first key of `node` that ends at `off` or starts at `off + len`. */
  method ScanNeighbour(node: Node, off: nat, len: nat, order: nat, ghost t: Tree) returns (hit: Neighbour, i: nat)
    requires t.node == node && Here(t, order)
    ensures i == Touching(t.keys, off, len) && (hit.Nowhere? <==> i == |t.keys|)
    ensures hit.EndsThere? ==> t.keys[i].offset + t.keys[i].length == off
    ensures hit.StartsThere? ==> t.keys[i].offset + t.keys[i].length != off && off + len == t.keys[i].offset
  {
    assert node.keyVals[..|t.keys|] == t.keys;
    i := 0;
    while i < node.nrActive
      invariant i <= |t.keys| && forall j :: 0 <= j < i ==> !Touches(t.keys[j], off, len)
    {
      assert node.keyVals[i] == t.keys[i];
      if off == node.keyVals[i].offset + node.keyVals[i].length {
        TouchingIs(t.keys, off, len, i);
        return EndsThere, i;
      }
      if off + len == node.keyVals[i].offset {
        TouchingIs(t.keys, off, len, i);
        return StartsThere, i;
      }
      i := i + 1;
    }
    TouchingIs(t.keys, off, len, i);
    hit := Nowhere;
  }

  /** The walk has come to `u`, the `d`th node of the right edge, past keys that do not touch the range. */
  ghost predicate Walked(t: Tree, u: Tree, d: nat, off: nat, len: nat) {
    d <= |Edge(t)| && Edge(t)[d..] == Edge(u) && Clear(Edge(t)[..d], off, len)
  }

  lemma WalkStart(t: Tree, off: nat, len: nat)
    ensures Walked(t, t, 0, off, len)
  {
  }

  lemma WalkHere(t: Tree, u: Tree, d: nat, off: nat, len: nat)
    requires Walked(t, u, d, off, len)
    ensures d < |Edge(t)| && Edge(t)[d] == u.keys && Clear(Edge(t)[..d], off, len)
    ensures Touching(u.keys, off, len) == |u.keys| && u.kids == [] ==> Clear(Edge(t), off, len)
    ensures Touching(u.keys, off, len) == |u.keys| && |u.kids| == |u.keys| + 1 ==>
              Walked(t, u.kids[|u.keys|], d + 1, off, len)
  {
    var edge := Edge(t);
    assert edge[d..][0] == u.keys;
    assert edge[..d + 1] == edge[..d] + [u.keys];
    assert edge[d + 1..] == edge[d..][1..];
    if u.kids == [] {
      assert edge == edge[..d + 1];
    }
  }

  method FindNeighbour(root: Node, off: nat, len: nat, order: nat, ghost t: Tree)
      returns (hit: Neighbour, node: Node, i: nat, ghost c: Ctx, ghost u: Tree, ghost d: nat)
    requires t.node == root && Focus(Top, t, order)
    ensures Focus(c, u, order) && u.node == node && Plug(c, u) == t && CtxNodes(c) + Nodes(u) == Nodes(t)
    ensures hit.EndsThere? ==> i < |u.keys| && u.keys[i].offset + u.keys[i].length == off
    ensures hit.StartsThere? ==> i < |u.keys| && u.keys[i].offset + u.keys[i].length != off
                                 && off + len == u.keys[i].offset
    ensures hit.Nowhere? ==> Clear(Edge(t), off, len)
    ensures !hit.Nowhere? ==> d < |Edge(t)| && Clear(Edge(t)[..d], off, len) && Edge(t)[d] == u.keys
                              && i == Touching(u.keys, off, len)
  {
    hide Walked, Edge, Clear, Touching, Inorder;
    node := root;
    c, u := Top, t;
    d := 0;
    WalkStart(t, off, len);
    AllAllocated(t);
    while true
      invariant Focus(c, u, order) && u.node == node && Plug(c, u) == t && CtxNodes(c) + Nodes(u) == Nodes(t)
      invariant Walked(t, u, d, off, len)
      decreases u.level
    {
      hit, i := ScanNeighbour(node, off, len, order, u);
      assert LinkCtx(c, node, order) && Link(u, order);
      WalkHere(t, u, d, off, len);
      if !hit.Nowhere? || node.leaf {
        return;
      }
      assert node.children[..|u.kids|] == Ptrs(u.kids);
      node := node.children[i];
      assert node == Ptrs(u.kids)[i];
      FocusDown(c, u, i, order);
      DownBal(c, u, i, order);
      c, u := Down(c, u, i), u.kids[i];
      d := d + 1;
    }
  }

  /** The keys before and after key `i` of the node in focus. */
  lemma AroundKey(c: Ctx, u: Tree, i: nat, order: nat, j: Key)
    requires BalCtx(c, order, u.level) && Shaped(u) && i < |u.keys|
    ensures var a := Before(c, order, u.level) + Inorder(Lower(u, i));
            var b := Inorder(Upper(u, i, u.node)) + After(c, order, u.level);
            && Inorder(Plug(c, u)) == a + [u.keys[i]] + b
            && Inorder(Plug(c, u.(keys := u.keys[i := j]))) == a + [j] + b
  {
    var u' := u.(keys := u.keys[i := j]);
    PlugInorder(c, u, order);
    PlugInorder(c, u', order);
    InorderCut(u, i, u.node);
    InorderCut(u', i, u.node);
    InorderSame(Lower(u, i), Lower(u', i));
    InorderSame(Upper(u, i, u.node), Upper(u', i, u.node));
    Regroup(Before(c, order, u.level), Inorder(Lower(u, i)), [u.keys[i]], Inorder(Upper(u, i, u.node)),
            After(c, order, u.level));
    Regroup(Before(c, order, u.level), Inorder(Lower(u, i)), [j], Inorder(Upper(u, i, u.node)),
            After(c, order, u.level));
  }
}
