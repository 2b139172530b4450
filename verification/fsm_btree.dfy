/** The free-space B-tree: single-pass insert and delete on nodes in memory. */
module FsmBtree {
  import opened FsmKeys
  import opened FsmTree
  import opened FsmNodes
  import opened FsmDelete
  import opened FsmInsert
  import opened FsmExtents
  import opened FsmSearch

  datatype MaybeTree = NoTree | Some(t: Tree)

  class Btree {
    const order: nat
    var root: Node?
    ghost var tree: MaybeTree
    ghost var repr: set<Node>

    ghost predicate Valid()
      reads this, repr
    {
      && order >= 2
      && (tree.NoTree? ==> root == null && repr == {})
      && (tree.Some? ==>
            && root == tree.t.node && repr == Nodes(tree.t) && Focus(Top, tree.t, order) && Sorted(Inorder(tree.t))
            && (tree.t.kids == [] ==> tree.t.node.next == null))
    }

    /** The free extents in the tree, in order. */
    ghost function Contents(): seq<Key>
      reads this
    {
      if tree.NoTree? then [] else Inorder(tree.t)
    }

    constructor (order: nat)
      requires order >= 2
      ensures Valid() && Contents() == [] && this.order == order && repr == {}
    {
      this.order := order;
      root, tree, repr := null, NoTree, {};
    }

    /** Merges the kid at `index` of `parent` with a sibling; a root that is left without keys gives way. */
    method MergeSiblings(parent: Node, index: nat, k: Key, ghost c: Ctx, ghost p: Tree)
        returns (node: Node, ghost c': Ctx, ghost t': Tree)
      requires p.node == parent && Link(p, order) && LinkCtx(c, parent, order)
      requires Sound(c, p, order) && Between(p, index, k) && root == RootOf(c, parent)
      requires forall x :: index - 1 <= x <= index + 1 && 0 <= x < |p.kids| ==> |p.kids[x].keys| == order - 1
      modifies this`root, parent
      ensures Stepped(c, p, c', t', order, k) && t'.node == node && root == RootOf(c', node)
      ensures CtxNodes(c') + Nodes(t') <= CtxNodes(c) + Nodes(p) + {node} && fresh(node)
      ensures c'.Top? ==> node.next == null
    {
      BetweenAround(p, index, k);
      var j := if index == parent.nrActive then index - 1 else index;
      node, c', t' := StepMerge(parent, j, k, order, c, p);
      if parent.nrActive == 0 && root == parent {
        root := node;
      }
    }

    /** One step of the search for `k`, to kid `i` of `parent`, making sure the kid can lose a key. */
    method Descend(parent: Node, i: nat, k: Key, ghost c: Ctx, ghost p: Tree)
        returns (node: Node, ghost c': Ctx, ghost t': Tree, ghost extra: set<Node>)
      requires p.node == parent && Link(p, order) && LinkCtx(c, parent, order)
      requires Sound(c, p, order) && Between(p, i, k) && root == RootOf(c, parent)
      modifies this`root, Nodes(p)
      ensures Stepped(c, p, c', t', order, k) && t'.node == node && root == RootOf(c', node)
      ensures CtxNodes(c') + Nodes(t') <= CtxNodes(c) + Nodes(p) + extra && fresh(extra)
      ensures c'.Top? ==> node.next == null
    {
      hide Stepped, Inorder;
      KidsAt(p, i, order);
      extra := {};
      node := parent.children[i];
      var lsibling := if i > 0 then parent.children[i - 1] else null;
      var rsibling := if i < parent.nrActive then parent.children[i + 1] else null;
      if node.nrActive == order - 1 {
        if rsibling != null && rsibling.nrActive > order - 1 {
          c', t' := StepBorrow(parent, i, k, order, c, p);
        } else if lsibling != null && lsibling.nrActive > order - 1 {
          c', t' := StepLend(parent, i, k, order, c, p);
        } else {
          node, c', t' := MergeSiblings(parent, i, k, c, p);
          extra := {node};
        }
      } else {
        StepPlain(c, p, i, order, k);
        c', t' := Down(c, p, i), p.kids[i];
      }
    }

    /** `k` was found at `index` of an inner node: it moves one level down. */
    method PushDown(node: Node, index: nat, k: Key, ghost c: Ctx, ghost t: Tree)
        returns (child: Node, ghost c': Ctx, ghost t': Tree, ghost extra: set<Node>)
      requires t.node == node && Link(t, order) && LinkCtx(c, node, order) && Sound(c, t, order)
      requires t.level > 0 && index < |t.keys| && k == t.keys[index] && root == RootOf(c, node)
      modifies this`root, Nodes(t)
      ensures Stepped(c, t, c', t', order, k) && t'.node == child && root == RootOf(c', child)
      ensures CtxNodes(c') + Nodes(t') <= CtxNodes(c) + Nodes(t) + extra && fresh(extra)
      ensures c'.Top? ==> child.next == null
    {
      KidsAt(t, index, order);
      extra := {};
      if node.children[index].nrActive > order - 1 {
        child, c', t' := StepSwapMax(node, index, k, order, c, t);
      } else if node.children[index + 1].nrActive > order - 1 {
        child, c', t' := StepSwapMin(node, index, k, order, c, t);
      } else {
        AtKeyAround(t, index);
        child, c', t' := StepMerge(node, index, k, order, c, t);
        extra := {child};
        if node.nrActive == 0 && root == node {
          root := child;
        }
      }
    }

    /** Takes over the tree in focus after a descent. */
    ghost method Settle(c: Ctx, t: Tree)
      requires order >= 2 && Focus(c, t, order) && root == RootOf(c, t.node) && Sorted(Inorder(Plug(c, t)))
      requires c.Top? && t.kids == [] ==> t.node.next == null
      modifies this`tree, this`repr
      ensures Valid() && repr == CtxNodes(c) + Nodes(t) && Contents() == Inorder(Plug(c, t))
      ensures tree == Some(Plug(c, t))
    {
      FocusPlug(c, t, order);
      PlugShape(c, t, t);
      tree := Some(Plug(c, t));
      repr := Nodes(tree.t);
      if c.In? {
        assert tree.t.kids != [] by { PlugInner(c, t); }
      }
    }

    /** Removes key `pos` of a leaf that can lose one. */
    method RemoveKeyFromLeaf(node: Node, pos: nat, k: Key, ghost c: Ctx, ghost t: Tree)
      requires t.node == node && At(c, t, order) && order >= 2 && t.kids == [] && root == RootOf(c, node)
      requires pos < |t.keys| && t.keys[pos] == k && Sorted(Goal(c, t, order, k))
      requires c.Top? ==> node.next == null
      modifies this, node
      ensures Valid() && Contents() == Goal(c, t, order, k)
      ensures repr <= CtxNodes(c) + Nodes(t)
    {
      ShrinkLeaf(node, pos, order, c, t);
      ghost var l := t.(keys := t.keys[..pos] + t.keys[pos + 1..]);
      LeafWithout(t.keys, pos);
      if node.nrActive == 0 && root == node {
        root := null;
        tree, repr := NoTree, {};
      } else {
        assert Focus(c, l, order);
        PlugInorder(c, l, order);
        Settle(c, l);
      }
    }

    /** A deletion of `k` in progress at `node`: finishing it below would leave `goal`. */
    ghost predicate Deleting(node: Node, c: Ctx, t: Tree, k: Key, goal: seq<Key>)
      reads this, CtxNodes(c), Nodes(t)
    {
      && order >= 2 && t.node == node && At(c, t, order) && root == RootOf(c, node)
      && (c.Top? && t.kids == [] ==> node.next == null)
      && Goal(c, t, order, k) == goal
    }

    /** One round of the deletion: it ends, or goes on one level down. */
    method DeleteRound(node: Node, k: Key, ghost c: Ctx, ghost t: Tree, ghost goal: seq<Key>)
        returns (done: bool, next: Node, ghost c': Ctx, ghost t': Tree, ghost extra: set<Node>)
      requires Deleting(node, c, t, k, goal) && Sorted(goal)
      modifies this, Nodes(t)
      ensures fresh(extra)
      ensures done ==> Valid() && Contents() == goal && repr <= CtxNodes(c) + Nodes(t)
      ensures !done ==> Deleting(next, c', t', k, goal) && t'.level < t.level
      ensures !done ==> CtxNodes(c') + Nodes(t') <= CtxNodes(c) + Nodes(t) + extra
    {
      done, next, c', t', extra := true, node, c, t, {};
      AllAllocated(t);
      CtxAllocated(c);
      var index := FindIndex(node, k, order, t);
      assert Link(t, order) && LinkCtx(c, node, order);
      assert node.keyVals[..|t.keys|] == t.keys;
      if index < node.nrActive && node.keyVals[index] == k {
        if node.leaf {
          RemoveKeyFromLeaf(node, index, k, c, t);
        } else {
          done := false;
          next, c', t', extra := PushDown(node, index, k, c, t);
        }
      } else if node.leaf {
        AbsentLeaf(c, t, index, k, order);
        Settle(c, t);
      } else {
        done := false;
        next, c', t', extra := Descend(node, index, k, c, t);
      }
    }

    /** Removes `key` in one pass from the root to a leaf. */
    method Delete(key: Key)
      requires Valid()
      modifies this, repr
      ensures Valid() && Contents() == Without(old(Contents()), key)
      ensures fresh(repr - old(repr))
    {
      if root == null {
        return;
      }
      hide Without, Inorder, Sorted, Link, Sep, Bal;
      var node: Node := root;
      ghost var c, t, goal, all := Top, tree.t, Without(Contents(), key), repr;
      WithoutSorted(Contents(), key);
      assert Goal(c, t, order, key) == goal;
      var done := false;
      while !done
        invariant fresh(all - old(repr))
        invariant !done ==> Deleting(node, c, t, key, goal) && CtxNodes(c) + Nodes(t) <= all
        invariant done ==> Valid() && Contents() == goal && repr <= all
        decreases !done, t.level
      {
        ghost var extra;
        done, node, c, t, extra := DeleteRound(node, key, c, t, goal);
        all := all + extra;
      }
    }

    /** An insertion of `k` in progress at `node`, which is not full; the tree holds `s`. */
    ghost predicate Inserting(node: Node, c: Ctx, t: Tree, k: Key, s: seq<Key>)
      reads this, CtxNodes(c), Nodes(t)
    {
      && order >= 2 && t.node == node && root == RootOf(c, node) && |t.keys| < 2 * order - 1
      && Fits(c, t, order, k, s)
      && (Focus(c, t, order) || (c.Top? && t.level == 0 && t.keys == [] && t.kids == [] && Link(t, order)))
      && (c.Top? && t.kids == [] ==> node.next == null)
    }

    /** Ends an insertion that found its key. */
    ghost method GiveUp(c: Ctx, t: Tree, k: Key, s: seq<Key>)
      requires order >= 2 && Focus(c, t, order) && root == RootOf(c, t.node) && Fits(c, t, order, k, s)
      requires c.Top? && t.kids == [] ==> t.node.next == null
      modifies this`tree, this`repr
      ensures Valid() && Contents() == s && repr == CtxNodes(c) + Nodes(t)
    {
      PlugInorder(c, t, order);
      Settle(c, t);
    }

    method InsertLeaf(node: Node, k: Key, ghost c: Ctx, ghost t: Tree, ghost s: seq<Key>) returns (found: bool)
      requires Inserting(node, c, t, k, s) && t.kids == []
      modifies this`tree, this`repr, node
      ensures Valid() && repr == CtxNodes(c) + Nodes(t)
      ensures found <==> k in s
      ensures Contents() == if found then s else With(s, k)
    {
      FitsSorted(c, t, order, k, s);
      AllAllocated(t);
      CtxAllocated(c);
      var pos;
      found, pos := LeafPosition(node, k, order, t);
      if found {
        assert Focus(c, t, order);
        GiveUp(c, t, k, s);
      } else {
        assert Link(t, order) && LinkCtx(c, node, order);
        PutInLeaf(node, pos, k, c, t, s);
      }
    }

    method PutInLeaf(node: Node, pos: nat, k: Key, ghost c: Ctx, ghost t: Tree, ghost s: seq<Key>)
      requires Inserting(node, c, t, k, s) && t.kids == [] && t.level == 0 && pos <= |t.keys|
      requires AllBelow(t.keys[..pos], k) && AllAbove(k, t.keys[pos..])
      modifies this`tree, this`repr, node
      ensures Valid() && repr == CtxNodes(c) + Nodes(t) && k !in s && Contents() == With(s, k)
    {
      LeafWith(c, t, pos, order, k, s);
      ghost var l := t.(keys := t.keys[..pos] + [k] + t.keys[pos..]);
      GrowLeaf(node, pos, k, order, c, t);
      GrownFocus(c, t, l, order);
      PlugInorder(c, l, order);
      Settle(c, l);
    }

    /** One step of an insertion at an inner node: `k` is there, or the insertion goes on at a kid. */
    method InsertInner(node: Node, k: Key, ghost c: Ctx, ghost t: Tree, ghost s: seq<Key>)
        returns (found: bool, next: Node, ghost c': Ctx, ghost t': Tree, ghost extra: set<Node>)
      requires Inserting(node, c, t, k, s) && t.level > 0
      modifies this`tree, this`repr, Nodes(t)
      ensures fresh(extra)
      ensures found ==> k in s && Valid() && Contents() == s && repr == CtxNodes(c) + Nodes(t)
      ensures !found ==> Inserting(next, c', t', k, s) && t'.level < t.level
      ensures !found ==> CtxNodes(c') + Nodes(t') <= CtxNodes(c) + Nodes(t) + extra
    {
      next, c', t', extra := node, c, t, {};
      AllAllocated(t);
      CtxAllocated(c);
      var i;
      found, i := KidPosition(node, k, order, t);
      assert Link(t, order) && LinkCtx(c, node, order);
      if found {
        FoundHere(c, t, i, order, k, s);
        GiveUp(c, t, k, s);
        return;
      }
      KidsAt(t, i, order);
      var child := node.children[i];
      if child.nrActive == 2 * order - 1 {
        found, next, c', t', extra := InsertSplit(node, i, child, k, c, t, s);
      } else {
        FitsDown(c, t, i, order, k, s);
        FocusDown(c, t, i, order);
        next, c', t' := child, Down(c, t, i), t.kids[i];
      }
    }

    /** The kid `k` belongs to is full: unless `k` is one of its keys, it is split. */
    method InsertSplit(node: Node, i: nat, child: Node, k: Key, ghost c: Ctx, ghost t: Tree, ghost s: seq<Key>)
        returns (found: bool, next: Node, ghost c': Ctx, ghost t': Tree, ghost extra: set<Node>)
      requires Inserting(node, c, t, k, s) && Focus(c, t, order) && t.level > 0 && Between(t, i, k)
      requires t.kids[i].node == child && |t.kids[i].keys| == 2 * order - 1
      modifies this`tree, this`repr, Nodes(t)
      ensures fresh(extra)
      ensures found ==> k in s && Valid() && Contents() == s && repr == CtxNodes(c) + Nodes(t)
      ensures !found ==> Inserting(next, c', t', k, s) && t'.level < t.level
      ensures !found ==> CtxNodes(c') + Nodes(t') <= CtxNodes(c) + Nodes(t) + extra
    {
      next, c', t', extra := node, c, t, {};
      AllAllocated(t);
      CtxAllocated(c);
      ghost var j;
      found, j := ScanChild(child, i, k, order, c, t, s);
      assert Link(t, order) && LinkCtx(c, node, order);
      if found {
        GiveUp(c, t, k, s);
        return;
      }
      var newChild;
      next, newChild, c', t' := SplitDown(node, i, child, k, order, c, t, s);
      extra := {newChild};
    }

    /** Inserts `k` below a node that is not full, splitting full nodes on the way down. */
    method InsertNonfull(start: Node, k: Key, ghost c0: Ctx, ghost t0: Tree, ghost s: seq<Key>)
        returns (found: bool, ghost extra: set<Node>)
      requires Inserting(start, c0, t0, k, s)
      modifies this`tree, this`repr, CtxNodes(c0), Nodes(t0)
      ensures Valid() && (found <==> k in s)
      ensures Contents() == if found then s else With(s, k)
      ensures repr <= CtxNodes(c0) + Nodes(t0) + extra && fresh(extra)
    {
      hide With, Inorder, Sorted, LinkKids, SepKids, BalKids, Fits, Valid, Contents, NodesOf, SepCtx, BalCtx;
      var node := start;
      ghost var c, t, base := c0, t0, CtxNodes(c0) + Nodes(t0);
      found, extra := false, {};
      while !node.leaf && !found
        invariant fresh(extra)
        invariant !found ==> Inserting(node, c, t, k, s) && CtxNodes(c) + Nodes(t) <= base + extra
        invariant found ==> k in s && Valid() && Contents() == s && repr <= base + extra
        decreases !found, if found then 0 else t.level
      {
        ghost var more;
        found, node, c, t, more := InsertInner(node, k, c, t, s);
        extra := extra + more;
      }
      if !found {
        found := InsertLeaf(node, k, c, t, s);
      }
    }

    /** Puts a new root above a full one and splits the old root. */
    method RaiseRoot(k: Key) returns (ghost t: Tree, ghost extra: set<Node>)
      requires Valid() && tree.Some? && |tree.t.keys| == 2 * order - 1
      modifies this`root, repr
      ensures root != null && Inserting(root, Top, t, k, Contents())
      ensures Nodes(t) == old(repr) + extra && fresh(extra)
    {
      var newRoot;
      newRoot, t, extra := Raise(root, order, tree.t);
      root := newRoot;
    }

    /** Adds `k`, unless it is there already. */
    method Insert(k: Key) returns (found: bool)
      requires Valid()
      modifies this, repr
      ensures Valid() && (found <==> k in old(Contents()))
      ensures Contents() == if found then old(Contents()) else With(old(Contents()), k)
      ensures fresh(repr - old(repr))
    {
      ghost var s, extra := Contents(), {};
      hide With, Inorder, Sorted, LinkKids, SepKids, BalKids;
      if root == null {
        found, extra := InsertFirst(k);
      } else if root.nrActive == 2 * order - 1 {
        ghost var t, up;
        t, up := RaiseRoot(k);
        found, extra := InsertNonfull(root, k, Top, t, s);
      } else {
        assert Fits(Top, tree.t, order, k, s);
        found, extra := InsertNonfull(root, k, Top, tree.t, s);
      }
    }

    /** Starts a tree: the root is allocated as an empty leaf. */
    method InsertFirst(k: Key) returns (found: bool, ghost extra: set<Node>)
      requires Valid() && root == null
      modifies this
      ensures Valid() && !found && Contents() == With([], k)
      ensures repr <= extra && fresh(extra)
    {
      var node := new Node(order);
      root := node;
      ghost var e := Tree(node, 0, [], []);
      assert Nodes(e) == {node} && Fits(Top, e, order, k, []) && Link(e, order);
      ghost var more;
      found, more := InsertNonfull(node, k, Top, e, []);
      extra := {node} + more;
    }

    // Taking and giving back ranges of blocks.

    /** Takes `length` blocks from the front of the free extent `key`. */
    method TakeFrom(key: Key, length: nat)
      requires Valid() && Extents(Contents()) && key in Contents() && length <= key.length
      modifies this, repr
      ensures Valid() && Contents() == Take(old(Contents()), key, length)
      ensures fresh(repr - old(repr))
    {
      hide Valid, Contents, With, Without;
      TakeExtents(Contents(), key, length);
      Delete(key);
      if length < key.length {
        var found := Insert(Key(key.offset + length, key.length - length));
      }
    }

    /** Takes a range of `length` free blocks, at `start` if a long enough extent starts there.
        Returns the first block of the range; 0 also stands for failure. */
    method Lookup(start: nat, length: nat) returns (block: nat, ghost hit: bool, ghost from: Key)
      requires Valid() && Extents(Contents())
      modifies this, repr
      ensures Valid() && fresh(repr - old(repr))
      ensures hit ==> from in old(Contents()) && from.length >= length && block == from.offset
                      && Contents() == Take(old(Contents()), from, length)
      ensures !hit ==> block == 0 && Contents() == old(Contents())
                       && forall k :: k in old(Contents()) ==> k.length < length
      ensures forall k :: k in old(Contents()) && k.offset == start && k.length >= length ==> block == start
      ensures hit && block != start ==> FirstLong(old(ByLevel()), length, from)
    {
      hide Wide, FirstLong;
      block, hit, from := 0, false, Key(0, 0);
      if root == null {
        return;
      }
      var found, key := ExtentAt(root, start, length, order, tree.t);
      if !found {
        found, key := FirstFit(root, length, order, tree.t);
      }
      if found {
        TakeFrom(key, length);
        block, hit, from := key.offset, true, key;
      }
    }

    /** The keys level by level. */
    ghost function ByLevel(): seq<Key>
      reads this
    {
      if tree.Some? then Wide([tree.t]) else []
    }

    /** Changes the length of key `i` of `node` in place. */
    method SetKey(node: Node, i: nat, j: Key, ghost c: Ctx, ghost u: Tree)
      requires Valid() && tree == Some(Plug(c, u)) && Focus(c, u, order) && repr == CtxNodes(c) + Nodes(u)
      requires u.node == node && i < |u.keys| && j.offset == u.keys[i].offset
      requires Extents(Contents()) && Sorted(With(Without(Contents(), u.keys[i]), j))
      modifies this`tree, this`repr, node`keyVals
      ensures Valid() && Contents() == With(Without(old(Contents()), u.keys[i]), j)
      ensures var u' := u.(keys := u.keys[i := j]);
              tree == Some(Plug(c, u')) && Focus(c, u', order) && repr == CtxNodes(c) + Nodes(u')
    {
      hide With, Without, Inorder, Extents, Sorted;
      ghost var u' := u.(keys := u.keys[i := j]);
      LongerKeyIn(c, u, u', i, order, j);
      PlugShape(c, u, u');
      PlugLeaf(c, u, u');
      SetKeyFocus(node, i, j, order, c, u);
      Settle(c, u');
    }

    /** Gives back `length` blocks starting at `block`, joining them with a neighbour found on the way. */
    method Free(block: nat, length: nat)
      requires Valid() && Extents(Contents()) && length > 0 && InUse(Contents(), block, length)
      modifies this, repr
      ensures Valid() && fresh(repr - old(repr))
      ensures GivenBack(old(Contents()), Contents(), block, length)
      ensures Contents() == Coalesced(old(Contents()), old(RightEdge()), block, length)
      ensures Achieved(old(RightEdge()), old(Contents()), Contents(), block, length)
      ensures old(OneNode()) && Maximal(old(Contents())) ==> Maximal(Contents())
    {
      hide Maximal, OneNode, Achieved, Coalesced, JoinedAt, Touching, Edge, GivenBack, Inorder, With, Without;
      FreeAchieves(block, length);
      GiveAlone(Contents(), block, length);
      CoalescedNot(Contents(), [], block, length);
      if root == null {
        var found := Insert(Key(block, length));
        return;
      }
      var hit, node, i;
      ghost var c, u, d;
      ghost var s, edge := Contents(), RightEdge();
      hit, node, i, c, u, d := FindNeighbour(root, block, length, order, tree.t);
      FocusKeys(c, u, order);
      match hit
      case Nowhere =>
        CoalescedNot(s, edge, block, length);
        var found := Insert(Key(block, length));
      case EndsThere =>
        CoalescedIn(s, edge, d, block, length);
        FreeAfter(block, length, node, i, c, u);
      case StartsThere =>
        CoalescedIn(s, edge, d, block, length);
        JoinedBefore(s, u.keys, i, block, length);
        FreeBefore(block, length, node.keyVals[i]);
    }

    /** The tree has at most one node. */
    ghost predicate OneNode()
      reads this
    {
      tree.Some? ==> tree.t.kids == []
    }

    lemma FreeAchieves(block: nat, length: nat)
      requires Valid() && Extents(Contents()) && length > 0 && InUse(Contents(), block, length)
      ensures var r := Coalesced(Contents(), RightEdge(), block, length);
              && Achieved(RightEdge(), Contents(), r, block, length)
              && (OneNode() && Maximal(Contents()) ==> Maximal(r))
    {
      hide Coalesced, Inorder, Link, Sep;
      var s, edge := Contents(), RightEdge();
      forall ks, k | ks in edge && k in ks ensures k in s {
        EdgeHeld(tree.t, order, ks, k);
      }
      if ks, k :| ks in edge && k in ks && Touches(k, block, length) {
        CoalescedJoins(s, edge, block, length, k);
      }
      if OneNode() && Maximal(s) {
        if tree.Some? {
          OneEdge(tree.t);
          CoalescedMaximal(s, block, length);
        } else {
          CoalescedNot(s, edge, block, length);
          assert With([], Key(block, length)) == [Key(block, length)];
        }
      }
    }

    /** The keys of the nodes on the right edge. */
    ghost function RightEdge(): seq<seq<Key>>
      reads this
    {
      if tree.Some? then Edge(tree.t) else []
    }

    /** The range precedes the extent `key`: the two are replaced by one. */
    method FreeBefore(block: nat, length: nat, key: Key)
      requires Valid() && Extents(Contents()) && length > 0 && InUse(Contents(), block, length)
      requires key in Contents() && block + length == key.offset
      modifies this, repr
      ensures Valid() && fresh(repr - old(repr))
      ensures GivenBack(old(Contents()), Contents(), block, length)
      ensures Contents() == Replaced(old(Contents()), key, Key(block, length + key.length))
    {
      var j := Key(block, length + key.length);
      GiveJoined(Contents(), key, block, length, j);
      Delete(key);
      var found := Insert(j);
    }

    /** The range follows key `i` of `node`: the key grows, and swallows the next one if it touches it. */
    method FreeAfter(block: nat, length: nat, node: Node, i: nat, ghost c: Ctx, ghost u: Tree)
      requires Valid() && Extents(Contents()) && length > 0 && InUse(Contents(), block, length)
      requires tree == Some(Plug(c, u)) && Focus(c, u, order) && repr == CtxNodes(c) + Nodes(u) && u.node == node
      requires i < |u.keys| && u.keys[i].offset + u.keys[i].length == block
      modifies this, repr
      ensures Valid() && fresh(repr - old(repr))
      ensures GivenBack(old(Contents()), Contents(), block, length)
      ensures Contents() == JoinedAt(old(Contents()), u.keys, i, block, length)
    {
      hide Btree.Valid, With, Without, Inorder, InUse, GivenBack, Sorted, Extents, JoinedAt, Replaced, Plug, CtxNodes,
           Sep, SepCtx, Bal, BalCtx, LinkCtx;
      ghost var s := Contents();
      var k := node.keyVals[i];
      var j := Key(k.offset, k.length + length);
      FocusKeys(c, u, order);
      assert k == u.keys[i] && k in s;
      GiveJoined(s, k, block, length, j);
      GivenExtents(s, With(Without(s, k), j), block, length);
      JoinedAfter(s, u.keys, i, block, length);
      SetKey(node, i, j, c, u);
      if i + 1 < node.nrActive && node.keyVals[i + 1].offset == j.offset + j.length {
        ghost var m := Contents();
        SwallowNext(node, i, c, u.(keys := u.keys[i := j]));
        GivenTrans(s, m, Contents(), block, length);
      }
    }

    /** Joins keys `i` and `i + 1` of `node`, which touch. */
    method SwallowNext(node: Node, i: nat, ghost c: Ctx, ghost u: Tree)
      requires Valid() && Extents(Contents())
      requires tree == Some(Plug(c, u)) && Focus(c, u, order) && repr == CtxNodes(c) + Nodes(u) && u.node == node
      requires i + 1 < |u.keys| && u.keys[i].offset + u.keys[i].length == u.keys[i + 1].offset
      modifies this, repr
      ensures Valid() && fresh(repr - old(repr))
      ensures GivenBack(old(Contents()), Contents(), 0, 0)
      ensures var k, n := u.keys[i], u.keys[i + 1];
              Contents() == Without(Replaced(old(Contents()), k, Key(k.offset, k.length + n.length)), n)
    {
      hide Btree.Valid, With, Without, Inorder, GivenBack, Sorted, Plug, CtxNodes, Sep, SepCtx, Bal, BalCtx, LinkCtx;
      ghost var s := Contents();
      FocusKeys(c, u, order);
      var k, n := node.keyVals[i], node.keyVals[i + 1];
      var j := Key(k.offset, k.length + n.length);
      JoinNext(s, k, n, j);
      SetKey(node, i, j, c, u);
      Delete(n);
    }
  }

  lemma OneEdge(t: Tree)
    requires t.kids == []
    ensures Edge(t) == [t.keys] == [Inorder(t)]
  {
  }

  
  lemma JoinedAfter(s: seq<Key>, ks: seq<Key>, i: nat, off: nat, len: nat)
    requires i < |ks| && ks[i].offset + ks[i].length == off
    ensures var j := Key(ks[i].offset, ks[i].length + len);
            var m := With(Without(s, ks[i]), j);
            JoinedAt(s, ks, i, off, len) ==
            if i + 1 < |ks| && ks[i + 1].offset == j.offset + j.length
            then Without(Replaced(m, j, Key(j.offset, j.length + ks[i + 1].length)), ks[i + 1])
            else m
  {
  }

  lemma JoinedBefore(s: seq<Key>, ks: seq<Key>, i: nat, off: nat, len: nat)
    requires i < |ks| && ks[i].offset + ks[i].length != off
    ensures JoinedAt(s, ks, i, off, len) == Replaced(s, ks[i], Key(off, len + ks[i].length))
  {
  }

  /** The keys of the node in focus, as memory and the tree have them. */
  lemma FocusKeys(c: Ctx, u: Tree, order: nat)
    requires Focus(c, u, order)
    ensures forall i :: 0 <= i < |u.keys| ==> u.node.keyVals[i] == u.keys[i] && u.keys[i] in Inorder(Plug(c, u))
  {
    PlugInorder(c, u, order);
    assert u.node.keyVals[..|u.keys|] == u.keys;
    forall i | 0 <= i < |u.keys| ensures u.node.keyVals[i] == u.keys[i] && u.keys[i] in Inorder(Plug(c, u)) {
      KeysInInorder(u, i);
      assert u.node.keyVals[i] == u.node.keyVals[..|u.keys|][i];
    }
  }

  /** Lengthening a key of the node in focus, seen from the whole tree. */
  lemma LongerKeyIn(c: Ctx, u: Tree, u': Tree, i: nat, order: nat, j: Key)
    requires BalCtx(c, order, u.level) && Shaped(u) && i < |u.keys| && j.offset == u.keys[i].offset
    requires Extents(Inorder(Plug(c, u))) && u' == u.(keys := u.keys[i := j])
    ensures Inorder(Plug(c, u')) == With(Without(Inorder(Plug(c, u)), u.keys[i]), j)
  {
    AroundKey(c, u, i, order, j);
    LongerKey(Inorder(Plug(c, u)), Before(c, order, u.level) + Inorder(Lower(u, i)), u.keys[i],
              Inorder(Upper(u, i, u.node)) + After(c, order, u.level), j);
  }

  method SetKeyFocus(node: Node, i: nat, j: Key, order: nat, ghost c: Ctx, ghost u: Tree)
    requires Focus(c, u, order) && u.node == node && i < |u.keys|
    modifies node`keyVals
    ensures Focus(c, u.(keys := u.keys[i := j]), order)
  {
    node.keyVals := node.keyVals[i := j];
    assert LinkCtx(c, node, order) && LinkKids(u.kids, order);
  }

  lemma {:induction false} PlugLeaf(c: Ctx, a: Tree, b: Tree)
    requires a.node == b.node && a.kids == b.kids
    ensures Plug(c, a).kids == [] <==> Plug(c, b).kids == []
    decreases c
  {
    if c.In? {
      PlugInner(c, a);
      PlugInner(c, b);
    }
  }
}
