/** The on-disk B+tree: search, insertion with bottom-up splits, and removal. */
module BtTree {
  import opened Seqs
  import opened BtRecords
  import opened BtSplit
  import opened BtIds
  import opened BtLevels
  import opened BtNodes
  import opened BtSteps
  import opened BtPath
  import opened BtInsert
  import opened BtDemand
  import opened BtShape
  import opened BtFate
  import opened BtRemove

  datatype Err = OK | EEXIST | ENOENT | ENOSPC | BUG

  /** Bit 0 belongs to the tree's head; every other set bit is the id of a node. */
  ghost predicate IdsOk(bits: seq<bool>, nodes: Nodes) {
    |bits| > 0 && bits[0] && forall x :: x in nodes <==> 0 < x < |bits| && bits[x]
  }

  class Btree {
    const cfg: Config
    const ids: NodeIds
    var nodes: Nodes
    var root: nat
    var height: nat
    ghost var levels: seq<Level>

    /** Opens a tree whose nodes are on the device. */
    constructor (cfg: Config, ids: NodeIds, nodes: Nodes, root: nat, height: nat, ghost levels: seq<Level>)
      requires Halves(cfg.size, cfg.max) && ids.Valid() && IdsOk(ids.bits, nodes)
      requires Tied(nodes, levels) && height == |levels| && Upper(cfg, levels, root, 0)
      ensures Valid() && Contents() == Flat(levels[0].groups) && this.cfg == cfg && this.ids == ids
      ensures this.nodes == nodes && this.root == root && this.height == height && this.levels == levels
    {
      this.cfg, this.ids, this.nodes, this.root, this.height, this.levels := cfg, ids, nodes, root, height, levels;
    }

    /** Memory spells out the levels, and the bitmap knows its nodes. */
    ghost predicate Held()
      reads this, ids
    {
      && Halves(cfg.size, cfg.max) && ids.Valid() && IdsOk(ids.bits, nodes)
      && Tied(nodes, levels) && height == |levels|
    }

    /** The levels from `c` on are a valid tree. */
    ghost predicate ValidFrom(c: nat)
      reads this, ids
    {
      Held() && Upper(cfg, levels, root, c)
    }

    ghost predicate Valid()
      reads this, ids
    {
      ValidFrom(0)
    }

    /** The records of the leaves in order. */
    ghost function Contents(): seq<Rec>
      reads this, ids
      requires Valid()
    {
      Flat(levels[0].groups)
    }

    /** What an insertion can use up. */
    ghost function Fuel(): int
      reads this, ids
    {
      2 * height + ids.freeNum
    }

    /** The split reserve as it is checked: four nodes for every level in the tree's file, or a file that could be
        grown. Whether the bitmap has that many ids is not asked. */
    ghost predicate Reserve(available: nat, grown: bool)
      reads this, ids
    {
      grown || available - (|ids.bits| - ids.freeNum) >= 4 * height
    }

    /** Why an insertion at level `c` can fail before anything is changed. */
    ghost predicate Early(c: nat, available: nat, grown: bool)
      reads this, ids
    {
      (c == 0 && !Reserve(available, grown)) || ids.freeNum < 2
    }

    /** When an insertion that splits `n` nodes runs out of ids: each split but the last needs one, the last two. */
    ghost predicate RunsOut(c: nat, n: nat, available: nat, grown: bool)
      reads this, ids
    {
      n > 0 && ((c == 0 && !Reserve(available, grown)) || ids.freeNum < n + 1)
    }

    /** An insertion that got stuck on its way up: level `c` holds `recs`, but some level above has one separator less
        than there are nodes below it, so that a node is lost to every search. */
    ghost predicate Torn(c: nat, recs: seq<Rec>)
      reads this, ids
    {
      && Held()
      && exists t :: c < t < |levels| && Lower(cfg, levels, c, t) && Flat(levels[c].groups) == recs
                     && |Flat(levels[t].groups)| + 1 == |levels[t - 1].ids|
    }

    lemma TornIsInvalid(c: nat, recs: seq<Rec>)
      requires Torn(c, recs)
      ensures !ValidFrom(c)
    {
      hide Flat, Tied, Lower, Upper, IdsOk, NodeIds.Valid;
      var t :| c < t < |levels| && Lower(cfg, levels, c, t) && Flat(levels[c].groups) == recs
               && |Flat(levels[t].groups)| + 1 == |levels[t - 1].ids|;
      OneMissing(cfg, levels, root, c, t);
    }

    /** What a removal that fails has run into: too few ids for a split, or an inner node with a single record. */
    ghost predicate Stuck(err: Err)
      reads this, ids
    {
      && (err == ENOSPC ==> ids.freeNum < 2)
      && (err == BUG ==> exists id :: id in nodes && !nodes[id].leaf && |nodes[id].recs| == 1)
    }

    lemma NodeAt(h: nat, j: nat)
      requires Tied(nodes, levels) && h < |levels| && j < |levels[h].ids|
      ensures levels[h].ids[j] in nodes && |levels[h].ids| == |levels[h].groups|
      ensures nodes[levels[h].ids[j]] ==
              BNode(levels[h].groups[j], PrevId(levels[h].ids, j), NextId(levels[h].ids, j), h == 0)
    {
      LevelOf(nodes, levels, h);
      LinksAt(nodes, levels[h], h == 0, j);
    }

    /** The search for `k` from the root down to level `c`. */
    method Find(k: int, c: nat) returns (path: seq<Step>, ghost js: seq<nat>)
      requires ValidFrom(c)
      ensures PathOk(levels, c, path, js, k)
    {
      hide Tied, Upper, Flat, At, Last, Index, StepOk;
      var id, h := root, height - 1;
      path, js := [], [];
      AtRoot(cfg, levels, root, c, k);
      ghost var j: nat := 0;
      while true
        invariant c <= h < |levels| && j < |levels[h].ids| && id == levels[h].ids[j]
        invariant At(Index(levels[h]), k, j)
        invariant PathOk(levels, h + 1, path, js, k) && Leads(levels, h + 1, path, js, j)
        decreases h
      {
        NodeAt(h, j);
        UpperGood(cfg, levels, root, c, h);
        NodeSorted(cfg, levels[h], j);
        var recs := nodes[id].recs;
        var pos := Search(recs, k);
        StepDown(cfg, levels, root, c, h, j, pos, k);
        PathCons(levels, h, path, js, Step(id, pos), j, k);
        path, js := [Step(id, pos)] + path, [j] + js;
        if h == c {
          break;
        }
        id, j := recs[pos].val, Place(levels[h].groups, j, pos);
        h := h - 1;
      }
    }

    /** The search for whatever `comp` compares equal to, down to the leaves. */
    method FindAny(comp: int -> int) returns (id: nat, pos: nat, ghost g: nat)
      requires Valid() && Agrees(comp)
      ensures id in nodes && pos < |nodes[id].recs| && FoundIn(Contents(), comp, g)
              && nodes[id].recs[pos] == Contents()[g]
    {
      hide Tied, Upper, Flat, FoundIn, Index;
      AtRoot(cfg, levels, root, 0, 0);
      var h := height - 1;
      id := root;
      ghost var j: nat := 0;
      SingleFound(cfg, levels[h], comp);
      while true
        invariant 0 <= h < |levels| && j < |levels[h].ids| && id == levels[h].ids[j]
                  && FoundIn(Index(levels[h]), comp, j)
        decreases h
      {
        NodeAt(h, j);
        UpperGood(cfg, levels, root, 0, h);
        NodeSorted(cfg, levels[h], j);
        pos := SearchAny(nodes[id].recs, comp);
        InRange(nodes[id].recs, comp, pos);
        DescendAny(cfg, levels[h], comp, j, pos);
        PlaceAt(levels[h].groups, j, pos);
        g := Place(levels[h].groups, j, pos);
        if h == 0 {
          return;
        }
        StepAny(cfg, levels, root, h, j, pos);
        id, j := nodes[id].recs[pos].val, g;
        h := h - 1;
      }
    }

    /** Two new ids, or none. */
    method AllocPair() returns (ok: bool, b1: nat, b2: nat)
      requires ids.Valid() && IdsOk(ids.bits, nodes)
      modifies ids
      ensures ids.Valid() && (ok <==> old(ids.freeNum) >= 2)
      ensures !ok ==> ids.bits == old(ids.bits) && ids.freeNum == old(ids.freeNum)
      ensures ok ==> b1 != b2 && b1 != 0 && b2 != 0 && b1 !in nodes && b2 !in nodes
                     && ids.freeNum == old(ids.freeNum) - 2
      ensures ok ==> b1 < |ids.bits| && b2 < |ids.bits| == |old(ids.bits)|
                     && ids.bits == old(ids.bits)[b1 := true][b2 := true]
    {
      ok, b1 := ids.Alloc();
      b2 := 0;
      if ok {
        ok, b2 := ids.Alloc();
        if !ok {
          ids.Destroy(b1);
        }
      }
    }

    /** Puts the two parts in place of node `id` in its chain. */
    method SetNextPrevLinks(id: nat, b1: nat, p1: seq<Rec>, b2: nat, p2: seq<Rec>)
      requires id in nodes && 0 !in nodes && b1 != 0 && b2 != 0
      requires nodes[id].prev == 0 || nodes[id].prev in nodes
      requires nodes[id].next == 0 || nodes[id].next in nodes
      modifies this`nodes
      ensures nodes == SplitMap(old(nodes), id, b1, p1, b2, p2)
    {
      var src := nodes[id];
      nodes := nodes[b1 := BNode(p1, src.prev, b2, src.leaf)];
      nodes := nodes[b2 := BNode(p2, b1, src.next, src.leaf)];
      if src.prev != 0 {
        nodes := nodes[src.prev := nodes[src.prev].(next := b1)];
      }
      if src.next != 0 {
        nodes := nodes[src.next := nodes[src.next].(prev := b2)];
      }
    }

    /** The test before a leaf is split; `available` is how many nodes the tree's file holds, and `grown` says whether
        it can be made long enough. */
    method CheckReserve(available: nat, grown: bool) returns (err: Err)
      requires Held()
      ensures err == if Reserve(available, grown) then OK else ENOSPC
      ensures err == OK && !grown && available <= |ids.bits| ==> ids.freeNum >= 4 * height
    {
      var used := |ids.bits| - ids.freeNum;
      var deficit := 4 * height - (available - used);
      if deficit <= 0 || grown {
        return OK;
      }
      return ENOSPC;
    }

    /** The node of the path at level `t` takes the record. */
    method RoundPut(c: nat, t: nat, add: Rec, ch: Change, path: seq<Step>, ghost js: seq<nat>, ghost k: int,
                    ghost pred: int, ghost target: seq<Rec>)
      requires Held() && Rising(cfg, levels, root, c, t, add, ch, path, js, k, pred, target)
      requires !NodeFull(levels[t].groups[js[0]], cfg.size, add)
      modifies this`nodes, this`levels
      ensures Held() && Risen(cfg, levels, root, c, pred, target)
      ensures levels == old(levels)[t := SetGroup(old(levels)[t], js[0],
                                                  Want(old(levels)[t].groups[js[0]], path[0].pos, ch, add))]
      ensures |levels| == |old(levels)| && levels[..c] == old(levels)[..c]
      ensures PutAt(old(nodes), nodes, path[0].id, old(levels)[t].groups[js[0]], path[0].pos, ch, add)
    {
      hide Tied, Upper, Flat, Lower, PathOk, Roomy, At, Sorted, Rising, Risen, NodeIds.Valid, Want, Changed, Inserted,
           NodeFull;
      NodeOnPath(c, t, add, ch, path, js, k, pred, target);
      RisingFacts(cfg, levels, root, c, t, add, ch, path, js, k, pred, target);
      var id, pos := path[0].id, path[0].pos;
      RisePut(cfg, levels, root, c, t, add, ch, path, js, k, pred, target);
      ghost var recs := Want(levels[t].groups[js[0]], pos, ch, add);
      PutRecsTied(nodes, levels, t, js[0], recs);
      nodes := PutRecs(nodes, id, Inserted(Changed(nodes[id].recs, pos, ch), pos + 1, add));
      levels := levels[t := SetGroup(levels[t], js[0], recs)];
    }

    /** Splits the node of the path at level `t` into `p1` and `p2` with ids `b1` and `b2`; what the level
        above has to take is left open. */
    method RoundSplit(c: nat, t: nat, add: Rec, ch: Change, path: seq<Step>, ghost js: seq<nat>, ghost k: int,
                      ghost pred: int, ghost target: seq<Rec>, b1: nat, p1: seq<Rec>, b2: nat, p2: seq<Rec>)
      requires Halves(cfg.size, cfg.max) && ids.Valid() && Tied(nodes, levels) && height == |levels|
      requires b1 < |ids.bits| && b2 < |ids.bits| && IdsOk(ids.bits[b1 := false][b2 := false], nodes)
      requires b1 != b2 && b1 != 0 && b2 != 0 && b1 !in nodes && b2 !in nodes && ids.bits[b1] && ids.bits[b2]
      requires Rising(cfg, levels, root, c, t, add, ch, path, js, k, pred, target) && t + 1 < |levels|
      requires Parts(cfg, levels[t].groups[js[0]], path[0].pos, ch, add, p1, p2)
      modifies this`nodes, this`levels, ids
      ensures Held() && Rising(cfg, levels, root, c, t + 1, IndexRec(p2[0], b2), Child(b1), path[1..], js[1..], k,
                               pred, target)
      ensures |levels| == |old(levels)| && levels[..c] == old(levels)[..c] && ids.freeNum == old(ids.freeNum) + 1
      ensures |ids.bits| == |old(ids.bits)| && SplitInto(old(levels), levels, t, js[0], b1, p1, b2, p2)
    {
      hide Tied, Upper, Flat, Lower, PathOk, Roomy, At, Sorted, Rising, Parts, SplitMap, SplitLevel, NodeIds.Valid;
      NodeOnPath(c, t, add, ch, path, js, k, pred, target);
      RiseSplit(cfg, levels, root, c, t, add, ch, path, js, k, pred, target, b1, p1, b2, p2);
      SplitTied(nodes, levels, t, js[0], b1, p1, b2, p2);
      var id := path[0].id;
      SetNextPrevLinks(id, b1, p1, b2, p2);
      SplitKeys(old(nodes), id, b1, p1, b2, p2);
      nodes := nodes - {id};
      ids.Destroy(id);
      levels := levels[t := SplitLevel(levels[t], js[0], b1, p1, b2, p2)];
    }

    /** Splits the root: its id moves to a new root above the two parts. */
    method RoundGrow(c: nat, t: nat, add: Rec, ch: Change, path: seq<Step>, ghost js: seq<nat>, ghost k: int,
                     ghost pred: int, ghost target: seq<Rec>, b1: nat, p1: seq<Rec>, b2: nat, p2: seq<Rec>)
      requires Halves(cfg.size, cfg.max) && ids.Valid() && Tied(nodes, levels) && height == |levels|
      requires b1 < |ids.bits| && b2 < |ids.bits| && IdsOk(ids.bits[b1 := false][b2 := false], nodes)
      requires b1 != b2 && b1 != 0 && b2 != 0 && b1 !in nodes && b2 !in nodes && ids.bits[b1] && ids.bits[b2]
      requires Rising(cfg, levels, root, c, t, add, ch, path, js, k, pred, target) && t + 1 == |levels|
      requires Parts(cfg, levels[t].groups[js[0]], path[0].pos, ch, add, p1, p2) && path[0].id == root
      modifies this`nodes, this`levels, this`height
      ensures Held() && Risen(cfg, levels, root, c, pred, target)
      ensures |levels| == |old(levels)| + 1 && levels[..c] == old(levels)[..c]
      ensures GrownInto(old(levels), levels, t, js[0], b1, p1, b2, p2)
    {
      hide Tied, Upper, Flat, Lower, PathOk, Roomy, At, Sorted, Rising, Risen, SplitMap, SplitLevel, NodeIds.Valid;
      NodeOnPath(c, t, add, ch, path, js, k, pred, target);
      RiseGrow(cfg, levels, root, c, t, add, ch, path, js, k, pred, target, b1, p1, b2, p2);
      SplitTied(nodes, levels, t, js[0], b1, p1, b2, p2);
      var id := path[0].id;
      // the first record of the old root, redirected to its first part
      var firstRec := IndexRec(nodes[id].recs[0], id).(val := b1);
      var secondRec := IndexRec(p2[0], b2);
      SetNextPrevLinks(id, b1, p1, b2, p2);
      SplitKeys(old(nodes), id, b1, p1, b2, p2);
      ghost var rest := nodes - {id};
      ghost var ls := levels[t := SplitLevel(levels[t], js[0], b1, p1, b2, p2)];
      GrowTied(rest, ls, id, [firstRec, secondRec]);
      nodes := nodes[id := BNode([firstRec, secondRec], 0, 0, false)];
      assert nodes == rest[id := BNode([firstRec, secondRec], 0, 0, false)];
      height := height + 1;
      levels := ls + [Level([id], [[firstRec, secondRec]])];
    }

    /** One round of an insertion: the node at the end of the path takes the record or is split. */
    method Round(c: nat, t: nat, add: Rec, ch: Change, path: seq<Step>, available: nat, grown: bool,
                 ghost js: seq<nat>, ghost k: int, ghost pred: int, ghost target: seq<Rec>)
        returns (err: Err, done: bool, add': Rec, ch': Change)
      requires Held() && Rising(cfg, levels, root, c, t, add, ch, path, js, k, pred, target) && (t == c <==> ch.Keep?)
      modifies this`nodes, this`levels, this`height, ids
      ensures err == OK ==> Held() && Fuel() <= old(Fuel()) && c <= |levels| && levels[..c] == old(levels)[..c]
                            && |ids.bits| == |old(ids.bits)|
      ensures err == OK && done ==> Risen(cfg, levels, root, c, pred, target)
      ensures err == OK && !done ==>
                && Rising(cfg, levels, root, c, t + 1, add', ch', path[1..], js[1..], k, pred, target)
                && height == old(height) && ids.freeNum == old(ids.freeNum) - 1 && ch'.Child?
      ensures var n := Splits(cfg, old(levels), t, js[0], path[0].pos, Plain(add));
              && (err == ENOSPC <==> n > 0 && ((t == 0 && !old(Reserve(available, grown))) || old(ids.freeNum) < 2))
              && (err == OK && done ==> n <= 1 && ids.freeNum == old(ids.freeNum) - n - (|levels| - |old(levels)|))
              && (err == OK && !done ==>
                    |path| >= 2 && n == 1 + Splits(cfg, levels, t + 1, js[1], path[1].pos, Plain(add')))
      ensures var put := Put(cfg, Bare(old(levels)), t, js[0], path[0].pos, Plain(add));
              && (err == OK && done ==> Bare(levels) == put)
              && (err == OK && !done ==> |levels| == |old(levels)|
                                         && put == Put(cfg, Bare(levels), t + 1, js[1], path[1].pos, Plain(add')))
      ensures err == ENOSPC ==> c <= |levels| && levels[..c] == old(levels)[..c]
      ensures Splits(cfg, old(levels), t, js[0], path[0].pos, Plain(add)) == 0 ==>
                && err == OK && done && ids.bits == old(ids.bits) && height == old(height)
                && PutAt(old(nodes), nodes, path[0].id, old(levels)[t].groups[js[0]], path[0].pos, ch, add)
      ensures err == OK || err == ENOSPC
      ensures err == ENOSPC ==> Held() && height == old(height) && ids.freeNum == old(ids.freeNum)
      ensures err == ENOSPC && t == c ==> nodes == old(nodes) && levels == old(levels)
      ensures err == ENOSPC && t > c ==> Torn(c, target)
    {
      hide Tied, Upper, Flat, Lower, PathOk, Roomy, At, Sorted, Rising, Risen, Parts, NodeIds.Valid, IndexRec,
           Inserted, Want, Changed, Size;
      hide Splits, Torn, Middle, Spot, Put, Bare, SplitInto, GrownInto, PutAt;
      err, done, add', ch' := OK, true, add, ch;
      NodeOnPath(c, t, add, ch, path, js, k, pred, target);
      RisingFacts(cfg, levels, root, c, t, add, ch, path, js, k, pred, target);
      var id, pos := path[0].id, path[0].pos;
      var recs := Changed(nodes[id].recs, pos, ch);
      NoSplit(cfg, levels, t, js[0], pos, add);
      if NodeFull(recs, cfg.size, add) {
        if t == 0 {
          err := CheckReserve(available, grown);
          if err != OK {
            return;
          }
        }
        var ok, b1, b2 := AllocPair();
        if !ok {
          Redirect(c, t, add, ch, path, js, k, pred, target);
          return ENOSPC, false, add, ch;
        }
        var p1, p2 := SplitNode(recs, pos + 1, add, cfg.size, cfg.max);
        PartsFrom(cfg, levels[t].groups[js[0]], pos, ch, add, p1, p2);
        SplitsRound(cfg, levels, t, js[0], pos, ch, add, p1, p2, b2);
        BareSplit(cfg, levels, t, js[0], pos, ch, add, b1, p1, b2, p2);
        assert ids.bits[b1 := false][b2 := false] == old(ids.bits);
        IsRoot(cfg, nodes, levels, root, t, js[0]);
        if id == root {
          RoundGrow(c, t, add, ch, path, js, k, pred, target, b1, p1, b2, p2);
          BareGrown(old(levels), levels, t, js[0], b1, p1, b2, p2);
        } else {
          SplitUp(cfg, levels, root, c, t, add, ch, path, js, k, pred, target);
          RoundSplit(c, t, add, ch, path, js, k, pred, target, b1, p1, b2, p2);
          done, add', ch' := false, IndexRec(p2[0], b2), Child(b1);
          BareDivided(old(levels), levels, t, js[0], b1, p1, b2, p2);
          SplitsFrame(cfg, old(levels), levels, t + 1, js[1], path[1].pos, Plain(add'));
        }
      } else {
        BarePut(cfg, levels, t, js[0], pos, ch, add);
        RoundPut(c, t, add, ch, path, js, k, pred, target);
      }
    }

    /** The record above a node that was split is redirected before its own node is looked at, and stays so when the
        insertion stops there. */
    method Redirect(c: nat, t: nat, add: Rec, ch: Change, path: seq<Step>, ghost js: seq<nat>, ghost k: int,
                    ghost pred: int, ghost target: seq<Rec>)
      requires Held() && Rising(cfg, levels, root, c, t, add, ch, path, js, k, pred, target) && (t == c <==> ch.Keep?)
      modifies this`nodes, this`levels
      ensures Held() && (t == c ==> nodes == old(nodes) && levels == old(levels)) && (t > c ==> Torn(c, target))
      ensures |levels| == |old(levels)| && c <= |levels| && levels[..c] == old(levels)[..c]
    {
      hide Tied, Upper, Flat, Lower, PathOk, Roomy, At, Sorted, Rising, NodeIds.Valid, Want;
      NodeOnPath(c, t, add, ch, path, js, k, pred, target);
      var id, pos := path[0].id, path[0].pos;
      if ch.Child? {
        RisingTorn(cfg, levels, root, c, t, add, ch, path, js, k, pred, target);
        PutRecsTied(nodes, levels, t, js[0], Changed(levels[t].groups[js[0]], pos, ch));
        nodes := PutRecs(nodes, id, Changed(nodes[id].recs, pos, ch));
        levels := levels[t := SetGroup(levels[t], js[0], Changed(levels[t].groups[js[0]], pos, ch))];
      }
    }

    /** If the node at the place has room for the record, it has taken it, and nothing else has changed. */
    ghost predicate UsesRoom(ls0: seq<Level>, nodes0: Nodes, bits0: seq<bool>, c: nat, spot: (nat, nat), r: Rec,
                             err: Err)
      reads this, ids
    {
      var (j, pos) := spot;
      && c < |ls0| && j < |ls0[c].ids| == |ls0[c].groups| && pos < |ls0[c].groups[j]|
      && (FitsNode(After(ls0[c].groups[j], pos, r), cfg.size) ==>
            && err == OK && ids.bits == bits0 && height == |ls0|
            && PutAt(nodes0, nodes, ls0[c].ids[j], ls0[c].groups[j], pos, Keep, r))
    }

    /** Inserts a record at level `c`, not below the first one of the level. */
    method InsertAtLevel(rec: Rec, c: nat, available: nat, grown: bool) returns (err: Err, ghost g: nat)
      requires ValidFrom(c) && RecOk(rec, cfg.max) && FirstKey(levels[c]) <= rec.key
      modifies this`nodes, this`levels, this`height, ids
      ensures err == OK || err == EEXIST || err == ENOSPC
      ensures c < |old(levels)| && (err == EEXIST <==> HasKey(old(Flat(levels[c].groups)), rec.key))
      ensures err == ENOSPC <==> !HasKey(old(Flat(levels[c].groups)), rec.key)
                                 && old(RunsOut(c, Demand(cfg, levels, c, rec), available, grown))
      ensures err == EEXIST || (err == ENOSPC && old(Early(c, available, grown))) ==>
                ValidFrom(c) && nodes == old(nodes) && levels == old(levels) && height == old(height)
      ensures err == ENOSPC && c > 0 ==> ids.freeNum < 2
      ensures err == ENOSPC && !old(Early(c, available, grown)) ==>
                Last(old(Flat(levels[c].groups)), rec.key, g) && Torn(c, After(old(Flat(levels[c].groups)), g, rec))
      ensures err == OK ==> ValidFrom(c) && c < |levels| && levels[..c] == old(levels)[..c] && Fuel() <= old(Fuel())
      ensures err == OK ==> var flat := old(Flat(levels[c].groups));
                && Last(flat, rec.key, g) && Flat(levels[c].groups) == After(flat, g, rec)
                   && Roomy(levels[c].groups, flat[g].key)
      ensures |ids.bits| == |old(ids.bits)| || err == ENOSPC
      ensures err == ENOSPC ==> Held() && c < |levels| && levels[..c] == old(levels)[..c]
      ensures err == OK ==> var (j, pos) := Spot(old(levels)[c].groups, g);
                && Bare(levels) == Put(cfg, Bare(old(levels)), c, j, pos, Plain(rec))
                && ids.freeNum == old(ids.freeNum) - Demand(cfg, old(levels), c, rec) - (|levels| - |old(levels)|)
      ensures err != EEXIST ==> Last(old(Flat(levels[c].groups)), rec.key, g)
      ensures err != EEXIST ==> UsesRoom(old(levels), old(nodes), old(ids.bits), c, Spot(old(levels)[c].groups, g),
                                         rec, err)
    {
      var exists', path;
      ghost var js;
      exists', path, js, g := Locate(rec, c);
      if exists' {
        return EEXIST, g;
      }
      hide Tied, Upper, Flat, Rising, Risen, NodeIds.Valid, Roomy, Last, Torn, Demand, Splits, Put, Bare, Spot, PutAt,
           FitsNode;
      FitsIff(cfg, levels, c, js[0], path[0].pos, rec);
      ghost var flat := Flat(levels[c].groups);
      err := RiseFrom(rec, c, path, available, grown, js, flat[g].key, After(flat, g, rec));
      if err == OK {
        RisenFacts(cfg, levels, root, c, flat[g].key, After(flat, g, rec));
      }
    }

    /** Finds the place of a record and whether its key is there already. */
    method Locate(rec: Rec, c: nat) returns (exists': bool, path: seq<Step>, ghost js: seq<nat>, ghost g: nat)
      requires ValidFrom(c) && RecOk(rec, cfg.max) && FirstKey(levels[c]) <= rec.key
      ensures c < |levels|
      ensures exists' <==> HasKey(Flat(levels[c].groups), rec.key)
      ensures path != [] && js != []
              && Demand(cfg, levels, c, rec) == Splits(cfg, levels, c, js[0], path[0].pos, Plain(rec))
      ensures js[0] < |levels[c].ids| == |levels[c].groups| && path[0].id == levels[c].ids[js[0]]
      ensures Spot(levels[c].groups, g) == (js[0], path[0].pos) && js[0] < |levels[c].groups|
              && path[0].pos < |levels[c].groups[js[0]]|
      ensures var flat := Flat(levels[c].groups);
              && Last(flat, rec.key, g)
              && (!exists' ==> Rising(cfg, levels, root, c, c, rec, Keep, path, js, rec.key, flat[g].key,
                                      After(flat, g, rec)))
    {
      path, js := Find(rec.key, c);
      ghost var flat := Flat(levels[c].groups);
      hide Tied, Upper, Flat, Sorted, Rising, NodeIds.Valid;
      NodeAt(c, js[0]);
      PlaceAt(levels[c].groups, js[0], path[0].pos);
      UpperGood(cfg, levels, root, c, c);
      FirstFlat(cfg, levels[c]);
      g := Place(levels[c].groups, js[0], path[0].pos);
      KeyPresent(flat, rec.key, g);
      DemandOf(cfg, levels, c, js[0], path[0].pos, rec);
      SpotOf(levels[c].groups, js[0], path[0].pos);
      exists' := nodes[path[0].id].recs[path[0].pos].key == rec.key;
      if !exists' {
        RiseStart(cfg, levels, root, c, path, js, rec);
      }
    }

    /** The rounds of an insertion. */
    method RiseFrom(rec: Rec, c: nat, path0: seq<Step>, available: nat, grown: bool, ghost js0: seq<nat>,
                    ghost pred: int, ghost target: seq<Rec>) returns (err: Err)
      requires Held() && path0 != [] && js0 != []
      requires Rising(cfg, levels, root, c, c, rec, Keep, path0, js0, rec.key, pred, target)
      modifies this`nodes, this`levels, this`height, ids
      ensures err == OK || err == ENOSPC
      ensures err == ENOSPC <==> old(RunsOut(c, Splits(cfg, levels, c, js0[0], path0[0].pos, Plain(rec)), available,
                                             grown))
      ensures err == ENOSPC && old(Early(c, available, grown)) ==> Held() && nodes == old(nodes)
                                                                   && levels == old(levels) && height == old(height)
      ensures err == ENOSPC && !old(Early(c, available, grown)) ==> Torn(c, target)
      ensures err == ENOSPC && c > 0 ==> ids.freeNum < 2
      ensures err == OK ==> Held() && Risen(cfg, levels, root, c, pred, target)
      ensures err == OK ==> c <= |levels| && levels[..c] == old(levels)[..c] && Fuel() <= old(Fuel())
                            && |ids.bits| == |old(ids.bits)|
      ensures err == ENOSPC ==> Held() && |levels| == |old(levels)| && c < |levels| && levels[..c] == old(levels)[..c]
      ensures err == OK ==>
                && Bare(levels) == Put(cfg, Bare(old(levels)), c, js0[0], path0[0].pos, Plain(rec))
                && ids.freeNum == old(ids.freeNum) - Splits(cfg, old(levels), c, js0[0], path0[0].pos, Plain(rec))
                                  - (|levels| - |old(levels)|)
      ensures c < |old(levels)| && js0[0] < |old(levels)[c].groups|
      ensures Splits(cfg, old(levels), c, js0[0], path0[0].pos, Plain(rec)) == 0 ==>
                && ids.bits == old(ids.bits) && height == old(height)
                && PutAt(old(nodes), nodes, path0[0].id, old(levels)[c].groups[js0[0]], path0[0].pos, Keep, rec)
    {
      hide Tied, Upper, Flat, Rising, Risen, NodeIds.Valid, IdsOk, Splits, Torn, Put, Bare, PutAt;
      RisingPath(cfg, levels, root, c, c, rec, Keep, path0, js0, rec.key, pred, target);
      var add, ch, t, done, path := rec, Keep, c, false, path0;
      ghost var js, n := js0, Splits(cfg, levels, c, js0[0], path0[0].pos, Plain(rec));
      ghost var put := Put(cfg, Bare(levels), c, js0[0], path0[0].pos, Plain(rec));
      err := OK;
      while !done
        invariant err == OK && Held() && Fuel() <= old(Fuel()) && |ids.bits| == |old(ids.bits)|
        invariant c <= |levels| && levels[..c] == old(levels)[..c]
        invariant !done && t == c ==> nodes == old(nodes) && levels == old(levels) && height == old(height)
        invariant !done ==> (t == c <==> ch.Keep?)
        invariant done ==> Risen(cfg, levels, root, c, pred, target) && !old(RunsOut(c, n, available, grown))
        invariant t >= c && (!done ==> Rising(cfg, levels, root, c, t, add, ch, path, js, rec.key, pred, target))
        invariant !done ==> path != [] && js != []
                            && n == t - c + Splits(cfg, levels, t, js[0], path[0].pos, Plain(add))
        invariant !done ==> ids.freeNum == old(ids.freeNum) - (t - c)
        invariant !done ==> put == Put(cfg, Bare(levels), t, js[0], path[0].pos, Plain(add))
                            && |levels| == |old(levels)|
        invariant !done && t == c ==> add == rec && path == path0 && js == js0 && ids.bits == old(ids.bits)
        invariant done && n == 0 ==> ids.bits == old(ids.bits) && height == old(height)
        invariant done && n == 0 ==> PutAt(old(nodes), nodes, path0[0].id, old(levels)[c].groups[js0[0]], path0[0].pos,
                                           Keep, rec)
        invariant done ==> put == Bare(levels) && ids.freeNum == old(ids.freeNum) - n - (|levels| - |old(levels)|)
        invariant t > c ==> ids.freeNum >= 0 && (c == 0 ==> old(Reserve(available, grown)))
                            && old(ids.freeNum) >= t - c + 1
        decreases !done, if done then 0 else |path|
      {
        RisingPath(cfg, levels, root, c, t, add, ch, path, js, rec.key, pred, target);
        err, done, add, ch := Round(c, t, add, ch, path, available, grown, js, rec.key, pred, target);
        if err != OK {
          return;
        }
        if !done {
          t, path, js := t + 1, path[1..], js[1..];
        }
      }
    }

    /** Inserts a record with a key not below the smallest one. */
    method Insert(rec: Rec, available: nat, grown: bool) returns (err: Err)
      requires Valid() && RecOk(rec, cfg.max) && Contents() != [] && Contents()[0].key <= rec.key
      modifies this`nodes, this`levels, this`height, ids
      ensures err == OK || err == EEXIST || err == ENOSPC
      ensures err == EEXIST <==> HasKey(old(Contents()), rec.key)
      ensures err == ENOSPC <==> !HasKey(old(Contents()), rec.key)
                                 && old(RunsOut(0, Demand(cfg, levels, 0, rec), available, grown))
      ensures old(Reserve(available, grown))
              && (old(ids.freeNum) > old(height) || (!grown && available <= |old(ids.bits)|))
              ==> err != ENOSPC
      ensures err == EEXIST || (err == ENOSPC && old(Early(0, available, grown))) ==>
                Valid() && Contents() == old(Contents()) && nodes == old(nodes) && height == old(height)
      ensures err == ENOSPC && !old(Early(0, available, grown)) ==>
                !Valid() && exists recs :: Torn(0, recs) && multiset(recs) == multiset(old(Contents())) + multiset{rec}
      ensures err == OK ==> Valid() && Sorted(Contents())
                            && multiset(Contents()) == multiset(old(Contents())) + multiset{rec}
      ensures err != EEXIST ==> UsesRoom(old(levels), old(nodes), old(ids.bits), 0, old(LeafFor(rec.key)), rec, err)
    {
      hide Tied, Flat, NodeIds.Valid, Torn, Demand, UsesRoom, Spot, Upper, Put, Bare, Roomy;
      RootThere(0);
      UpperGood(cfg, levels, root, 0, 0);
      FirstFlat(cfg, levels[0]);
      ghost var flat := Contents();
      ghost var g;
      err, g := InsertAtLevel(rec, 0, available, grown);
      if err != EEXIST {
        NotPresent(flat, rec.key, g);
        AfterSorted(flat, g, rec);
        PlaceOfLast(flat, rec.key, g);
      }
      if err == ENOSPC && !old(Early(0, available, grown)) {
        TornIsInvalid(0, After(flat, g, rec));
      }
    }

    /** The leaf that a key belongs to, and the position of the last record not above it. */
    ghost function LeafFor(k: int): (nat, nat)
      reads this, ids
      requires Valid()
    {
      Spot(levels[0].groups, PlaceOf(Contents(), k))
    }

    /** Takes record `pos` out of node `id`. */
    method DeleteFromNode(id: nat, pos: nat, ghost c: nat, ghost j: nat)
      requires Held() && c < |levels| && j < |levels[c].ids| == |levels[c].groups| && id == levels[c].ids[j]
      requires pos < |levels[c].groups[j]|
      modifies this`nodes, this`levels
      ensures Held() && levels == old(levels)[c := SetGroup(old(levels)[c], j, Cut(old(levels)[c].groups[j], pos))]
    {
      hide Tied, NodeIds.Valid;
      NodeAt(c, j);
      PutRecsTied(nodes, levels, c, j, Cut(levels[c].groups[j], pos));
      nodes := PutRecs(nodes, id, Cut(nodes[id].recs, pos));
      levels := levels[c := SetGroup(levels[c], j, Cut(levels[c].groups[j], pos))];
    }

    /** The node and position of a key that is at place `g` of level `c`. */
    method FindKey(k: int, c: nat, ghost g: nat) returns (id: nat, pos: nat, ghost j: nat)
      requires ValidFrom(c) && g < |Flat(levels[c].groups)| && Flat(levels[c].groups)[g].key == k
      ensures c < |levels| && j < |levels[c].ids| == |levels[c].groups| && id == levels[c].ids[j]
              && pos < |levels[c].groups[j]|
      ensures Place(levels[c].groups, j, pos) == g && levels[c].groups[j][pos].key == k && id in nodes
    {
      var path;
      ghost var js;
      path, js := Find(k, c);
      id, pos, j := path[0].id, path[0].pos, js[0];
      hide Tied, Upper, Flat, NodeIds.Valid;
      NodeAt(c, j);
      UpperGood(cfg, levels, root, c, c);
      PlaceAt(levels[c].groups, j, pos);
      KeyPlace(Flat(levels[c].groups), k, Place(levels[c].groups, j, pos), g);
    }

    /** Makes the index record with key `k` at level `c` carry the first key of the node `point` it leads to. */
    method UpdateKey(k: int, point: nat, c: nat, ghost g: nat) returns (err: Err, newKey: int)
      requires ValidFrom(c) && c > 0 && 0 < g < |Flat(levels[c].groups)| && Flat(levels[c].groups)[g].key == k
      requires point in nodes && nodes[point].recs != [] && RecOk(IndexRec(nodes[point].recs[0], point), cfg.max)
      requires k < nodes[point].recs[0].key
      requires g + 1 < |Flat(levels[c].groups)| ==> nodes[point].recs[0].key < Flat(levels[c].groups)[g + 1].key
      modifies this`nodes, this`levels, this`height, ids
      ensures err == OK ==> ValidFrom(c) && c < |levels| && levels[..c] == old(levels)[..c] && Fuel() <= old(Fuel())
                            && |ids.bits| == |old(ids.bits)|
      ensures (err == OK || err == ENOSPC) && Stuck(err)
      ensures err == OK ==>
                && newKey == old(nodes[point].recs[0].key)
                && Flat(levels[c].groups)
                   == old(Flat(levels[c].groups))[g := old(IndexRec(nodes[point].recs[0], point))]
      ensures Follows(old(Renew(cfg, Bare(levels), ids.freeNum, c, g, Plain(IndexRec(nodes[point].recs[0], point)))),
                      err)
      ensures err == OK ==> Topped(old(TopCount(levels))) && |old(levels)| <= |levels|
      ensures err == ENOSPC ==> Held() && c < |levels| && levels[..c] == old(levels)[..c]
      ensures err == ENOSPC ==> levels == old(levels) || !Upper(cfg, levels, root, c)
      decreases 2 * (height - c) + ids.freeNum
    {
      ghost var flat := Flat(levels[c].groups);
      hide Tied, Upper, Flat, NodeIds.Valid, Renew, TakeOut, Bare, Spot;
      var newData := IndexRec(nodes[point].recs[0], point);
      newKey := newData.key;
      BetweenKeys(cfg, levels, root, c, g, newKey);
      err := PutNew(newData, c, g);
      if err != OK {
        return;
      }
      CutAfter(flat, g, newData);
      var id, pos;
      ghost var j;
      id, pos, j := FindKey(k, c, g);
      SpotOf(levels[c].groups, j, pos);
      var renewed;
      err, renewed := DeleteAndRenew(k, id, pos, c, g, j);
    }

    /** Puts a separator behind the one at place `g` that it is to replace. */
    method PutNew(r: Rec, c: nat, ghost g: nat) returns (err: Err)
      requires ValidFrom(c) && c > 0 && RecOk(r, cfg.max) && FirstKey(levels[c]) <= r.key
      requires Sorted(Flat(levels[c].groups)) && Last(Flat(levels[c].groups), r.key, g)
               && !HasKey(Flat(levels[c].groups), r.key)
      modifies this`nodes, this`levels, this`height, ids
      ensures (err == OK || err == ENOSPC) && Stuck(err) && c < |levels| && levels[..c] == old(levels)[..c] && Held()
      ensures err == OK ==> ValidFrom(c) && Fuel() <= old(Fuel()) && |ids.bits| == |old(ids.bits)|
      ensures err == OK ==> var flat := old(Flat(levels[c].groups));
                            Flat(levels[c].groups) == After(flat, g, r) && Roomy(levels[c].groups, flat[g].key)
      ensures err == ENOSPC ==> levels == old(levels) || !Upper(cfg, levels, root, c)
      ensures err == OK ==> |old(levels)| <= |levels| && if |levels| > |old(levels)| then TopCount(levels) == 2
                                                         else TopCount(levels) >= old(TopCount(levels))
      ensures var whole := old(Renew(cfg, Bare(levels), ids.freeNum, c, g, Plain(r)));
              && (err == ENOSPC ==> whole == Short)
              && (err == OK ==> var (j, pos) := Spot(levels[c].groups, g);
                  whole == TakeOut(cfg, Bare(levels), ids.freeNum, c, j, pos))
    {
      ghost var flat := Flat(levels[c].groups);
      hide Tied, Upper, Flat, NodeIds.Valid, Put, Renew, TakeOut, Bare, Demand, Spot, Torn, Splits, Roomy;
      DemandAt(cfg, levels, c, g, r);
      ghost var g', n := g, Demand(cfg, levels, c, r);
      err, g' := InsertAtLevel(r, c, 0, false);
      if err == OK {
        LastUnique(flat, r.key, g, g');
        RenewBare(cfg, old(levels), old(ids.freeNum), c, g, r, n, ids.freeNum, levels);
        PutNewTop(cfg, old(levels), levels, c, g, r);
      } else {
        RenewShort(cfg, old(levels), old(ids.freeNum), c, g, r, n);
        if !old(Early(c, 0, false)) {
          LastUnique(flat, r.key, g, g');
          TornIsInvalid(c, After(flat, g, r));
        }
      }
    }

    /** The levels have become what the renewal makes of their shape, or it has run out of ids. */
    ghost predicate Follows(r: Renewal, err: Err)
      reads this, ids
    {
      match r
      case Short => err == ENOSPC
      case Done(ls, free) => err == OK && Bare(levels) == ls && ids.freeNum == free
    }

    /** Removes the record at place `g` from a node that keeps others; if it was the first of its node, the
        separator above is renewed. Returns a key that leads to the node. */
    method DeleteAndRenew(k: int, id: nat, pos: nat, c: nat, ghost g: nat, ghost j: nat) returns (err: Err, key: int)
      requires ValidFrom(c) && c < |levels| && j < |levels[c].ids| == |levels[c].groups| && id == levels[c].ids[j]
      requires pos < |levels[c].groups[j]| && |levels[c].groups[j]| >= 2
      requires Place(levels[c].groups, j, pos) == g && 0 < g < |Flat(levels[c].groups)|
               && levels[c].groups[j][pos].key == k
      modifies this`nodes, this`levels, this`height, ids
      ensures err == OK ==> ValidFrom(c) && c < |levels| && levels[..c] == old(levels)[..c] && Fuel() <= old(Fuel())
                            && |ids.bits| == |old(ids.bits)|
      ensures err == OK ==> Flat(levels[c].groups) == Cut(old(Flat(levels[c].groups)), g)
      ensures err == OK ==> levels[c] == SetGroup(old(levels)[c], j, Cut(old(levels)[c].groups[j], pos))
      ensures err == OK ==> At(Index(levels[c]), key, j)
      ensures (err == OK || err == ENOSPC) && Stuck(err)
      ensures Follows(old(TakeOut(cfg, Bare(levels), ids.freeNum, c, j, pos)), err)
      ensures err == OK && c + 1 < |old(levels)| ==> Topped(old(TopCount(levels))) && |old(levels)| <= |levels|
      ensures c + 1 == |old(levels)| ==> |levels| == |old(levels)|
      ensures err == ENOSPC ==> Held() && !Upper(cfg, levels, root, c) && c < |levels|
                                && levels[..c] == old(levels)[..c]
      ensures err == ENOSPC ==> Flat(levels[c].groups) == Cut(old(Flat(levels[c].groups)), g)
      decreases 2 * (height - c) + ids.freeNum, 1
    {
      hide Tied, Upper, Flat, NodeIds.Valid, Place, At, Good, Index, IdsOk, Renew, TakeOut, Bare, Spot, Renewable;
      ghost var ls := levels;
      TakeOutBare(cfg, levels, ids.freeNum, c, j, pos);
      err, key := OK, k;
      CutReady(cfg, levels, root, c, j, pos);
      DeleteFromNode(id, pos, c, j);
      NodeAt(c, j);
      if pos == 0 && c < height - 1 {
        err, key := RenewAbove(k, id, c, j, ls);
      }
    }

    /** Makes the separator of node `j` follow its first record, which was taken out. */
    method RenewAbove(k: int, id: nat, c: nat, ghost j: nat, ghost ls: seq<Level>) returns (err: Err, key: int)
      requires Held() && c < |ls| && j < |ls[c].ids| == |ls[c].groups| && |ls[c].groups[j]| >= 2 && id == ls[c].ids[j]
      requires Renewable(cfg, ls, root, c, j) && k == ls[c].groups[j][0].key
      requires levels == ls[c := SetGroup(ls[c], j, Cut(ls[c].groups[j], 0))] && id in nodes
               && nodes[id].recs == levels[c].groups[j]
      modifies this`nodes, this`levels, this`height, ids
      ensures err == OK ==> ValidFrom(c) && c < |levels| && levels[..c] == ls[..c] && Fuel() <= old(Fuel())
                            && |ids.bits| == |old(ids.bits)|
      ensures err == OK ==> levels[c] == SetGroup(ls[c], j, Cut(ls[c].groups[j], 0)) && At(Index(levels[c]), key, j)
      ensures (err == OK || err == ENOSPC) && Stuck(err)
      ensures Follows(old(Renew(cfg, Bare(levels), ids.freeNum, c + 1, j, Plain(IndexRec(ls[c].groups[j][1], id)))),
                      err)
      ensures err == ENOSPC ==> Held() && !Upper(cfg, levels, root, c) && c < |levels| && levels[..c] == ls[..c]
      ensures err == ENOSPC ==> levels[c] == SetGroup(ls[c], j, Cut(ls[c].groups[j], 0))
      ensures err == OK ==> Topped(old(TopCount(levels))) && |old(levels)| <= |levels|
      decreases 2 * (height - c) + ids.freeNum, 0
    {
      hide Tied, Upper, Flat, NodeIds.Valid, At, Good, Index, IdsOk, Renew, Bare, Spot;
      ghost var lv' := levels[c];
      err, key := UpdateKey(k, id, c + 1, j);
      TakeLess(levels, ls[c := lv'], c);
      if err == OK {
        GlueOne(cfg, levels, root, c);
      } else if Upper(cfg, levels, root, c) {
        UpperTail(cfg, levels, root, c);
        assert false;
      }
    }

    /** What becomes of the removal of a key. */
    ghost function RemovalOf(k: int): Fate
      reads this, ids
      requires Valid()
    {
      var (j, pos) := Spot(levels[0].groups, PlaceOf(Contents(), k));
      FateOf(cfg, Bare(levels), ids.freeNum, 0, j, pos)
    }

    /** A root above other nodes with at least two records, or `n0` of them. */
    ghost predicate Topped(n0: nat)
      reads this, ids
    {
      |levels| > 1 ==> TopCount(levels) >= 2 || TopCount(levels) >= n0
    }

    /** The call has ended as foretold, from a state with root `r0` of `n0` records. */
    ghost predicate Meets(f: Fate, err: Err, r0: nat, n0: nat)
      reads this, ids
    {
      match f
      case Fine(ls, free, lowered) =>
        && err == OK && Bare(levels) == ls && ids.freeNum == free
        && if lowered then r0 !in nodes else root == r0 && Topped(n0)
      case Stop(ls, free) => err == BUG && Bare(levels) == ls && ids.freeNum == free && root == r0
      case Exhausted => err == ENOSPC && root == r0
    }

    /** The levels from `c` on hold `recs`, perhaps with fewer levels than before. */
    ghost predicate Rest(c: nat, recs: seq<Rec>)
      reads this, ids
    {
      && Held() && c <= |levels| && Above(levels, root, c, recs)
      && (c < |levels| ==> Upper(cfg, levels, root, c)) && (c == 0 ==> |levels| > 0)
    }

    /** Level `c` holds `recs`, but the levels above do not lead to all of them any more. */
    ghost predicate Damaged(c: nat, recs: seq<Rec>)
      reads this, ids
    {
      Held() && c < |levels| && Flat(levels[c].groups) == recs && !Upper(cfg, levels, root, c)
    }

    lemma DamagedBelow(c: nat)
      requires c + 1 < |levels| && !Upper(cfg, levels, root, c + 1)
      ensures !Upper(cfg, levels, root, c)
    {
    }

    /** Takes node `id` out of its chain and gives its id back. */
    method Drop(id: nat, ghost c: nat, ghost j: nat)
      requires Held() && c < |levels| && j < |levels[c].ids| == |levels[c].groups| && id == levels[c].ids[j]
      modifies this`nodes, this`levels, ids
      ensures Held() && levels == old(levels)[c := DropNode(old(levels)[c], j)] && ids.freeNum == old(ids.freeNum) + 1
    {
      hide Tied, NodeIds.Valid;
      NodeAt(c, j);
      LevelOf(nodes, levels, c);
      LinksAt(nodes, levels[c], c == 0, j);
      UnlinkTied(nodes, levels, c, j);
      UnlinkIds(nodes, id);
      var node := nodes[id];
      if node.prev != 0 {
        nodes := nodes[node.prev := nodes[node.prev].(next := node.next)];
      }
      if node.next != 0 {
        nodes := nodes[node.next := nodes[node.next].(prev := node.prev)];
      }
      nodes := nodes - {id};
      assert nodes == Unlink(old(nodes), id);
      ids.Destroy(id);
      levels := levels[c := DropNode(levels[c], j)];
    }

    /** Removes the record with key `k` at level `c`; it is not the first of its level. */
    method RemoveAtLevel(k: int, c: nat) returns (err: Err, ghost g: nat)
      requires ValidFrom(c) && FirstKey(levels[c]) != k && (c > 0 ==> HasKey(Flat(levels[c].groups), k))
      modifies this`nodes, this`levels, this`height, this`root, ids
      ensures err != EEXIST && Stuck(err) && (err != ENOENT ==> HasKey(old(Flat(levels[c].groups)), k))
      ensures err == ENOENT ==> c == 0 && !HasKey(old(Flat(levels[c].groups)), k) && ValidFrom(c)
                                && nodes == old(nodes) && levels == old(levels) && root == old(root)
                                   && height == old(height)
      ensures c <= |levels| && levels[..c] == old(levels)[..c]
      ensures c < |old(levels)|
              && (err != ENOENT ==> g < |old(Flat(levels[c].groups))| && old(Flat(levels[c].groups))[g].key == k)
      ensures err == OK || err == BUG ==> Rest(c, Cut(old(Flat(levels[c].groups)), g))
      ensures err == ENOSPC ==> Damaged(c, Cut(old(Flat(levels[c].groups)), g))
      ensures err != ENOENT ==> var (j, pos) := Spot(old(levels)[c].groups, g);
                                Meets(FateOf(cfg, old(Bare(levels)), old(ids.freeNum), c, j, pos), err, old(root),
                                      old(TopCount(levels)))
      decreases 2 * (height - c) + ids.freeNum, 5
    {
      var path;
      ghost var js;
      path, js := Find(k, c);
      var id, pos := path[0].id, path[0].pos;
      ghost var j := js[0];
      ghost var flat := Flat(levels[c].groups);
      hide Tied, Upper, Flat, NodeIds.Valid, Good, Rest, Damaged, FateOf, Spot, Bare;
      NodeAt(c, j);
      PlaceAt(levels[c].groups, j, pos);
      SpotOf(levels[c].groups, j, pos);
      UpperGood(cfg, levels, root, c, c);
      FirstOfLevel(cfg, levels[c]);
      g := Place(levels[c].groups, j, pos);
      FoundHere(flat, k, g);
      if c == 0 && nodes[id].recs[pos].key != k {
        return ENOENT, g;
      }
      if |nodes[id].recs| == 1 {
        err := RemoveOnly(k, id, pos, c, g, j);
      } else {
        err := RemoveOne(k, id, pos, c, g, j);
      }
    }

    /** The record is the only one of its node: the node goes, and its index record. */
    method RemoveOnly(k: int, id: nat, pos: nat, c: nat, ghost g: nat, ghost j: nat) returns (err: Err)
      requires ValidFrom(c) && c < |levels| && j < |levels[c].ids| == |levels[c].groups| && id == levels[c].ids[j]
      requires pos == 0 && |levels[c].groups[j]| == 1 && levels[c].groups[j][0].key == k
      requires Place(levels[c].groups, j, pos) == g && 0 < g < |Flat(levels[c].groups)|
      modifies this`nodes, this`levels, this`height, this`root, ids
      ensures (err == OK || err == ENOSPC || err == BUG) && Stuck(err)
      ensures c <= |levels| && levels[..c] == old(levels)[..c]
      ensures err == OK || err == BUG ==> Rest(c, Cut(old(Flat(levels[c].groups)), g))
      ensures err == ENOSPC ==> Damaged(c, Cut(old(Flat(levels[c].groups)), g))
      ensures Meets(FateOf(cfg, old(Bare(levels)), old(ids.freeNum), c, j, pos), err, old(root), old(TopCount(levels)))
      decreases 2 * (height - c) + ids.freeNum, 4
    {
      hide Tied, Upper, Flat, NodeIds.Valid, Good, Place, Index, FateOf, Spot, Bare;
      ghost var ls, lv, lv' := levels, levels[c], DropNode(levels[c], j);
      UpperGood(cfg, levels, root, c, c);
      NotFirst(cfg, levels, root, c, j, pos);
      CutOut(cfg, lv, j);
      UpperNext(cfg, levels, root, c, lv');
      SeparatorAt(cfg, lv, j);
      SameFirst(cfg, levels, root, c);
      DeleteFromNode(id, pos, c, j);
      DropEmptied(lv, j, Cut(lv.groups[j], pos));
      Drop(id, c, j);
      assert levels == ls[c := lv'];
      ghost var g';
      err, g' := RemoveAtLevel(k, c + 1);
      SortedPlace(Index(lv), j, g');
      FateUp(cfg, ls, old(ids.freeNum), c, j);
      TakeLess(levels, ls[c := lv'], c);
      if err != ENOSPC {
        GlueOne(cfg, levels, root, c);
      } else {
        DamagedBelow(c);
      }
    }

    /** The node keeps other records. */
    method RemoveOne(k: int, id: nat, pos: nat, c: nat, ghost g: nat, ghost j: nat) returns (err: Err)
      requires ValidFrom(c) && c < |levels| && j < |levels[c].ids| == |levels[c].groups| && id == levels[c].ids[j]
      requires pos < |levels[c].groups[j]| && |levels[c].groups[j]| >= 2 && levels[c].groups[j][pos].key == k
      requires Place(levels[c].groups, j, pos) == g && 0 < g < |Flat(levels[c].groups)|
      modifies this`nodes, this`levels, this`height, this`root, ids
      ensures (err == OK || err == ENOSPC || err == BUG) && Stuck(err)
      ensures c <= |levels| && levels[..c] == old(levels)[..c]
      ensures err == OK || err == BUG ==> Rest(c, Cut(old(Flat(levels[c].groups)), g))
      ensures err == ENOSPC ==> Damaged(c, Cut(old(Flat(levels[c].groups)), g))
      ensures Meets(FateOf(cfg, old(Bare(levels)), old(ids.freeNum), c, j, pos), err, old(root), old(TopCount(levels)))
      decreases 2 * (height - c) + ids.freeNum, 4
    {
      hide Tied, Upper, Flat, NodeIds.Valid, Good, Place, Index, At, Rest, TakeOut, Settle, FateOf, Bare;
      var key;
      FateHere(cfg, levels, ids.freeNum, c, j, pos);
      err, key := DeleteAndRenew(k, id, pos, c, g, j);
      if err == OK {
        AtLeast(levels[c], j);
        assert |levels[c].groups[j]| >= 1;
        err := AfterRemoval(key, id, c, j);
      }
    }

    /** A node with much room left is merged with a neighbour if it can be; a root with one child goes. */
    method AfterRemoval(k: int, id: nat, c: nat, ghost j: nat) returns (err: Err)
      requires ValidFrom(c) && c < |levels| && j < |levels[c].ids| == |levels[c].groups| && id == levels[c].ids[j]
      requires At(Index(levels[c]), k, j)
      modifies this`nodes, this`levels, this`height, this`root, ids
      ensures (err == OK || err == BUG) && Stuck(err)
      ensures Meets(Settle(cfg, old(Bare(levels)), old(ids.freeNum), c, j), err, old(root), old(TopCount(levels)))
      ensures 0 < c == |old(levels)| - 1 && |old(levels)[c].groups[j]| == 1 ==>
                && Lowered(old(levels)[c].groups[j][0].val, old(root))
                && (var f := Settle(cfg, old(Bare(levels)), old(ids.freeNum), c, j); f.Fine? && f.lowered)
      ensures c == |old(levels)| - 1 && (c == 0 || |old(levels)[c].groups[j]| != 1) ==> levels == old(levels)
      ensures c <= |levels| && levels[..c] == old(levels)[..c] && Rest(c, old(Flat(levels[c].groups)))
      decreases 2 * (height - c) + ids.freeNum, 3
    {
      hide Tied, Upper, Flat, NodeIds.Valid, Good, Index, At, Size, Settle, Bare;
      SettleHere(cfg, levels, ids.freeNum, c, j);
      OneIsRoomy(cfg, levels, root, c, j);
      err := OK;
      NodeAt(c, j);
      var recs := nodes[id].recs;
      if FreeSpace(recs, cfg.size) > cfg.size / 3 {
        if c < height - 1 {
          err := Rebalance(k, id, c, FreeSpace(recs, cfg.size), j);
        } else if |recs| == 1 && height > 1 {
          Collapse(id, c, j);
        }
      }
    }

    /** The root has one record: its child becomes the root. */
    method Collapse(id: nat, c: nat, ghost j: nat)
      requires ValidFrom(c) && 0 < c == |levels| - 1 && j < |levels[c].ids| == |levels[c].groups|
               && id == levels[c].ids[j]
      requires |levels[c].groups[j]| == 1
      modifies this`nodes, this`levels, this`height, this`root, ids
      ensures levels == old(levels)[..c] && Rest(c, old(Flat(levels[c].groups))) && ids.freeNum == old(ids.freeNum) + 1
      ensures Lowered(old(levels)[c].groups[j][0].val, old(root))
    {
      hide Tied, NodeIds.Valid;
      NodeAt(c, j);
      AtRoot(cfg, levels, root, c, 0);
      FlatOne(levels[c].groups[0]);
      assert levels[c].groups == [levels[c].groups[0]];
      ShrinkTied(nodes, levels, id);
      root := nodes[id].recs[0].val;
      height := height - 1;
      nodes := nodes - {id};
      ids.Destroy(id);
      levels := levels[..c];
    }

    /** The root is `r`, and the root `r0` from before is gone and its id free. */
    ghost predicate Lowered(r: nat, r0: nat)
      reads this, ids
    {
      root == r && r0 !in nodes && (r0 < |ids.bits| ==> !ids.bits[r0])
    }

    /** The parent of node `j` of level `c` and the position of the node's separator in it. */
    method FindParent(k: int, c: nat, ghost j: nat) returns (parent: nat, pos: nat, ghost pj: nat)
      requires ValidFrom(c) && c + 1 < |levels| && At(Index(levels[c]), k, j)
      ensures parent in nodes && !nodes[parent].leaf && pos < |nodes[parent].recs| && (pos > 0 ==> j > 0)
      ensures pos + 1 < |nodes[parent].recs| ==> j + 1 < |levels[c].ids|
      ensures pj < |levels[c + 1].groups| && nodes[parent].recs == levels[c + 1].groups[pj]
              && j == Place(levels[c + 1].groups, pj, pos)
    {
      var path;
      ghost var js;
      UpperTail(cfg, levels, root, c);
      path, js := Find(k, c + 1);
      parent, pos, pj := path[0].id, path[0].pos, js[0];
      hide Tied, Upper, Flat, NodeIds.Valid, Index;
      NodeAt(c + 1, js[0]);
      UpperGood(cfg, levels, root, c, c);
      InParent(cfg, levels[c], levels[c + 1], k, j, js[0], pos);
    }

    /** Merges a node with its left neighbour under the same parent, or else its right one, if both fit one node. */
    method Rebalance(k: int, id: nat, c: nat, freeSpace: int, ghost j: nat) returns (err: Err)
      requires ValidFrom(c) && c + 1 < |levels| && j < |levels[c].ids| == |levels[c].groups| && id == levels[c].ids[j]
      requires At(Index(levels[c]), k, j) && freeSpace == FreeSpace(levels[c].groups[j], cfg.size)
      modifies this`nodes, this`levels, this`height, this`root, ids
      ensures (err == OK || err == BUG) && Stuck(err)
      ensures freeSpace > cfg.size / 3 ==>
                Meets(Settle(cfg, old(Bare(levels)), old(ids.freeNum), c, j), err, old(root), old(TopCount(levels)))
      ensures c <= |levels| && levels[..c] == old(levels)[..c] && Rest(c, old(Flat(levels[c].groups)))
      decreases 2 * (height - c) + ids.freeNum, 2
    {
      hide Tied, Upper, Flat, NodeIds.Valid, Index, Size, Good, At, Settle, Spot, Place, Bare, Merged;
      err := OK;
      var parent, pos;
      ghost var pj;
      parent, pos, pj := FindParent(k, c, j);
      NodeAt(c, j);
      SpotParent(levels[c + 1].groups, j, pj, pos);
      if freeSpace > cfg.size / 3 {
        SettleMerge(cfg, levels, ids.freeNum, c, j, pj, pos);
      }
      var leftId, rightId, neighbour;
      ghost var jl;
      if pos > 0 {
        neighbour := nodes[id].prev;
        leftId, rightId, jl := neighbour, id, j - 1;
        NodeAt(c, j - 1);
      } else if pos < |nodes[parent].recs| - 1 {
        neighbour := nodes[id].next;
        leftId, rightId, jl := id, neighbour, j;
        NodeAt(c, j + 1);
      } else {
        return BUG;
      }
      if freeSpace + FreeSpace(nodes[neighbour].recs, cfg.size) >= cfg.size {
        MergeFits(levels[c].groups[jl], levels[c].groups[jl + 1], cfg.size);
        err := Merge(leftId, rightId, c, jl);
      }
    }

    /** Empties the right one of two neighbours into the left one and removes its index record. */
    method Merge(leftId: nat, rightId: nat, c: nat, ghost j: nat) returns (err: Err)
      requires ValidFrom(c) && c + 1 < |levels| && j + 1 < |levels[c].ids| == |levels[c].groups|
      requires leftId == levels[c].ids[j] && rightId == levels[c].ids[j + 1]
      requires FitsNode(levels[c].groups[j] + levels[c].groups[j + 1], cfg.size)
      requires var (pj, pos) := Spot(levels[c + 1].groups, j + 1); 0 < pos < |GroupAt(levels, c + 1, pj)|
      modifies this`nodes, this`levels, this`height, this`root, ids
      ensures (err == OK || err == BUG) && Stuck(err)
      ensures var (pj, pos) := Spot(old(levels)[c + 1].groups, j + 1);
              Meets(Settle(cfg, Bare(Merged(old(levels), c, j, pj, pos)), old(ids.freeNum) + 1, c + 1, pj), err,
                    old(root), old(TopCount(levels)))
      ensures c <= |levels| && levels[..c] == old(levels)[..c] && Rest(c, old(Flat(levels[c].groups)))
      decreases 2 * (height - c) + ids.freeNum, 1
    {
      hide Tied, Upper, Flat, NodeIds.Valid, Good, Index, Size, FateOf, Settle, Spot, Bare;
      ghost var ls, lv := levels, levels[c];
      ghost var lv' := MergeLevel(lv, j);
      NodeAt(c, j);
      NodeAt(c, j + 1);
      LevelOf(nodes, levels, c + 1);
      UpperGood(cfg, levels, root, c, c);
      NodeSorted(cfg, lv, j + 1);
      MergeIn(cfg, lv, j);
      SeparatorAt(cfg, lv, j + 1);
      SameFirst(cfg, levels, root, c);
      UpperNext(cfg, levels, root, c, lv');
      var key := nodes[rightId].recs[0].key;
      ghost var both := lv.groups[j] + lv.groups[j + 1];
      PutRecsTied(nodes, levels, c, j, both);
      nodes := PutRecs(nodes, leftId, nodes[leftId].recs + nodes[rightId].recs);
      levels := levels[c := SetGroup(lv, j, both)];
      Drop(rightId, c, j + 1);
      MergeEq(lv, j);
      assert levels == ls[c := lv'];
      ghost var g', free := 0, ids.freeNum;
      err, g' := RemoveAtLevel(key, c + 1);
      SortedPlace(Index(lv), j + 1, g');
      MergeFate(cfg, ls, free, c, j);
      TakeLess(levels, ls[c := lv'], c);
      GlueOne(cfg, levels, root, c);
    }

    ghost function RootRecs(): seq<Rec>
      reads this
    {
      if root in nodes then nodes[root].recs else []
    }

    /** The root is there, and holds what is at the top. */
    lemma RootThere(c: nat)
      requires ValidFrom(c)
      ensures levels != [] && root in nodes && root > 0 && |RootRecs()| == TopCount(levels)
    {
      hide Good, Flat;
      var t := |levels| - 1;
      AtRoot(cfg, levels, root, c, 0);
      NodeAt(t, 0);
      FlatOne(levels[t].groups[0]);
      assert levels[t].groups == [levels[t].groups[0]];
    }

    /** Removes the record with key `k`, which is not the smallest one. */
    method Remove(k: int) returns (err: Err)
      requires Valid() && Contents() != [] && Contents()[0].key != k
      modifies this`nodes, this`levels, this`height, this`root, ids
      ensures err != EEXIST && (err == ENOENT <==> !HasKey(old(Contents()), k)) && Stuck(err)
      ensures err != ENOENT ==> Meets(old(RemovalOf(k)), err, old(root), old(TopCount(levels)))
      ensures root != old(root) ==> Lowered(root, old(root))
      ensures err == OK && root == old(root) && height > 1 ==>
                |RootRecs()| >= 2 || |RootRecs()| >= |old(RootRecs())|
      ensures err == ENOENT ==> Valid() && Contents() == old(Contents())
      ensures err == OK || err == BUG ==> Valid() && Sorted(Contents())
      ensures err == OK || err == BUG ==> forall r :: r in Contents() <==> r in old(Contents()) && r.key != k
      ensures err == ENOSPC ==> !Valid() && exists recs :: Damaged(0, recs) && Others(recs, old(Contents()), k)
    {
      hide Tied, Flat, NodeIds.Valid, FateOf, Spot, Upper, Bare;
      ghost var flat := Contents();
      ghost var g;
      RootThere(0);
      UpperGood(cfg, levels, root, 0, 0);
      FirstOfLevel(cfg, levels[0]);
      err, g := RemoveAtLevel(k, 0);
      if err != ENOENT {
        PlaceOfKey(flat, k, g);
        CutMembers(flat, g);
      }
      if err == OK || err == BUG {
        RootThere(0);
      }
    }

    /** The node at the end of the path, and its neighbours. */
    lemma NodeOnPath(c: nat, t: nat, add: Rec, ch: Change, path: seq<Step>, js: seq<nat>, k: int, pred: int,
                     target: seq<Rec>)
      requires Tied(nodes, levels) && Rising(cfg, levels, root, c, t, add, ch, path, js, k, pred, target)
      ensures c <= t < |levels| && path != [] && |path| == |js| && js[0] < |levels[t].ids| == |levels[t].groups|
      ensures path[0].pos < |levels[t].groups[js[0]]| && path[0].id == levels[t].ids[js[0]] && path[0].id in nodes
      ensures nodes[path[0].id].recs == levels[t].groups[js[0]]
      ensures nodes[path[0].id].prev == 0 || nodes[path[0].id].prev in nodes
      ensures nodes[path[0].id].next == 0 || nodes[path[0].id].next in nodes
    {
      NodeAt(t, js[0]);
      LevelOf(nodes, levels, t);
      LinksAt(nodes, levels[t], t == 0, js[0]);
    }
  }

  lemma SplitKeys(nodes: Nodes, id: nat, b1: nat, p1: seq<Rec>, b2: nat, p2: seq<Rec>)
    requires id in nodes
    ensures SplitMap(nodes, id, b1, p1, b2, p2).Keys == nodes.Keys + {b1, b2}
  {
  }

  lemma RisingFacts(cfg: Config, ls: seq<Level>, root: nat, c: nat, t: nat, add: Rec, ch: Change,
                    path: seq<Step>, js: seq<nat>, k: int, pred: int, target: seq<Rec>)
    requires Rising(cfg, ls, root, c, t, add, ch, path, js, k, pred, target)
    ensures var g := ls[t].groups[js[0]]; var pos := path[0].pos;
            && GoodNode(cfg, g) && Size(Changed(g, pos, ch)) == Size(g) && |Changed(g, pos, ch)| == |g|
               && RecsOk(Changed(g, pos, ch), cfg.max)
            && Want(g, pos, ch, add) == Inserted(Changed(g, pos, ch), pos + 1, add)
            && RecOk(add, cfg.max) && Upper(cfg, ls, root, t)
  {
    hide Flat, Size, At, Sorted;
    UpperGood(cfg, ls, root, t, t);
    NodeSorted(cfg, ls[t], js[0]);
    ChangedFits(ls[t].groups[js[0]], path[0].pos, ch, cfg.max);
  }

  lemma PartsFrom(cfg: Config, g: seq<Rec>, pos: nat, ch: Change, add: Rec, p1: seq<Rec>, p2: seq<Rec>)
    requires pos < |g| && Want(g, pos, ch, add) == Inserted(Changed(g, pos, ch), pos + 1, add)
    requires p1 + p2 == Inserted(Changed(g, pos, ch), pos + 1, add) && |p1| >= 2 && p2 != []
    requires FitsNode(p1, cfg.size) && FitsNode(p2, cfg.size)
    ensures Parts(cfg, g, pos, ch, add, p1, p2)
  {
  }

  lemma IsRoot(cfg: Config, nodes: Nodes, ls: seq<Level>, root: nat, t: nat, j: nat)
    requires Tied(nodes, ls) && Upper(cfg, ls, root, t) && t < |ls| && j < |ls[t].ids|
    ensures ls[t].ids[j] == root <==> t + 1 == |ls|
  {
    AtRoot(cfg, ls, root, t, 0);
    assert root in ls[|ls| - 1].ids;
    assert ls[t].ids[j] in ls[t].ids;
  }

  ghost function FirstKey(lv: Level): int {
    FirstAt(lv, 0).key
  }

  /** A key is in a sorted sequence exactly when it is at its place. */
  lemma KeyPresent(s: seq<Rec>, k: int, g: nat)
    requires Sorted(s) && At(s, k, g) && s[0].key <= k
    ensures s[g].key == k <==> HasKey(s, k)
  {
  }

  lemma NotPresent(s: seq<Rec>, k: int, g: nat)
    requires !HasKey(s, k)
    ensures g < |s| ==> s[g].key != k
  {
  }

  lemma RisingPath(cfg: Config, ls: seq<Level>, root: nat, c: nat, t: nat, add: Rec, ch: Change,
                   path: seq<Step>, js: seq<nat>, k: int, pred: int, target: seq<Rec>)
    requires Rising(cfg, ls, root, c, t, add, ch, path, js, k, pred, target)
    ensures c <= t < |ls| && path != [] && |path| == |js| && js[0] < |ls[t].groups|
            && path[0].pos < |ls[t].groups[js[0]]|
  {
  }

  lemma RisenFacts(cfg: Config, ls: seq<Level>, root: nat, c: nat, pred: int, target: seq<Rec>)
    requires Risen(cfg, ls, root, c, pred, target)
    ensures Upper(cfg, ls, root, c) && Flat(ls[c].groups) == target && Roomy(ls[c].groups, pred)
  {
  }

  /** A key between the records at `g` and `g + 1` is new, and belongs after `g`. */
  lemma BetweenKeys(cfg: Config, ls: seq<Level>, root: nat, c: nat, g: nat, k: int)
    requires Upper(cfg, ls, root, c) && g < |Flat(ls[c].groups)| && Flat(ls[c].groups)[g].key < k
    requires g + 1 < |Flat(ls[c].groups)| ==> k < Flat(ls[c].groups)[g + 1].key
    ensures c < |ls| && FirstKey(ls[c]) <= k && Last(Flat(ls[c].groups), k, g) && Sorted(Flat(ls[c].groups))
    ensures !HasKey(Flat(ls[c].groups), k)
  {
    hide Flat;
    UpperGood(cfg, ls, root, c, c);
    FirstFlat(cfg, ls[c]);
    var flat := Flat(ls[c].groups);
    forall r | r in flat ensures r.key != k {
      var i :| 0 <= i < |flat| && flat[i] == r;
      assert i < g ==> flat[i].key < flat[g].key;
      assert i > g + 1 ==> flat[g + 1].key < flat[i].key;
    }
  }

  lemma TakeLess(ls: seq<Level>, ls': seq<Level>, c: nat)
    requires c < |ls| && c < |ls'| && ls[..c + 1] == ls'[..c + 1]
    ensures ls[..c] == ls'[..c] && ls[c] == ls'[c]
  {
    assert ls[..c] == ls[..c + 1][..c] && ls'[..c] == ls'[..c + 1][..c];
    assert ls[c] == ls[..c + 1][c] && ls'[c] == ls'[..c + 1][c];
  }

  ghost predicate HasKey(s: seq<Rec>, k: int) {
    exists i :: 0 <= i < |s| && s[i].key == k
  }

  lemma FirstOfLevel(cfg: Config, lv: Level)
    requires Good(cfg, lv)
    ensures Flat(lv.groups) != [] && Flat(lv.groups)[0].key == FirstKey(lv) && Sorted(Flat(lv.groups))
  {
    FirstFlat(cfg, lv);
  }

  /** The place of a key that is not the first one holds it exactly if it is there. */
  lemma FoundHere(s: seq<Rec>, k: int, g: nat)
    requires Sorted(s) && At(s, k, g) && s[0].key != k
    ensures s[g].key == k <==> HasKey(s, k)
    ensures s[g].key == k ==> g > 0
  {
    if i :| 0 <= i < |s| && s[i].key == k {
      KeyPlace(s, k, g, i);
    }
  }

  lemma SeparatorAt(cfg: Config, lv: Level, j: nat)
    requires Good(cfg, lv) && 0 < j < |lv.ids|
    ensures |Index(lv)| == |lv.ids| && Sorted(Index(lv)) && Index(lv)[j].key == lv.groups[j][0].key
    ensures HasKey(Index(lv), lv.groups[j][0].key) && Index(lv)[0].key != Index(lv)[j].key
  {
    IndexSorted(cfg, lv);
    NodeSorted(cfg, lv, j);
    IndexAt(lv, j);
  }

  lemma SameFirst(cfg: Config, ls: seq<Level>, root: nat, c: nat)
    requires Upper(cfg, ls, root, c) && c + 1 < |ls|
    ensures Index(ls[c]) != [] && FirstKey(ls[c + 1]) == Index(ls[c])[0].key
  {
    UpperGood(cfg, ls, root, c, c);
    UpperGood(cfg, ls, root, c, c + 1);
    FirstOfLevel(cfg, ls[c + 1]);
  }

  lemma DropEmptied(lv: Level, j: nat, g: seq<Rec>)
    requires |lv.ids| == |lv.groups| && j < |lv.ids|
    ensures DropNode(SetGroup(lv, j, g), j) == DropNode(lv, j)
  {
  }

  /** The first record of node `j` can go, and the second give its key to the separator. */
  ghost predicate Renewable(cfg: Config, ls: seq<Level>, root: nat, c: nat, j: nat)
    requires c < |ls| && j < |ls[c].ids| == |ls[c].groups| && |ls[c].groups[j]| >= 2
  {
    var g, seps := ls[c].groups[j], Index(ls[c]);
    var lv' := SetGroup(ls[c], j, Cut(g, 0));
    var r := IndexRec(g[1], ls[c].ids[j]);
    && c + 1 < |ls| && Upper(cfg, ls[c := lv'], root, c + 1) && Flat(ls[c + 1].groups) == seps
    && Good(cfg, lv') && At(Index(lv'), g[1].key, j)
    && lv'.groups[j][0] == g[1] && 0 < j < |seps| && Index(lv') == seps[j := r] && RecOk(r, cfg.max)
    && seps[j].key == g[0].key < g[1].key && (j + 1 < |seps| ==> g[1].key < seps[j + 1].key)
  }

  /** Cutting a record that is not the first of its level: the level stays good, and either its separators stay,
      or the one of the node has to become the key of the node's second record. */
  lemma CutReady(cfg: Config, ls: seq<Level>, root: nat, c: nat, j: nat, pos: nat)
    requires Upper(cfg, ls, root, c) && j < |ls[c].ids| == |ls[c].groups| && pos < |ls[c].groups[j]|
             && |ls[c].groups[j]| >= 2
    requires Place(ls[c].groups, j, pos) > 0
    ensures var lv := ls[c]; var lv' := SetGroup(lv, j, Cut(lv.groups[j], pos));
            && Place(lv.groups, j, pos) < |Flat(lv.groups)|
            && Good(cfg, lv') && Flat(lv'.groups) == Cut(Flat(lv.groups), Place(lv.groups, j, pos))
            && At(Index(lv'), lv'.groups[j][0].key, j)
            && (pos > 0 ==> Upper(cfg, ls[c := lv'], root, c) && At(Index(lv'), lv.groups[j][pos].key, j))
    ensures pos == 0 ==> c + 1 < |ls| && Renewable(cfg, ls, root, c, j)
  {
    var lv := ls[c];
    var lv' := SetGroup(lv, j, Cut(lv.groups[j], pos));
    hide Upper, Flat, At, Good, Place;
    UpperGood(cfg, ls, root, c, c);
    CutIn(cfg, lv, j, pos);
    LeadsTo(cfg, lv, j, pos);
    LeadsTo(cfg, lv', j, 0);
    if pos == 0 {
      NotFirst(cfg, ls, root, c, j, pos);
      SecondBetween(cfg, lv, j);
      UpperNext(cfg, ls, root, c, lv');
    } else {
      UpperSet(cfg, ls, root, c, lv');
    }
  }

  /** `recs` are the records of `s` without the key, in the same order. */
  ghost predicate Others(recs: seq<Rec>, s: seq<Rec>, k: int) {
    Sorted(recs) && forall r :: r in recs <==> r in s && r.key != k
  }

  /** Node `id` has taken the record behind record `pos` of its records `g`, and no other node has changed. */
  ghost predicate PutAt(nodes: Nodes, nodes': Nodes, id: nat, g: seq<Rec>, pos: nat, ch: Change, r: Rec) {
    id in nodes && nodes[id].recs == g && pos < |g| && nodes' == nodes[id := nodes[id].(recs := Want(g, pos, ch, r))]
  }

  /** The insertion splits nothing exactly if the node has room. */
  lemma FitsIff(cfg: Config, ls: seq<Level>, c: nat, j: nat, pos: nat, r: Rec)
    requires c < |ls| && j < |ls[c].groups| && pos < |ls[c].groups[j]|
    ensures FitsNode(After(ls[c].groups[j], pos, r), cfg.size) <==> Splits(cfg, ls, c, j, pos, Plain(r)) == 0
  {
    hide Size, Splits;
    NoSplit(cfg, ls, c, j, pos, r);
    FullIff(ls[c].groups[j], pos + 1, r, cfg.size);
  }

  ghost predicate SplitInto(ls: seq<Level>, ls': seq<Level>, t: nat, j: nat, b1: nat, p1: seq<Rec>, b2: nat,
                            p2: seq<Rec>) {
    t < |ls| && j < |ls[t].ids| == |ls[t].groups| && ls' == ls[t := SplitLevel(ls[t], j, b1, p1, b2, p2)]
  }

  ghost predicate GrownInto(ls: seq<Level>, ls': seq<Level>, t: nat, j: nat, b1: nat, p1: seq<Rec>, b2: nat,
                            p2: seq<Rec>) {
    && t < |ls| && j < |ls[t].ids| == |ls[t].groups| && ls[t].groups[j] != [] && p2 != []
    && ls' == ls[t := SplitLevel(ls[t], j, b1, p1, b2, p2)]
              + [Level([ls[t].ids[j]], [[IndexRec(ls[t].groups[j][0], b1), IndexRec(p2[0], b2)]])]
  }

  lemma BareGrown(ls: seq<Level>, ls': seq<Level>, t: nat, j: nat, b1: nat, p1: seq<Rec>, b2: nat, p2: seq<Rec>)
    requires GrownInto(ls, ls', t, j, b1, p1, b2, p2)
    ensures Bare(ls') == Bare(ls[t := SplitLevel(ls[t], j, b1, p1, b2, p2)])
                         + [Level([0], [[Plain(IndexRec(ls[t].groups[j][0], 0)), IndexRec(p2[0], 0)]])]
  {
    hide Bare, SplitLevel;
    GrownBare(ls[t := SplitLevel(ls[t], j, b1, p1, b2, p2)], ls[t].ids[j], IndexRec(ls[t].groups[j][0], b1),
              IndexRec(p2[0], b2));
  }

  lemma BareDivided(ls: seq<Level>, ls': seq<Level>, t: nat, j: nat, b1: nat, p1: seq<Rec>, b2: nat, p2: seq<Rec>)
    requires SplitInto(ls, ls', t, j, b1, p1, b2, p2)
    ensures ls' == ls[t := SplitLevel(ls[t], j, b1, p1, b2, p2)] && forall m :: t < m < |ls| ==> ls'[m] == ls[m]
  {
    hide SplitLevel;
  }

  lemma PlaceOfKey(s: seq<Rec>, k: int, g: nat)
    requires Sorted(s) && g < |s| && s[g].key == k
    ensures PlaceOf(s, k) == g
  {
    PlaceOfLast(s, k, g);
  }

  lemma PutNewTop(cfg: Config, ls: seq<Level>, ls': seq<Level>, c: nat, g: nat, r: Rec)
    requires c < |ls|
    requires Bare(ls') == (var (j, pos) := Spot(ls[c].groups, g); Put(cfg, Bare(ls), c, j, pos, Plain(r)))
    ensures |ls| <= |ls'| && if |ls'| > |ls| then TopCount(ls') == 2 else TopCount(ls') >= TopCount(ls)
  {
    hide Put, Spot, TopCount;
    var (j, pos) := Spot(ls[c].groups, g);
    PutTop(cfg, Bare(ls), c, j, pos, Plain(r));
    TopBare(ls);
    TopBare(ls');
  }

  lemma DemandAt(cfg: Config, ls: seq<Level>, c: nat, g: nat, r: Rec)
    requires c < |ls| && Sorted(Flat(ls[c].groups)) && Last(Flat(ls[c].groups), r.key, g)
    ensures Demand(cfg, ls, c, r) == var (j, pos) := Spot(ls[c].groups, g); Splits(cfg, ls, c, j, pos, Plain(r))
  {
    hide Flat, Spot, Splits;
    PlaceOfLast(Flat(ls[c].groups), r.key, g);
  }

  /** The separator of the right one of two merged nodes is not the first of its node. */
  lemma MergeFate(cfg: Config, ls: seq<Level>, free: nat, c: nat, j: nat)
    requires c + 1 < |ls| && |ls[c + 1].ids| == |ls[c + 1].groups| && |ls[c].ids| == |ls[c].groups|
             && j + 1 < |ls[c].groups|
    requires var (pj, pos) := Spot(ls[c + 1].groups, j + 1); 0 < pos < |GroupAt(ls, c + 1, pj)|
    ensures var (pj, pos) := Spot(ls[c + 1].groups, j + 1);
            FateOf(cfg, Bare(ls[c := MergeLevel(ls[c], j)]), free, c + 1, pj, pos)
            == Settle(cfg, Bare(Merged(ls, c, j, pj, pos)), free, c + 1, pj)
  {
    hide Spot, FateOf, Bare, Settle, MergeLevel;
    var (pj, pos) := Spot(ls[c + 1].groups, j + 1);
    FateInner(cfg, ls[c := MergeLevel(ls[c], j)], free, c + 1, pj, pos);
  }

  lemma AtLeast(lv: Level, j: nat)
    requires j < |lv.groups|
    ensures |Flat(lv.groups)| >= |lv.groups[j]|
  {
    FlatAt(lv.groups, j);
  }

  /** A node with one record is more than a third empty. */
  lemma OneIsRoomy(cfg: Config, ls: seq<Level>, root: nat, c: nat, j: nat)
    requires Upper(cfg, ls, root, c) && Halves(cfg.size, cfg.max) && c < |ls| && j < |ls[c].groups|
    ensures |ls[c].groups[j]| == 1 ==> FreeSpace(ls[c].groups[j], cfg.size) > cfg.size / 3
  {
    UpperGood(cfg, ls, root, c, c);
    var g := ls[c].groups[j];
    if |g| == 1 {
      assert GoodNode(cfg, g) && RecOk(g[0], cfg.max) && g == [g[0]];
      SizeOne(g[0]);
    }
  }

  /** The key of a record of node `j` leads to it. */
  lemma LeadsTo(cfg: Config, lv: Level, j: nat, pos: nat)
    requires Good(cfg, lv) && j < |lv.ids| && pos < |lv.groups[j]|
    ensures At(Index(lv), lv.groups[j][pos].key, j)
  {
    IndexSorted(cfg, lv);
    NodeSorted(cfg, lv, j);
    IndexAt(lv, j);
    if j + 1 < |lv.ids| {
      IndexAt(lv, j + 1);
      NodeSorted(cfg, lv, j + 1);
      FlatAt(lv.groups, j);
      SortedParts(Flat(lv.groups[..j]), lv.groups[j], Flat(lv.groups[j + 1..]));
      assert lv.groups[j + 1..][0] == lv.groups[j + 1];
      assert Flat(lv.groups[j + 1..])[0] == lv.groups[j + 1][0];
    }
  }

  lemma UpperTail(cfg: Config, ls: seq<Level>, root: nat, c: nat)
    requires Upper(cfg, ls, root, c) && c + 1 < |ls|
    ensures Upper(cfg, ls, root, c + 1) && Flat(ls[c + 1].groups) == Index(ls[c])
  {
    hide Good, Flat, Index;
    assert Indexed(cfg, ls, root, c);
  }

  /** Where the separator of node `j` is in its parent, and which neighbours share the parent. */
  lemma InParent(cfg: Config, lv: Level, up: Level, k: int, j: nat, pj: nat, pos: nat)
    requires Good(cfg, lv) && Flat(up.groups) == Index(lv) && At(Index(lv), k, j)
    requires pj < |up.groups| && pos < |up.groups[pj]| && At(Flat(up.groups), k, Place(up.groups, pj, pos))
    ensures j == Place(up.groups, pj, pos) && (pos > 0 ==> j > 0)
    ensures pos + 1 < |up.groups[pj]| ==> j + 1 < |lv.ids|
  {
    IndexSorted(cfg, lv);
    AtUnique(Index(lv), k, j, Place(up.groups, pj, pos));
    if pos + 1 < |up.groups[pj]| {
      PlaceAt(up.groups, pj, pos + 1);
    }
  }

  lemma AtUnique(s: seq<Rec>, k: int, g: nat, h: nat)
    requires Sorted(s) && At(s, k, g) && At(s, k, h)
    ensures g == h
  {
    if s[0].key <= k {
      LastUnique(s, k, g, h);
    }
  }

  lemma MergeEq(lv: Level, j: nat)
    requires |lv.ids| == |lv.groups| && j + 1 < |lv.ids|
    ensures DropNode(SetGroup(lv, j, lv.groups[j] + lv.groups[j + 1]), j + 1) == MergeLevel(lv, j)
  {
  }

  lemma CutMembers(s: seq<Rec>, g: nat)
    requires Sorted(s) && g < |s|
    ensures Sorted(Cut(s, g)) && HasKey(s, s[g].key) && forall r :: r in Cut(s, g) <==> r in s && r.key != s[g].key
  {
    CutSorted(s, g);
    var t := Cut(s, g);
    forall r | r in s && r.key != s[g].key ensures r in t {
      var i :| 0 <= i < |s| && s[i] == r;
      assert t[if i < g then i else i - 1] == r;
    }
  }

  lemma SingleFound(cfg: Config, lv: Level, comp: int -> int)
    requires |lv.ids| == 1
    ensures FoundIn(Index(lv), comp, 0)
  {
    var s := Index(lv);
    if HasEqual(s, comp) {
      var i :| 0 <= i < |s| && comp(s[i].key) == 0;
      assert i == 0;
    } else {
      assert comp(s[0].key) != 0;
    }
  }

  lemma InRange(s: seq<Rec>, comp: int -> int, pos: nat)
    requires FoundIn(s, comp, pos)
    ensures pos < |s|
  {
  }

  /** The child that a record leads to. */
  lemma StepAny(cfg: Config, ls: seq<Level>, root: nat, h: nat, j: nat, pos: nat)
    requires Upper(cfg, ls, root, 0) && 0 < h < |ls| && j < |ls[h].groups| && pos < |ls[h].groups[j]|
    ensures var g := Place(ls[h].groups, j, pos);
            g < |ls[h - 1].ids| && ls[h].groups[j][pos].val == ls[h - 1].ids[g]
                && Flat(ls[h].groups) == Index(ls[h - 1])
  {
    assert Indexed(cfg, ls, root, h - 1);
    PlaceAt(ls[h].groups, j, pos);
    IndexAt(ls[h - 1], Place(ls[h].groups, j, pos));
  }
}
