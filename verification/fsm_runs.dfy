/** Whole runs of the allocator: any mix of requests and releases by its users. */
module FsmRuns {
  import opened FsmKeys
  import opened FsmExtents
  import opened FsmBtree
  import opened FsmSpace

  /** A request for `length` blocks near `start`, or the release of the last `n` blocks of range `i`. */
  datatype Op = Alloc(start: nat, length: nat) | Release(i: nat, n: nat)

  /** `owned` is what users hold: no block twice, none that was in use at the start, and with the
      blocks in use at the start exactly the set bits. */
  ghost predicate Ledger(bits0: seq<bool>, bits: seq<bool>, owned: seq<Key>) {
    && |bits| == |bits0|
    && (forall i :: 0 <= i < |owned| ==> 0 < owned[i].offset && owned[i].offset + owned[i].length <= |bits|)
    && (forall i, j, b: nat :: 0 <= i < j < |owned| && Has(owned[i], b) ==> !Has(owned[j], b))
    && (forall b: nat :: b < |bits| ==> (bits[b] <==> bits0[b] || Covers(owned, b)))
    && (forall b: nat :: b < |bits| && Covers(owned, b) ==> !bits0[b])
  }

  lemma LedgerTake(bits0: seq<bool>, bits: seq<bool>, owned: seq<Key>, k: Key)
    requires Ledger(bits0, bits, owned) && 0 < k.offset && k.offset + k.length <= |bits|
    requires forall b :: k.offset <= b < k.offset + k.length ==> !bits[b]
    ensures Ledger(bits0, Filled(bits, k.offset, k.length, true), owned + [k])
            && Total(owned + [k]) == Total(owned) + k.length
  {
    var o := owned + [k];
    TotalConcat(owned, [k]);
    forall i, j, b: nat | 0 <= i < j < |o| && Has(o[i], b) ensures !Has(o[j], b) {
      if j == |owned| && b < |bits| {
        assert o[i] in owned && Covers(owned, b);
      }
    }
    forall b: nat ensures Covers(o, b) <==> Covers(owned, b) || Has(k, b) {
      assert k in o && forall x :: x in o <==> x in owned || x == k;
    }
  }

  lemma {:induction false} TotalUpdate(s: seq<Key>, i: nat, k: Key)
    requires i < |s|
    ensures Total(s[i := k]) == Total(s) - s[i].length + k.length
  {
    assert s == s[..i] + [s[i]] + s[i + 1..] && s[i := k] == s[..i] + [k] + s[i + 1..];
    TotalConcat(s[..i] + [s[i]], s[i + 1..]);
    TotalConcat(s[..i] + [k], s[i + 1..]);
    TotalConcat(s[..i], [s[i]]);
    TotalConcat(s[..i], [k]);
  }

  /** Shortening one of several disjoint ranges uncovers exactly the blocks it loses. */
  lemma CoversShorter(owned: seq<Key>, i: nat, n: nat, b: nat)
    requires i < |owned| && n <= owned[i].length
    requires forall i, j, b: nat :: 0 <= i < j < |owned| && Has(owned[i], b) ==> !Has(owned[j], b)
    ensures var k := owned[i]; var e := k.offset + k.length;
            Covers(owned[i := Key(k.offset, k.length - n)], b) <==> Covers(owned, b) && !(e - n <= b < e)
  {
    var o := owned[i := Key(owned[i].offset, owned[i].length - n)];
    if Covers(o, b) {
      var x :| x in o && Has(x, b);
      var j :| 0 <= j < |o| && o[j] == x;
      assert owned[j] in owned && Has(owned[j], b);
    } else if Covers(owned, b) {
      var x :| x in owned && Has(x, b);
      var j :| 0 <= j < |owned| && owned[j] == x;
      assert o[j] in o;
    }
  }

  lemma HeldCovered(owned: seq<Key>, i: nat)
    requires i < |owned|
    ensures forall b: nat :: Has(owned[i], b) ==> Covers(owned, b)
  {
  }

  lemma LedgerGive(bits0: seq<bool>, bits: seq<bool>, owned: seq<Key>, i: nat, n: nat)
    requires Ledger(bits0, bits, owned) && i < |owned| && n <= owned[i].length
    ensures var k := owned[i]; var k' := Key(k.offset, k.length - n); var o := owned[i := k'];
            && Ledger(bits0, Filled(bits, k.offset + k'.length, n, false), o) && Total(o) == Total(owned) - n
            && forall b :: k.offset <= b < k.offset + k.length ==> bits[b]
  {
    hide Covers, Total;
    var k := owned[i];
    var k' := Key(k.offset, k.length - n);
    var o := owned[i := k'];
    TotalUpdate(owned, i, k');
    forall b: nat ensures Covers(o, b) <==> Covers(owned, b) && !(k.offset + k'.length <= b < k.offset + k.length) {
      CoversShorter(owned, i, n, b);
    }
    HeldCovered(owned, i);
  }

  /** What users hold after `ops`, where `blocks` are the answers: 0 for a request that was refused. */
  function Held(ops: seq<Op>, blocks: seq<nat>): seq<Key>
    requires |ops| == |blocks|
  {
    if ops == [] then [] else
    var last := |ops| - 1;
    After(Held(ops[..last], blocks[..last]), ops[last], blocks[last])
  }

  function After(held: seq<Key>, op: Op, block: nat): seq<Key> {
    match op
    case Alloc(_, length) => if block == 0 then held else held + [Key(block, length)]
    case Release(i, n) =>
      if i < |held| && 0 < n <= held[i].length then held[i := Key(held[i].offset, held[i].length - n)] else held
  }

  lemma HeldNext(ops: seq<Op>, blocks: seq<nat>, x: nat, block: nat)
    requires x == |blocks| < |ops|
    ensures Held(ops[..x + 1], blocks + [block]) == After(Held(ops[..x], blocks), ops[x], block)
  {
    assert ops[..x + 1][..x] == ops[..x] && (blocks + [block])[..x] == blocks;
  }

  /** However users take and give back space, no block is ever held twice or lost: the free blocks and
      the held ones are exactly those that were free at the start. */
  method Serve(fsm: Fsm, ops: seq<Op>) returns (blocks: seq<nat>)
    requires fsm.Valid()
    modifies fsm, fsm.bits, fsm.tree, fsm.tree.repr
    ensures |blocks| == |ops| && fsm.Valid() && Ledger(old(fsm.bits[..]), fsm.bits[..], Held(ops, blocks))
    ensures fsm.freeBlocks + Total(Held(ops, blocks)) == old(fsm.freeBlocks)
  {
    hide Fsm.Valid, Btree.Valid, Btree.Contents, Ledger, Held, Total;
    ghost var bits0 := fsm.bits[..];
    var owned := [];
    blocks := [];
    NothingHeld(bits0);
    var x := 0;
    while x < |ops|
      invariant x <= |ops| && |blocks| == x && owned == Held(ops[..x], blocks)
      invariant fsm.Valid() && Ledger(bits0, fsm.bits[..], owned)
      invariant fsm.freeBlocks + Total(owned) == old(fsm.freeBlocks) && fresh(fsm.tree.repr - old(fsm.tree.repr))
    {
      var block;
      owned, block := Do(fsm, ops[x], owned, bits0);
      HeldNext(ops, blocks, x, block);
      blocks, x := blocks + [block], x + 1;
    }
    assert ops[..x] == ops;
  }

  lemma NothingHeld(bits: seq<bool>)
    ensures Ledger(bits, bits, []) && Total([]) == 0 && Held([], []) == []
  {
  }

  lemma LedgerFacts(bits0: seq<bool>, bits: seq<bool>, owned: seq<Key>)
    requires Ledger(bits0, bits, owned)
    ensures forall i :: 0 <= i < |owned| ==> 0 < owned[i].offset && owned[i].offset + owned[i].length <= |bits|
  {
  }

  /** One request or release. */
  method Do(fsm: Fsm, op: Op, owned: seq<Key>, ghost bits0: seq<bool>) returns (owned': seq<Key>, block: nat)
    requires fsm.Valid() && Ledger(bits0, fsm.bits[..], owned)
    modifies fsm, fsm.bits, fsm.tree, fsm.tree.repr
    ensures fsm.Valid() && Ledger(bits0, fsm.bits[..], owned') && owned' == After(owned, op, block)
    ensures fsm.freeBlocks + Total(owned') == old(fsm.freeBlocks) + Total(owned)
            && fresh(fsm.tree.repr - old(fsm.tree.repr))
    ensures op.Alloc? ==> (block == 0 <==> old(fsm.Refuses(op.start, op.length)))
  {
    hide Fsm.Valid, Btree.Valid, Btree.Contents, Total, Ledger, Filled, Whole, Unbroken;
    ghost var bits := fsm.bits[..];
    LedgerFacts(bits0, bits, owned);
    owned', block := owned, 0;
    match op {
      case Alloc(start, length) =>
        block := fsm.GetFreeBlock(start, length);
        if block != 0 {
          LedgerTake(bits0, bits, owned, Key(block, length));
          owned' := owned + [Key(block, length)];
        }
      case Release(i, n) =>
        if i < |owned| && 0 < n <= owned[i].length {
          var k := owned[i];
          LedgerGive(bits0, bits, owned, i, n);
          fsm.FreeBlockChunk(k.offset + k.length - n, n);
          owned' := owned[i := Key(k.offset, k.length - n)];
        }
    }
  }
}
