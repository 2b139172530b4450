/** The free-space manager: the tree of free extents, the on-disk bitmap and the free-block counter,
    kept in agreement over every run of allocations and releases. */
module FsmSpace {
  import opened Bits
  import opened FsmKeys
  import opened FsmTree
  import opened FsmExtents
  import opened FsmSearch
  import opened FsmBtree

  /** `bits` with the range `[off, off + len)` set to `v`. */
  function Filled(bits: seq<bool>, off: nat, len: nat, v: bool): seq<bool>
    requires off + len <= |bits|
  {
    seq(|bits|, i requires 0 <= i < |bits| => if off <= i < off + len then v else bits[i])
  }

  lemma {:induction false} NumClearFilled(bits: seq<bool>, off: nat, len: nat, v: bool)
    requires off + len <= |bits| && forall i :: off <= i < off + len ==> bits[i] != v
    ensures NumClear(Filled(bits, off, len, v)) == if v then NumClear(bits) - len else NumClear(bits) + len
  {
    if len == 0 {
      assert Filled(bits, off, len, v) == bits;
    } else {
      var f := Filled(bits, off, len - 1, v);
      NumClearFilled(bits, off, len - 1, v);
      NumClearUpdate(f, off + len - 1, v);
      assert f[off + len - 1 := v] == Filled(bits, off, len, v);
    }
  }

  /** The clear bits are exactly the blocks of the extents. */
  ghost predicate Agree(bits: seq<bool>, s: seq<Key>) {
    forall b: nat :: Covers(s, b) <==> b < |bits| && !bits[b]
  }

  lemma AgreeTake(bits: seq<bool>, s: seq<Key>, k: Key, n: nat)
    requires Extents(s) && Agree(bits, s) && k in s && n <= k.length
    ensures k.offset + n <= |bits| && (forall i :: k.offset <= i < k.offset + n ==> !bits[i])
    ensures Agree(Filled(bits, k.offset, n, true), Take(s, k, n))
  {
    forall b: nat | k.offset <= b < k.offset + n ensures b < |bits| && !bits[b] {
      assert Has(k, b) && Covers(s, b);
    }
    assert k.offset + n <= |bits| by {
      if n > 0 {
        assert Has(k, k.offset + n - 1) && Covers(s, k.offset + n - 1);
      } else {
        assert Has(k, k.offset) && Covers(s, k.offset);
      }
    }
    TakeExtents(s, k, n);
  }

  lemma TakeMarks(bits: seq<bool>, s: seq<Key>, k: Key, n: nat)
    requires Extents(s) && Agree(bits, s) && k in s && n <= k.length && Total(s) == NumClear(bits)
    requires |bits| > 0 ==> bits[0]
    ensures k.offset > 0 && k.offset + n <= |bits| && (forall i :: k.offset <= i < k.offset + n ==> !bits[i])
    ensures Extents(Take(s, k, n)) && Agree(Filled(bits, k.offset, n, true), Take(s, k, n))
    ensures Total(Take(s, k, n)) == Total(s) - n == NumClear(Filled(bits, k.offset, n, true))
  {
    AgreeTake(bits, s, k, n);
    TakeExtents(s, k, n);
    assert Has(k, k.offset) && Covers(s, k.offset);
    NumClearFilled(bits, k.offset, n, true);
  }

  lemma AgreeGive(bits: seq<bool>, s: seq<Key>, r: seq<Key>, off: nat, len: nat)
    requires Agree(bits, s) && off + len <= |bits| && GivenBack(s, r, off, len)
    ensures Agree(Filled(bits, off, len, false), r)
  {
  }

  /** An extent of at least `n` blocks starts at `at`. */
  ghost predicate StartsAt(s: seq<Key>, at: nat, n: nat) {
    exists k :: k in s && k.offset == at && k.length >= n
  }

  /** `n` blocks were taken from the front of the extent at `block`. */
  ghost predicate TakenAt(s: seq<Key>, r: seq<Key>, block: nat, n: nat) {
    exists k :: k in s && k.offset == block && k.length >= n && r == Take(s, k, n)
  }

  /** What starts elsewhere stays as it is. */
  lemma TakenElsewhere(s: seq<Key>, r: seq<Key>, block: nat, n: nat, at: nat, m: nat)
    requires Extents(s) && TakenAt(s, r, block, n) && at != block && at != block + n
    ensures StartsAt(r, at, m) <==> StartsAt(s, at, m)
  {
    hide With, Without, Total, Sorted, Covers;
    var k :| k in s && k.offset == block && k.length >= n && r == Take(s, k, n);
    WithoutSorted(s, k);
    WithoutExtents(s, k);
    TakeExtents(s, k, n);
    if n < k.length {
      WithMembers(Without(s, k), Key(k.offset + n, k.length - n));
    }
    assert forall x :: x in s && x.offset == at ==> x in r;
    assert forall x :: x in r && x.offset == at ==> x in s;
  }

  /** An extent with a block in use before it still starts there when others are joined. */
  lemma StartsStill(s: seq<Key>, r: seq<Key>, bits: seq<bool>, at: nat, m: nat)
    requires Unbroken(s, r) && Agree(bits, r) && 0 < at <= |bits| && bits[at - 1] && StartsAt(s, at, m)
    ensures StartsAt(r, at, m)
  {
    var k :| k in s && k.offset == at && k.length >= m;
    assert Whole(r, k.offset, k.length);
    var j :| j in r && j.offset <= at && at + k.length <= j.offset + j.length;
    assert !Covers(r, at - 1) && !Has(j, at - 1);
  }

  // Building the tree from the bitmap.

  /** Extent `k` is a run of clear bits that cannot be made longer. */
  ghost predicate MaximalRun(bits: seq<bool>, k: Key) {
    && k.length > 0 && k.offset + k.length <= |bits|
    && (forall b :: k.offset <= b < k.offset + k.length ==> !bits[b])
    && (k.offset == 0 || bits[k.offset - 1])
    && (k.offset + k.length == |bits| || bits[k.offset + k.length])
  }

  /** `s` holds exactly the maximal runs that start before `lim`. */
  ghost predicate RunsBefore(bits: seq<bool>, s: seq<Key>, lim: nat) {
    && Extents(s) && lim <= |bits| && Total(s) == NumClear(bits[..lim])
    && (forall k :: k in s <==> MaximalRun(bits, k) && k.offset < lim)
  }

  /** Where a scan stands at bit `p`: between runs, or in the run that starts at `start`. */
  ghost predicate Scan(bits: seq<bool>, s: seq<Key>, inRun: bool, start: nat, p: nat) {
    && p <= |bits| && RunsBefore(bits, s, if inRun then start else p)
    && (if inRun then
          && start < p && (forall b :: start <= b < p ==> !bits[b]) && (start == 0 || bits[start - 1])
        else p == 0 || bits[p - 1])
  }

  lemma {:induction false} NumClearRange(bits: seq<bool>, a: nat, b: nat, v: bool)
    requires a <= b <= |bits| && forall i :: a <= i < b ==> bits[i] == v
    ensures NumClear(bits[..b]) == NumClear(bits[..a]) + (if v then 0 else b - a)
    decreases b - a
  {
    if a < b {
      NumClearRange(bits, a, b - 1, v);
      assert bits[..b][..b - 1] == bits[..b - 1];
    }
  }

  /** Skipping set bits between runs. */
  lemma ScanSkip(bits: seq<bool>, s: seq<Key>, start: nat, p: nat, q: nat)
    requires Scan(bits, s, false, start, p) && p <= q <= |bits| && forall b :: p <= b < q ==> bits[b]
    ensures Scan(bits, s, false, start, q)
  {
    NumClearRange(bits, p, q, true);
    forall k | MaximalRun(bits, k) && k.offset < q ensures k.offset < p {
      assert !bits[k.offset];
    }
  }

  /** The run that starts at `start` ends at `e`. */
  lemma ScanEnd(bits: seq<bool>, s: seq<Key>, start: nat, e: nat)
    requires Scan(bits, s, true, start, e) && (e == |bits| || bits[e])
    ensures var r := Key(start, e - start);
            var q := if e == |bits| then e else e + 1;
            && r !in s && RunsBefore(bits, With(s, r), q) && (e < |bits| ==> Scan(bits, With(s, r), false, start, q))
  {
    var r := Key(start, e - start);
    var q := if e == |bits| then e else e + 1;
    assert MaximalRun(bits, r);
    forall k | k in s ensures Apart(k, r) {
      assert MaximalRun(bits, k) && k.offset < start;
    }
    WithExtents(s, r);
    WithMembers(s, r);
    NumClearRange(bits, start, e, false);
    NumClearRange(bits, e, q, true);
    forall k | MaximalRun(bits, k) && start <= k.offset < q ensures k == r {
      assert !bits[k.offset];
    }
  }

  lemma ScanStart(bits: seq<bool>)
    ensures Scan(bits, [], false, 0, 0) && Total([]) == 0
  {
    assert bits[..0] == [];
  }

  lemma ScanStop(bits: seq<bool>, s: seq<Key>, start: nat)
    requires Scan(bits, s, false, start, |bits|)
    ensures RunsBefore(bits, s, |bits|)
  {
  }

  /** Maximal runs cover exactly the clear bits. */
  lemma RunsAgree(bits: seq<bool>, s: seq<Key>)
    requires RunsBefore(bits, s, |bits|)
    ensures Extents(s) && Agree(bits, s) && Total(s) == NumClear(bits) && forall k :: k in s <==> MaximalRun(bits, k)
  {
    assert bits[..|bits|] == bits;
    forall b: nat ensures Covers(s, b) <==> b < |bits| && !bits[b] {
      if b < |bits| && !bits[b] {
        var k := RunAround(bits, b);
        assert k in s && Has(k, b);
      }
    }
  }

  lemma RunAround(bits: seq<bool>, b: nat) returns (k: Key)
    requires b < |bits| && !bits[b]
    ensures MaximalRun(bits, k) && Has(k, b)
  {
    var lo, hi := b, b + 1;
    while lo > 0 && !bits[lo - 1]
      invariant 0 <= lo <= b && forall i :: lo <= i <= b ==> !bits[i]
    {
      lo := lo - 1;
    }
    while hi < |bits| && !bits[hi]
      invariant b < hi <= |bits| && forall i :: b <= i < hi ==> !bits[i]
    {
      hi := hi + 1;
    }
    k := Key(lo, hi - lo);
  }

  class Fsm {
    const tree: Btree
    const bits: array<bool>
    const totalBlocks: nat
    var freeBlocks: nat

    /** Builds the tree and the counter from the bitmap, which is `lengthInBytes` long. */
    constructor (bits: array<bool>, lengthInBytes: nat, totalBlocks: nat, order: nat)
      requires order >= 2 && bits.Length == 8 * lengthInBytes && (bits.Length > 0 ==> bits[0])
      ensures Valid() && this.bits == bits && this.totalBlocks == totalBlocks && fresh(tree) && fresh(tree.repr)
      ensures forall k :: k in tree.Contents() <==> MaximalRun(bits[..], k)
    {
      this.bits, this.totalBlocks, freeBlocks := bits, totalBlocks, 0;
      tree := new Btree(order);
      new;
      GetTree(lengthInBytes);
    }

    /** Block 0 is never free; tree, bitmap and counter agree. */
    ghost predicate Valid()
      reads this, bits, tree, tree.repr
    {
      && tree.Valid() && Extents(tree.Contents()) && Agree(bits[..], tree.Contents())
      && (bits.Length > 0 ==> bits[0])
      && freeBlocks == Total(tree.Contents()) == NumClear(bits[..])
    }

    lemma ItsExtents()
      requires Valid()
      ensures Extents(tree.Contents()) && Agree(bits[..], tree.Contents())
    {
    }

    /** A request that reaches the end of the volume from its hint, or for which no free extent is long enough. */
    ghost predicate Refuses(start: nat, length: nat)
      reads this, bits, tree, tree.repr
      requires Valid()
    {
      start + length >= totalBlocks || forall k :: k in tree.Contents() ==> k.length < length
    }

    /** A free extent that starts at `start` and is long enough. */
    ghost predicate FreeAt(start: nat, length: nat)
      reads this, bits, tree, tree.repr
      requires Valid()
    {
      StartsAt(tree.Contents(), start, length)
    }

    /** Sets or clears a range of bits. */
    method MarkBits(off: nat, len: nat, v: bool)
      requires off + len <= bits.Length && forall i :: off <= i < off + len ==> bits[i] != v
      modifies bits
      ensures bits[..] == Filled(old(bits[..]), off, len, v)
    {
      var index := 0;
      while index < len
        invariant index <= len
        invariant forall i :: 0 <= i < bits.Length ==> bits[i] == if off <= i < off + index then v else old(bits[i])
      {
        // the test half of test-and-set (or test-and-clear) never trips
        assert bits[off + index] != v;
        bits[off + index] := v;
        index := index + 1;
      }
    }

    /** Allocates `length` blocks, at `start` if they are free there. */
    method GetFreeBlock(start: nat, length: nat) returns (block: nat)
      requires Valid()
      modifies this, bits, tree, tree.repr
      ensures Valid() && fresh(tree.repr - old(tree.repr))
      ensures block == 0 ==> bits[..] == old(bits[..]) && tree.Contents() == old(tree.Contents())
                             && freeBlocks == old(freeBlocks)
      ensures block == 0 <==> old(Refuses(start, length))
      ensures block != 0 ==>
                && block + length <= bits.Length && (forall i :: block <= i < block + length ==> !old(bits[i]))
                && bits[..] == Filled(old(bits[..]), block, length, true)
                && freeBlocks == old(freeBlocks) - length
      ensures block != 0 ==> (block == start <==> old(FreeAt(start, length)))
      ensures block != 0 ==> TakenAt(old(tree.Contents()), tree.Contents(), block, length)
      ensures block != 0 && block != start ==>
                exists k :: FirstLong(old(tree.ByLevel()), length, k) && k.offset == block
    {
      hide Btree.Valid, Btree.Contents, Total, NumClear, Agree, Take, Covers, FirstLong, Wide;
      block := 0;
      if start + length >= totalBlocks {
        return;
      }
      ghost var s := tree.Contents();
      ghost var hit, k;
      block, hit, k := tree.Lookup(start, length);
      if hit {
        TakeMarks(bits[..], s, k, length);
      }
      if block != 0 {
        freeBlocks := freeBlocks - length;
        MarkBits(block, length, true);
      }
    }

    /** Releases `length` blocks in use, starting at `block`. */
    method FreeBlockChunk(block: nat, length: nat)
      requires Valid() && 0 < block && 0 < length && block + length <= bits.Length
      requires forall i :: block <= i < block + length ==> bits[i]
      modifies this, bits, tree, tree.repr
      ensures Valid() && fresh(tree.repr - old(tree.repr))
      ensures bits[..] == Filled(old(bits[..]), block, length, false)
      ensures freeBlocks == old(freeBlocks) + length
      ensures Whole(tree.Contents(), block, length) && Unbroken(old(tree.Contents()), tree.Contents())
      ensures tree.Contents() == Coalesced(old(tree.Contents()), old(tree.RightEdge()), block, length)
      ensures old(tree.OneNode()) && Maximal(old(tree.Contents())) ==> Maximal(tree.Contents())
    {
      hide Btree.Valid, Btree.Contents, Whole, Unbroken, Total, NumClear, Filled, Coalesced, Edge, Maximal;
      ghost var s := tree.Contents();
      assert InUse(s, block, length);
      tree.Free(block, length);
      freeBlocks := freeBlocks + length;
      AgreeGive(bits[..], s, tree.Contents(), block, length);
      NumClearFilled(bits[..], block, length, false);
      MarkBits(block, length, false);
    }

    /** The scan state at bit `p` of the bitmap `bs`. */
    ghost predicate Scanning(bs: seq<bool>, inRun: bool, start: nat, p: nat)
      reads this, tree, tree.repr
    {
      tree.Valid() && Scan(bs, tree.Contents(), inRun, start, p) && freeBlocks == Total(tree.Contents())
    }

    /** Adds the free extent `[start, e)` that the scan has found. */
    method InsertRun(start: nat, e: nat, ghost bs: seq<bool>)
      requires Scanning(bs, true, start, e) && (e == |bs| || bs[e])
      modifies this`freeBlocks, tree, tree.repr
      ensures tree.Valid() && fresh(tree.repr - old(tree.repr)) && freeBlocks == Total(tree.Contents())
      ensures e < |bs| ==> Scanning(bs, false, start, e + 1)
      ensures e == |bs| ==> RunsBefore(bs, tree.Contents(), |bs|)
    {
      hide Btree.Valid, Btree.Contents, Total, With, RunsBefore;
      ScanEnd(bs, tree.Contents(), start, e);
      var length := e - start;
      TotalWith(tree.Contents(), Key(start, length));
      var found := tree.Insert(Key(start, length));
      freeBlocks := freeBlocks + length;
    }

    /** The first bit of the 32-bit word at `base` with value `v`, or 32. */
    method FindInWord(base: nat, v: bool) returns (off: nat)
      requires base + 32 <= bits.Length
      ensures off <= 32 && (forall x :: base <= x < base + off ==> bits[x] != v) && (off < 32 ==> bits[base + off] == v)
    {
      off := 0;
      while off < 32 && bits[base + off] != v
        invariant off <= 32 && forall x :: base <= x < base + off ==> bits[x] != v
      {
        off := off + 1;
      }
    }

    /** Scans bit `p`. */
    method ScanBit(inRun: bool, start: nat, p: nat, ghost bs: seq<bool>) returns (inRun': bool, start': nat)
      requires Scanning(bs, inRun, start, p) && p < bits.Length && bits[..] == bs
      modifies this`freeBlocks, tree, tree.repr
      ensures Scanning(bs, inRun', start', p + 1) && fresh(tree.repr - old(tree.repr))
    {
      hide Btree.Valid, Btree.Contents;
      inRun', start' := inRun, start;
      assert bits[p] == bs[p];
      if !inRun {
        if !bits[p] {
          inRun', start' := true, p;
        } else {
          ScanSkip(bs, tree.Contents(), start, p, p + 1);
        }
      } else if bits[p] {
        InsertRun(start, p, bs);
        inRun' := false;
      }
    }

    /** Scans the 32-bit word at `base`; a word that cannot change the state is skipped, in any other
        the scan starts at the first bit that does. */
    method ScanWord(base: nat, inRun0: bool, start0: nat, ghost bs: seq<bool>) returns (inRun: bool, start: nat)
      requires base + 32 <= bits.Length && Scanning(bs, inRun0, start0, base) && bits[..] == bs
      modifies this`freeBlocks, tree, tree.repr
      ensures Scanning(bs, inRun, start, base + 32) && fresh(tree.repr - old(tree.repr))
    {
      hide Btree.Valid, Btree.Contents, Scan;
      inRun, start := inRun0, start0;
      var off := FindInWord(base, inRun);
      assert forall x :: base <= x < base + off ==> bs[x] != inRun;
      var p := base + off;
      Jump(bs, inRun, start, base, p);
      while p < base + 32
        invariant base <= p <= base + 32 && Scanning(bs, inRun, start, p) && fresh(tree.repr - old(tree.repr))
      {
        inRun, start := ScanBit(inRun, start, p, bs);
        p := p + 1;
      }
    }

    /** Bits that do not end the current state do not change it. */
    lemma Jump(bs: seq<bool>, inRun: bool, start: nat, p: nat, q: nat)
      requires p <= q <= |bs| && Scanning(bs, inRun, start, p) && forall x :: p <= x < q ==> bs[x] != inRun
      ensures Scanning(bs, inRun, start, q)
    {
      if !inRun {
        ScanSkip(bs, tree.Contents(), start, p, q);
      }
    }

    /** Builds the tree from the bitmap: whole words first, then the bits of the last, partial word. */
    method GetTree(lengthInBytes: nat)
      requires tree.Valid() && tree.Contents() == [] && bits.Length == 8 * lengthInBytes
               && (bits.Length > 0 ==> bits[0])
      modifies this`freeBlocks, tree, tree.repr
      ensures Valid() && fresh(tree.repr - old(tree.repr))
      ensures forall k :: k in tree.Contents() <==> MaximalRun(bits[..], k)
    {
      hide Btree.Valid, Btree.Contents, Scan, RunsBefore;
      ghost var bs := bits[..];
      var size := lengthInBytes / 4;
      var restSize := lengthInBytes - 4 * size;
      freeBlocks := 0;
      ScanStart(bs);
      var inRun, start, p, i := false, 0, 0, 0;
      while i < size
        invariant i <= size && p == 32 * i && bits[..] == bs
        invariant Scanning(bs, inRun, start, p) && fresh(tree.repr - old(tree.repr))
      {
        inRun, start := ScanWord(p, inRun, start, bs);
        i, p := i + 1, p + 32;
      }
      while p < 32 * size + restSize * 8
        invariant p <= bits.Length && bits[..] == bs
        invariant Scanning(bs, inRun, start, p) && fresh(tree.repr - old(tree.repr))
      {
        inRun, start := ScanBit(inRun, start, p, bs);
        p := p + 1;
      }
      if inRun {
        InsertRun(start, p, bs);
      } else {
        ScanStop(bs, tree.Contents(), start);
      }
      RunsAgree(bs, tree.Contents());
    }
  }
}
