/** Insertion, deletion and merging in the bytes of a B+tree node. */
module PageNode {
  import opened Bytes
  import opened Seqs
  import opened BtRecords
  import opened BtSplit
  import opened PageLayout

  /** Stores the bytes `bs` at `at`. */
  method MemCopy(data: array<byte>, at: nat, bs: seq<byte>)
    requires at + |bs| <= data.Length
    modifies data
    ensures data[..] == Put(old(data[..]), at, bs)
  {
    var i := 0;
    while i < |bs|
      invariant i <= |bs|
      invariant forall x :: 0 <= x < data.Length ==> data[x] == if at <= x < at + i then bs[x - at] else old(data[x])
    {
      data[at + i] := bs[i];
      i := i + 1;
    }
  }

  /** Moves `len` bytes within the page; the ranges may overlap. */
  method MemMove(data: array<byte>, to: nat, from: nat, len: nat)
    requires to + len <= data.Length && from + len <= data.Length
    modifies data
    ensures data[..] == Put(old(data[..]), to, old(data[..])[from..from + len])
  {
    ghost var b := data[..];
    if to <= from {
      MoveDown(data, to, from, len);
    } else {
      MoveUp(data, to, from, len);
    }
    PutElements(b, to, b[from..from + len], data[..]);
  }

  method MoveDown(data: array<byte>, to: nat, from: nat, len: nat)
    requires to <= from && from + len <= data.Length
    modifies data
    ensures forall x :: 0 <= x < data.Length ==>
              data[x] == if to <= x < to + len then old(data[x - to + from]) else old(data[x])
  {
    var i := 0;
    while i < len
      invariant i <= len
      invariant forall x :: 0 <= x < data.Length ==>
                  data[x] == if to <= x < to + i then old(data[x - to + from]) else old(data[x])
    {
      data[to + i] := data[from + i];
      i := i + 1;
    }
  }

  method MoveUp(data: array<byte>, to: nat, from: nat, len: nat)
    requires from < to && to + len <= data.Length
    modifies data
    ensures forall x :: 0 <= x < data.Length ==>
              data[x] == if to <= x < to + len then old(data[x - to + from]) else old(data[x])
  {
    var i := len;
    while i > 0
      invariant 0 <= i <= len
      invariant forall x :: 0 <= x < data.Length ==>
                  data[x] == if to + i <= x < to + len then old(data[x - to + from]) else old(data[x])
    {
      i := i - 1;
      data[to + i] := data[from + i];
    }
  }

  // Insertion.

  ghost function InsertPerm(perm: seq<nat>, pos: nat): seq<nat>
    requires pos <= |perm|
  {
    perm[..pos] + [|perm|] + perm[pos..]
  }

  lemma OffAppend(phys: seq<seq<byte>>, r: seq<byte>, p: nat)
    requires p <= |phys|
    ensures Off(phys + [r], p) == Off(phys, p) && Off(phys + [r], |phys| + 1) == Off(phys, |phys|) + |r|
  {
    assert (phys + [r])[..p] == phys[..p];
    OffNext(phys + [r], |phys|);
    assert (phys + [r])[..|phys|] == phys[..|phys|];
  }

  lemma InsertOffs(phys: seq<seq<byte>>, perm: seq<nat>, r: seq<byte>, pos: nat)
    requires IsPerm(perm, |phys|) && pos <= |perm|
    ensures IsPerm(InsertPerm(perm, pos), |phys| + 1)
    ensures var n := |phys|; var t := Offs(phys, perm); var fo := Off(phys, n);
            Offs(phys + [r], InsertPerm(perm, pos)) == t[..pos] + [fo] + t[pos..n] + [fo + |r|]
  {
    hide Flat;
    var n, perm' := |phys|, InsertPerm(perm, pos);
    forall p | 0 <= p <= n ensures Off(phys + [r], p) == Off(phys, p) {
      OffAppend(phys, r, p);
    }
    OffAppend(phys, r, n);
    hide Off;
    assert forall i :: 0 <= i <= n ==> perm'[i] == if i < pos then perm[i] else if i == pos then n else perm[i - 1];
    var s, s' := Offs(phys + [r], perm'),
        Offs(phys, perm)[..pos] + [Off(phys, n)] + Offs(phys, perm)[pos..n] + [Off(phys, n) + |r|];
    forall i | 0 <= i <= n + 1 ensures s[i] == s'[i] {
      if i > pos && i <= n {
        assert perm'[i] == perm[i - 1] && s'[i] == Offs(phys, perm)[pos..n][i - pos - 1] == Offs(phys, perm)[i - 1];
      }
    }
  }

  lemma InsertedRecords(phys: seq<seq<byte>>, perm: seq<nat>, r: seq<byte>, pos: nat)
    requires IsPerm(perm, |phys|) && pos <= |perm|
    ensures IsPerm(InsertPerm(perm, pos), |phys| + 1)
    ensures Records(phys + [r], InsertPerm(perm, pos)) == Records(phys, perm)[..pos] + [r] + Records(phys, perm)[pos..]
  {
  }

  lemma InsertTable(b1: seq<byte>, n: nat, pos: nat, fo: nat, end: nat)
    requires pos <= n && SlotAddr(|b1|, n + 1) >= end && fo < WORD32 && end < WORD32
    ensures var b2 := if pos < n then MoveSlots(b1, pos, n) else b1;
            var b3 := SetSlot(b2, pos, fo); var b4 := SetSlot(b3, n + 1, end); var t := Table(b1, n);
            Table(b4, n + 1) == t[..pos] + [fo] + t[pos..n] + [end] && b4[..end] == b1[..end]
  {
    hide Slot, SetSlot, MoveSlots, Table;
    var b2 := if pos < n then MoveSlots(b1, pos, n) else b1;
    var t := Table(b1, n);
    if pos < n {
      TableMoved(b1, pos, n);
    }
    var b3 := SetSlot(b2, pos, fo);
    TableSet(b2, n, pos, fo);
    TableTake(b3, n + 1, n);
    TableSet(b3, n + 1, n + 1, end);
    var t2, t3 := Table(b2, n), Table(b3, n + 1);
    assert t2[pos := fo] == t[..pos] + [fo] + t[pos..n];
    assert t3[n + 1 := end] == t3[..n + 1] + [end];
  }

  lemma InsertedPage(b: seq<byte>, n: nat, free: nat, phys: seq<seq<byte>>, perm: seq<nat>, r: seq<byte>, pos: nat)
    requires PageOk(b, n, free, phys, perm) && RecordOk(r) && pos <= n && |r| + SLOT <= free
    ensures Off(phys, n) + |r| <= |b|
    ensures var fo := Off(phys, n); var b1 := Put(b, fo, r);
            var b2 := if pos < n then MoveSlots(b1, pos, n) else b1;
            var b4 := SetSlot(SetSlot(b2, pos, fo), n + 1, fo + |r|);
            PageOk(b4, n + 1, free - |r| - SLOT, phys + [r], InsertPerm(perm, pos))
  {
    hide Slot, SetSlot, MoveSlots, Table, Offs, Flat, Put, Off;
    var fo, end := Off(phys, n), Off(phys, n) + |r|;
    var b1 := Put(b, fo, r);
    TableKept(b, n, fo, r);
    InsertTable(b1, n, pos, fo, end);
    InsertOffs(phys, perm, r, pos);
    OffAppend(phys, r, n);
    OffWhole(phys);
    AppendArea(b, fo, phys, r);
    var b2 := if pos < n then MoveSlots(b1, pos, n) else b1;
    var b4 := SetSlot(SetSlot(b2, pos, fo), n + 1, end);
    PrefixSlice(b4, b1, end, DESCR, end);
  }

  lemma AppendArea(b: seq<byte>, fo: nat, phys: seq<seq<byte>>, r: seq<byte>)
    requires DESCR <= fo && fo + |r| <= |b| && b[DESCR..fo] == Flat(phys)
    ensures Put(b, fo, r)[DESCR..fo + |r|] == Flat(phys + [r])
  {
    FlatConcat(phys, [r]);
    FlatOne(r);
  }

  // Deletion.

  function Down(q: nat, p: nat): nat {
    if q > p then q - 1 else q
  }

  ghost function DeletePerm(perm: seq<nat>, idx: nat): seq<nat>
    requires idx < |perm|
  {
    seq(|perm| - 1, i requires 0 <= i < |perm| - 1 => Down(perm[Skip(i, idx)], perm[idx]))
  }

  /** The index before the deletion of what has index `i` after it. */
  function Skip(i: nat, idx: nat): nat {
    if i < idx then i else i + 1
  }

  lemma PermDiffer(perm: seq<nat>, n: nat, i: nat, j: nat)
    requires IsPerm(perm, n) && i < n && j < n && i != j
    ensures perm[i] != perm[j] && perm[i] < n
  {
  }

  lemma SkipDiffer(perm: seq<nat>, n: nat, idx: nat, i: nat)
    requires IsPerm(perm, n) && idx < n && i + 1 < n
    ensures perm[Skip(i, idx)] != perm[idx] && perm[Skip(i, idx)] < n
            && DeletePerm(perm, idx)[i] == Down(perm[Skip(i, idx)], perm[idx])
  {
    PermDiffer(perm, n, Skip(i, idx), idx);
  }

  ghost function Without(phys: seq<seq<byte>>, p: nat): seq<seq<byte>>
    requires p < |phys|
  {
    phys[..p] + phys[p + 1..]
  }

  lemma OffWithout(phys: seq<seq<byte>>, p: nat, q: nat)
    requires p < |phys| && q < |phys|
    ensures q <= p ==> Off(Without(phys, p), q) == Off(phys, q)
    ensures q >= p ==> Off(Without(phys, p), q) == Off(phys, q + 1) - |phys[p]|
  {
    hide Flat;
    var w := Without(phys, p);
    if q <= p {
      assert w[..q] == phys[..q];
    }
    if q >= p {
      assert w[..q] == phys[..p] + phys[p + 1..q + 1];
      assert phys[..q + 1] == phys[..p] + [phys[p]] + phys[p + 1..q + 1];
      FlatConcat(phys[..p], phys[p + 1..q + 1]);
      FlatThree(phys[..p], phys[p], phys[p + 1..q + 1]);
    }
  }

  lemma DeletePermOk(perm: seq<nat>, idx: nat)
    requires IsPerm(perm, |perm|) && idx < |perm|
    ensures IsPerm(DeletePerm(perm, idx), |perm| - 1)
  {
    var n, p, perm' := |perm|, perm[idx], DeletePerm(perm, idx);
    forall i | 0 <= i < n - 1 ensures perm'[i] < n - 1 {
      SkipDiffer(perm, n, idx, i);
      PermBound(perm, n, idx);
    }
    forall i, j | 0 <= i < j < n - 1 ensures perm'[i] != perm'[j] {
      SkipDiffer(perm, n, idx, i);
      SkipDiffer(perm, n, idx, j);
      PermDiffer(perm, n, Skip(i, idx), Skip(j, idx));
    }
    hide DeletePerm;
  }

  lemma PermBound(perm: seq<nat>, n: nat, i: nat)
    requires IsPerm(perm, n) && i < n
    ensures perm[i] < n
  {
  }

  /** The offsets after deletion: those behind the record move down, its own goes. */
  lemma DeleteOffs(phys: seq<seq<byte>>, perm: seq<nat>, idx: nat, i: nat)
    requires IsPerm(perm, |phys|) && idx < |phys| && i < |phys| - 1 && forall p :: 0 <= p < |phys| ==> phys[p] != []
    ensures IsPerm(DeletePerm(perm, idx), |phys| - 1)
    ensures var p := perm[idx]; var x := Off(phys, perm[Skip(i, idx)]); var del := Off(phys, p);
            Off(Without(phys, p), DeletePerm(perm, idx)[i]) == if x > del then x - |phys[p]| else x
  {
    DeletePermOk(perm, idx);
    var p, q := perm[idx], perm[Skip(i, idx)];
    if q > p {
      OffWithout(phys, p, q - 1);
      OffMono(phys, p, q);
    } else {
      OffWithout(phys, p, q);
      OffMono(phys, q, p);
    }
  }

  /** Slot `i` of a table in which the offsets above `del` have moved down by `len`. */
  function Lowered(t: seq<nat>, del: nat, len: nat): (r: seq<nat>)
    ensures |r| == |t|
  {
    seq(|t|, i requires 0 <= i < |t| => if i < |t| - 1 && t[i] > del && t[i] >= len then t[i] - len else t[i])
  }

  lemma DeletedTable(phys: seq<seq<byte>>, perm: seq<nat>, idx: nat)
    requires IsPerm(perm, |phys|) && idx < |phys| && forall p :: 0 <= p < |phys| ==> phys[p] != []
    ensures IsPerm(DeletePerm(perm, idx), |phys| - 1)
    ensures var n := |phys|; var p := perm[idx]; var len := |phys[p]|;
            var u := Lowered(Offs(phys, perm), Off(phys, p), len);
            Off(phys, n) >= len && Offs(Without(phys, p),
                                        DeletePerm(perm, idx)) == u[..idx] + u[idx + 1..n] + [Off(phys, n) - len]
  {
    var n, p := |phys|, perm[idx];
    var len, del := |phys[p]|, Off(phys, p);
    DeletePermOk(perm, idx);
    OffWithout(phys, p, n - 1);
    OffMono(phys, p, n);
    var t := Offs(phys, perm);
    var u := Lowered(t, del, len);
    var s, s' := Offs(Without(phys, p), DeletePerm(perm, idx)), u[..idx] + u[idx + 1..n] + [Off(phys, n) - len];
    forall i | 0 <= i < n - 1 ensures s[i] == s'[i] {
      var i' := Skip(i, idx);
      DeleteOffs(phys, perm, idx, i);
      assert s'[i] == u[i'] && t[i'] == Off(phys, perm[i']);
      if t[i'] > del {
        Behind(phys, p, perm[i']);
      }
    }
  }

  lemma Behind(phys: seq<seq<byte>>, p: nat, q: nat)
    requires p < |phys| && q < |phys| && Off(phys, q) > Off(phys, p) && forall x :: 0 <= x < |phys| ==> phys[x] != []
    ensures Off(phys, q) >= Off(phys, p) + |phys[p]|
  {
    if p < q {
      OffMono(phys, p, q);
    } else if q < p {
      OffMono(phys, q, p);
    }
  }

  lemma DeletedRecords(phys: seq<seq<byte>>, perm: seq<nat>, idx: nat)
    requires IsPerm(perm, |phys|) && idx < |phys|
    ensures IsPerm(DeletePerm(perm, idx), |phys| - 1)
    ensures Records(Without(phys, perm[idx]), DeletePerm(perm, idx))
            == Records(phys, perm)[..idx] + Records(phys, perm)[idx + 1..]
  {
    DeletePermOk(perm, idx);
    var n := |phys|;
    var w := Without(phys, perm[idx]);
    var s, s' := Records(w, DeletePerm(perm, idx)), Records(phys, perm)[..idx] + Records(phys, perm)[idx + 1..];
    forall i | 0 <= i < n - 1 ensures s[i] == s'[i] {
      SkipDiffer(perm, n, idx, i);
      assert s'[i] == phys[perm[Skip(i, idx)]];
    }
  }

  /** The record area after the records behind the deleted one have been moved down. */
  lemma DeletedArea(b: seq<byte>, n: nat, free: nat, phys: seq<seq<byte>>, perm: seq<nat>, p: nat)
    requires PageOk(b, n, free, phys, perm) && p < n
    ensures var del, len, fo := Off(phys, p), |phys[p]|, Off(phys, n);
            && del + len <= fo <= |b| && Put(b, del, b[del + len..fo])[DESCR..fo - len] == Flat(Without(phys, p))
  {
    hide Table, Offs, Flat, IsPerm, Put;
    var del, len, fo := Off(phys, p), |phys[p]|, Off(phys, n);
    OffWhole(phys);
    FlatAt(phys, p);
    FlatConcat(phys[..p], phys[p + 1..]);
    CutArea(b, Flat(phys[..p]), phys[p], Flat(phys[p + 1..]), fo);
  }

  lemma CutArea(b: seq<byte>, x: seq<byte>, y: seq<byte>, z: seq<byte>, fo: nat)
    requires fo <= |b| && fo == DESCR + |x| + |y| + |z| && b[DESCR..fo] == x + y + z
    ensures var del := DESCR + |x|; Put(b, del, b[del + |y|..fo])[DESCR..fo - |y|] == x + z
  {
    var del := DESCR + |x|;
    SliceInside(b, DESCR, fo, |x| + |y|, |z|);
    SliceInside(b, DESCR, fo, 0, |x|);
    assert b[del + |y|..fo] == z && b[DESCR..del] == x;
    PutExact(b, del, z);
    PutSlice(b, del, z, DESCR, del);
    var b' := Put(b, del, z);
    assert b'[DESCR..fo - |y|] == b'[DESCR..del] + b'[del..del + |z|];
  }

  // Merging.

  ghost function MergePerm(permL: seq<nat>, permR: seq<nat>): seq<nat> {
    permL + seq(|permR|, i requires 0 <= i < |permR| => permR[i] + |permL|)
  }

  lemma OffConcat(physL: seq<seq<byte>>, physR: seq<seq<byte>>, q: nat)
    ensures q <= |physL| ==> Off(physL + physR, q) == Off(physL, q)
    ensures q <= |physR| ==> Off(physL + physR, |physL| + q) == Off(physL, |physL|) + Off(physR, q) - DESCR
  {
    hide Flat;
    var w := physL + physR;
    if q <= |physL| {
      assert w[..q] == physL[..q];
    }
    if q <= |physR| {
      assert w[..|physL| + q] == physL + physR[..q] && physL[..|physL|] == physL;
      FlatConcat(physL, physR[..q]);
    }
  }

  /** The right table, moved behind the records of the left page. */
  function Raised(t: seq<nat>, fo: nat): (r: seq<nat>)
    requires fo >= DESCR
    ensures |r| == |t|
  {
    seq(|t|, i requires 0 <= i < |t| => fo - DESCR + t[i])
  }

  lemma MergeOffs(physL: seq<seq<byte>>, permL: seq<nat>, physR: seq<seq<byte>>, permR: seq<nat>)
    requires IsPerm(permL, |physL|) && IsPerm(permR, |physR|)
    ensures var perm := MergePerm(permL, permR); var phys := physL + physR; var nl := |physL|;
            && IsPerm(perm, |phys|)
            && Offs(phys, perm) == Offs(physL, permL)[..nl] + Raised(Offs(physR, permR), Off(physL, nl))
            && Records(phys, perm) == Records(physL, permL) + Records(physR, permR)
  {
    hide Flat;
    var perm, phys, nl, nr := MergePerm(permL, permR), physL + physR, |physL|, |physR|;
    var tR := Offs(physR, permR);
    var s, s' := Offs(phys, perm), Offs(physL, permL)[..nl] + Raised(tR, Off(physL, nl));
    forall i | 0 <= i <= nl + nr ensures s[i] == s'[i] {
      if i < nl {
        OffConcat(physL, physR, permL[i]);
      } else if i < nl + nr {
        OffConcat(physL, physR, permR[i - nl]);
        assert s'[i] == Off(physL, nl) - DESCR + tR[i - nl];
      } else {
        OffConcat(physL, physR, nr);
        assert s'[i] == Off(physL, nl) - DESCR + tR[nr];
      }
    }
  }

  lemma MergedArea(b: seq<byte>, fo: nat, physL: seq<seq<byte>>, physR: seq<seq<byte>>, area: seq<byte>)
    requires DESCR <= fo && fo + |area| <= |b| && b[DESCR..fo] == Flat(physL) && area == Flat(physR)
    ensures Put(b, fo, area)[DESCR..fo + |area|] == Flat(physL + physR)
  {
    FlatConcat(physL, physR);
  }

  lemma Facts(b: seq<byte>, n: nat, free: nat, phys: seq<seq<byte>>, perm: seq<nat>)
    requires PageOk(b, n, free, phys, perm)
    ensures |phys| == |perm| == n && IsPerm(perm, n) && Off(phys, n) + free == SlotAddr(|b|, n)
    ensures Slot(b, n) == Off(phys, n) && forall i :: 0 <= i < n ==> perm[i] < n && Slot(b, i) == Off(phys, perm[i])
  {
    var t := Table(b, n);
    assert forall i :: 0 <= i <= n ==> t[i] == Slot(b, i);
    assert forall i :: 0 <= i < n ==> Offs(phys, perm)[i] == Off(phys, perm[i]);
    assert Offs(phys, perm)[n] == Off(phys, n);
  }

  /** One node as it is in memory. */
  class Page {
    const data: array<byte>
    var recsCount: nat
    var freeSpace: nat
    ghost var phys: seq<seq<byte>>
    ghost var perm: seq<nat>

    ghost predicate Valid()
      reads this, data
    {
      PageOk(data[..], recsCount, freeSpace, phys, perm)
    }

    /** The records in order. */
    ghost function Contents(): seq<seq<byte>>
      reads this, data
      requires Valid()
    {
      Records(phys, perm)
    }

    /** A new node of `size` bytes. */
    constructor (size: nat)
      requires OVERHEAD <= size < WORD32
      ensures Valid() && Contents() == [] && data.Length == size && fresh(data)
    {
      data := new byte[size](_ => 0);
      recsCount, freeSpace := 0, size - DESCR - SLOT - FIRST_OFFSET;
      phys, perm := [], [];
      new;
      ghost var b := data[..];
      SetOffset(0, DESCR);
      TableSet(b, 0, 0, DESCR);
      assert data[..][DESCR..DESCR] == [];
    }

    method GetOffset(i: nat) returns (v: nat)
      requires SlotAddr(data.Length, i) >= 0
      ensures v == Slot(data[..], i)
    {
      var a := SlotAddr(data.Length, i);
      v := FromLe(data[a..a + SLOT]);
      assert data[..][a..a + SLOT] == data[a..a + SLOT];
    }

    method SetOffset(i: nat, v: nat)
      requires SlotAddr(data.Length, i) >= 0
      modifies data
      ensures data[..] == SetSlot(old(data[..]), i, v)
    {
      PutLe(data, SlotAddr(data.Length, i), v, SLOT);
    }

    /** The record with index `i`; its offset is never one that the offset check refuses. */
    method GetRecord(i: nat) returns (off: nat, r: seq<byte>)
      requires Valid() && i < recsCount
      ensures r == Contents()[i] && 0 < off == Off(phys, perm[i]) && off + |r| <= data.Length
    {
      hide Flat, Slot, Table, IsPerm;
      Facts(data[..], recsCount, freeSpace, phys, perm);
      off := GetOffset(i);
      RecordAt(data[..], recsCount, freeSpace, phys, perm, perm[i]);
      ghost var rec := phys[perm[i]];
      assert data[..][off..off + |rec|] == rec && RecordOk(rec);
      SliceInside(data[..], off, off + |rec|, 8, 4);
      assert data[off + 8..off + 12] == data[..][off + 8..off + 12];
      var len := FromLe(data[off + 8..off + 12]);
      r := data[off..off + len];
    }

    /** Puts a record that fits at `pos`: its bytes go to the free area, its offset into the table. */
    method InsertIntoNode(r: seq<byte>, pos: nat)
      requires Valid() && RecordOk(r) && pos <= recsCount && |r| + SLOT <= freeSpace
      modifies this, data
      ensures Valid() && Contents() == old(Contents())[..pos] + [r] + old(Contents())[pos..]
      ensures freeSpace == old(freeSpace) - |r| - SLOT && recsCount == old(recsCount) + 1
    {
      hide PageOk, Slot, SetSlot, Put, Off, Flat, MoveSlots, Records, InsertPerm, IsPerm;
      ghost var b, n := data[..], recsCount;
      Facts(b, n, freeSpace, phys, perm);
      InsertedPage(b, n, freeSpace, phys, perm, r, pos);
      Facts(b, n, freeSpace, phys, perm);
      InsertedRecords(phys, perm, r, pos);
      var off := GetOffset(recsCount);
      MemCopy(data, off, r);
      if pos < recsCount {
        MoveTable(pos, recsCount);
      }
      SetOffset(pos, off);
      recsCount := recsCount + 1;
      freeSpace := freeSpace - |r| - SLOT;
      SetOffset(recsCount, off + |r|);
      phys, perm := phys + [r], InsertPerm(perm, pos);
    }

    method MoveTable(pos: nat, n: nat)
      requires pos < n && SlotAddr(data.Length, n) >= 0
      modifies data
      ensures data[..] == MoveSlots(old(data[..]), pos, n)
    {
      MemMove(data, SlotAddr(data.Length, n), SlotAddr(data.Length, n - 1), SLOT * (n - pos));
    }

    /** Lowers by `len` the offsets of the records behind `del`. */
    method LowerSlots(n: nat, del: nat, len: nat)
      requires SlotAddr(data.Length, n) >= 0
      requires forall i :: 0 <= i <= n ==> Table(data[..], n)[i] < WORD32
                                           && (Table(data[..], n)[i] > del ==> Table(data[..], n)[i] >= len)
      modifies data
      ensures Table(data[..], n) == Lowered(old(Table(data[..], n)), del, len)
      ensures data[..][..SlotAddr(data.Length, n)] == old(data[..])[..SlotAddr(data.Length, n)]
    {
      hide Slot, SetSlot;
      ghost var t := Table(data[..], n);
      var i := 0;
      while i < n
        invariant i <= n && data[..][..SlotAddr(data.Length, n)] == old(data[..])[..SlotAddr(data.Length, n)]
        invariant forall j :: 0 <= j <= n ==> Table(data[..], n)[j] == if j < i && t[j] > del then t[j] - len else t[j]
      {
        var cur := GetOffset(i);
        ghost var b := data[..];
        assert cur == Table(b, n)[i] == t[i];
        if cur > del {
          SetOffset(i, cur - len);
          TableSet(b, n, i, cur - len);
          hide Table;
        }
        i := i + 1;
      }
    }

    method CopySlot(i: nat, n: nat)
      requires SlotAddr(data.Length, n) >= 0 && i < n && Table(data[..], n)[i + 1] < WORD32
      modifies data
      ensures Table(data[..], n) == old(Table(data[..], n))[i := old(Table(data[..], n))[i + 1]]
      ensures data[..][..SlotAddr(data.Length, n)] == old(data[..])[..SlotAddr(data.Length, n)]
    {
      hide Slot, SetSlot;
      ghost var b := data[..];
      var next := GetOffset(i + 1);
      assert next == Table(b, n)[i + 1];
      SetOffset(i, next);
      TableSet(b, n, i, next);
    }

    /** Closes the gap at slot `idx`. */
    method ShiftSlots(idx: nat, n: nat)
      requires SlotAddr(data.Length, n) >= 0 && idx < n
      requires forall i :: 0 <= i <= n ==> Table(data[..], n)[i] < WORD32
      modifies data
      ensures var t := old(Table(data[..], n)); Table(data[..], n) == t[..idx] + t[idx + 1..] + [t[n]]
      ensures data[..][..SlotAddr(data.Length, n)] == old(data[..])[..SlotAddr(data.Length, n)]
    {
      hide Slot, SetSlot, Table;
      ghost var t := Table(data[..], n);
      ghost var u := t;
      var i := idx;
      while i < n
        invariant idx <= i <= n && data[..][..SlotAddr(data.Length, n)] == old(data[..])[..SlotAddr(data.Length, n)]
        invariant Table(data[..], n) == u && |u| == n + 1
        invariant u == t[..idx] + t[idx + 1..i + 1] + t[i..]
      {
        CopySlot(i, n);
        ShiftOne(t, idx, i);
        u := u[i := t[i + 1]];
        i := i + 1;
      }
    }

    /** Takes record `idx` out. */
    method DeleteFromNode(idx: nat)
      requires Valid() && idx < recsCount
      modifies this, data
      ensures Valid() && Contents() == old(Contents())[..idx] + old(Contents())[idx + 1..]
      ensures freeSpace == old(freeSpace) + |old(Contents())[idx]| + SLOT && recsCount == old(recsCount) - 1
    {
      hide PageOk, Slot, SetSlot, Put, Off, Flat, IsPerm, Table, Without, DeletePerm, Lowered;
      ghost var b, n, free := data[..], recsCount, freeSpace;
      Facts(b, n, free, phys, perm);
      ghost var p := perm[idx];
      var del, rec := GetRecord(idx);
      assert rec == phys[p];
      var len := |rec|;
      var off := GetOffset(recsCount);
      DeletedArea(b, n, free, phys, perm, p);
      DeleteTables(b, n, free, phys, perm, idx);
      MemMove(data, del, del + len, off - del - len);
      TableKept(b, n, del, b[del + len..off]);
      ghost var b1 := data[..];
      LowerSlots(recsCount, del, len);
      ghost var b2 := data[..];
      ShiftSlots(idx, recsCount);
      ghost var b3 := data[..];
      recsCount := recsCount - 1;
      freeSpace := freeSpace + len + SLOT;
      SetOffset(recsCount, off - len);
      DeletedPage(b, b1, b2, b3, n, free, phys, perm, idx);
      DeletedRecords(phys, perm, idx);
      phys, perm := Without(phys, p), DeletePerm(perm, idx);
    }

    /** Sets slot `k + i` from slot `i` of the page to the right. */
    method RaiseSlot(right: Page, k: nat, i: nat, start: nat, ghost n: nat, ghost rb: seq<byte>)
      requires right.data != data && right.data[..] == rb && SlotAddr(|rb|, i) >= 0 && k + i <= n
               && SlotAddr(data.Length, n) >= 0
      requires start >= DESCR && start - DESCR + Slot(rb, i) < WORD32
      modifies data
      ensures Table(data[..], n) == old(Table(data[..], n))[k + i := start - DESCR + Slot(rb, i)]
      ensures data[..][..SlotAddr(data.Length, n)] == old(data[..])[..SlotAddr(data.Length, n)]
    {
      hide Slot, SetSlot, Table;
      ghost var b := data[..];
      var v := right.GetOffset(i);
      SetOffset(k + i, start + v - DESCR);
      TableSet(b, n, k + i, start + v - DESCR);
    }

    /** Appends the offsets of the page to the right, `m` records and its free area, after slot `k - 1`. */
    method RaiseSlots(right: Page, k: nat, m: nat, start: nat)
      requires right.data != data && SlotAddr(right.data.Length, m) >= 0 && SlotAddr(data.Length, k + m) >= 0
               && start >= DESCR
      requires forall i :: 0 <= i <= m ==> Raised(Table(right.data[..], m), start)[i] < WORD32
      modifies data
      ensures Table(data[..], k + m) == old(Table(data[..], k + m))[..k] + Raised(Table(right.data[..], m), start)
      ensures data[..][..SlotAddr(data.Length, k + m)] == old(data[..])[..SlotAddr(data.Length, k + m)]
    {
      ghost var n, rb := k + m, right.data[..];
      ghost var t, r := Table(data[..], n), Raised(Table(rb, m), start);
      RaisedSlots(rb, m, start);
      hide Slot, Table, Raised;
      ghost var u := t;
      assert t == t[..k] + r[..0] + t[k + 0..];
      var i := 0;
      while i <= m
        invariant i <= m + 1 && data[..][..SlotAddr(data.Length, n)] == old(data[..])[..SlotAddr(data.Length, n)]
        invariant right.data[..] == rb && Table(data[..], n) == u == t[..k] + r[..i] + t[k + i..]
      {
        RaiseSlot(right, k, i, start, n, rb);
        RaiseOne(t, r, k, i);
        u := u[k + i := r[i]];
        i := i + 1;
      }
      AllRaised(t, r, k);
    }

    /** Appends the records of the page to the right; the merge test says that they fit. */
    method MergeFrom(right: Page)
      requires Valid() && right.Valid() && right.data != data && right != this && right.data.Length == data.Length
      requires freeSpace + right.freeSpace >= data.Length
      modifies this, data
      ensures Valid() && Contents() == old(Contents()) + right.Contents()
      ensures recsCount == old(recsCount) + right.recsCount
    {
      hide PageOk, Slot, SetSlot, Put, Flat, IsPerm, Table, Raised, Records;
      ghost var b, nl, nr, rb := data[..], recsCount, right.recsCount, right.data[..];
      Facts(b, nl, freeSpace, phys, perm);
      Facts(rb, nr, right.freeSpace, right.phys, right.perm);
      MergeRoom(b, nl, freeSpace, phys, perm, rb, nr, right.freeSpace, right.phys, right.perm);
      var off := GetOffset(recsCount);
      var end := right.GetOffset(right.recsCount);
      assert right.data[DESCR..end] == rb[DESCR..end];
      MemCopy(data, off, right.data[DESCR..end]);
      TableKept(b, nl, off, rb[DESCR..end]);
      ghost var b1 := data[..];
      var start := GetOffset(recsCount);
      assert start == off by {
        SlotOfTable(b, b1, nl);
      }
      RaiseSlots(right, recsCount, right.recsCount, start);
      MergedPage(b, b1, data[..], nl, freeSpace, phys, perm, rb, nr, right.freeSpace, right.phys, right.perm);
      MergeOffs(phys, perm, right.phys, right.perm);
      freeSpace := freeSpace - (end - DESCR + right.recsCount * SLOT);
      recsCount := recsCount + right.recsCount;
      phys, perm := phys + right.phys, MergePerm(perm, right.perm);
    }
  }

  lemma RaisedSlots(b: seq<byte>, m: nat, start: nat)
    requires SlotAddr(|b|, m) >= 0 && start >= DESCR
    ensures forall i :: 0 <= i <= m ==> Raised(Table(b, m), start)[i] == start - DESCR + Slot(b, i)
  {
  }

  lemma AllRaised(t: seq<nat>, r: seq<nat>, k: nat)
    requires k + |r| == |t|
    ensures t[..k] + r[..|r|] + t[k + |r|..] == t[..k] + r
  {
  }

  lemma RaiseOne(t: seq<nat>, r: seq<nat>, k: nat, i: nat)
    requires k + i < |t| && i < |r|
    ensures (t[..k] + r[..i] + t[k + i..])[k + i := r[i]] == t[..k] + r[..i + 1] + t[k + i + 1..]
  {
  }

  lemma SlotOfTable(b: seq<byte>, b': seq<byte>, n: nat)
    requires |b| == |b'| && SlotAddr(|b|, n) >= 0 && Table(b, n) == Table(b', n)
    ensures Slot(b, n) == Slot(b', n)
  {
    assert Table(b, n)[n] == Slot(b, n) && Table(b', n)[n] == Slot(b', n);
  }

  /** The merge test leaves room for the records and slots of both pages. */
  lemma MergeRoom(b: seq<byte>, nl: nat, free: nat, phys: seq<seq<byte>>, perm: seq<nat>,
                  rb: seq<byte>, nr: nat, rfree: nat, rphys: seq<seq<byte>>, rperm: seq<nat>)
    requires PageOk(b, nl, free, phys, perm) && PageOk(rb, nr, rfree, rphys, rperm) && |b| == |rb|
             && free + rfree >= |b|
    ensures var off, end := Off(phys, nl), Off(rphys, nr);
            && end <= |rb| && off + (end - DESCR) <= SlotAddr(|b|, nl + nr)
            && Table(rb, nr) == Offs(rphys, rperm) && free >= end - DESCR + nr * SLOT
            && forall i :: 0 <= i <= nr ==> Raised(Table(rb, nr), off)[i] < WORD32
  {
    var off, end := Off(phys, nl), Off(rphys, nr);
    forall i | 0 <= i <= nr ensures Raised(Table(rb, nr), off)[i] < WORD32 {
      assert Table(rb, nr)[i] <= end by {
        if i < nr {
          assert Offs(rphys, rperm)[i] == Off(rphys, rperm[i]);
          OffMono(rphys, rperm[i], nr);
        }
      }
    }
  }

  lemma MergedPage(b: seq<byte>, b1: seq<byte>, b2: seq<byte>, nl: nat, free: nat, phys: seq<seq<byte>>, perm: seq<nat>,
                   rb: seq<byte>, nr: nat, rfree: nat, rphys: seq<seq<byte>>, rperm: seq<nat>)
    requires PageOk(b, nl, free, phys, perm) && PageOk(rb, nr, rfree, rphys, rperm) && |b| == |rb|
             && free + rfree >= |b|
    requires var off, end := Off(phys, nl), Off(rphys, nr); var a := SlotAddr(|b|, nl + nr);
             && end <= |rb| && off + (end - DESCR) <= a && b1 == Put(b, off, rb[DESCR..end]) && |b2| == |b|
             && Table(b2, nl + nr) == Table(b1, nl + nr)[..nl] + Raised(Table(rb, nr), off) && b2[..a] == b1[..a]
    ensures free >= Off(rphys, nr) - DESCR + nr * SLOT
    ensures PageOk(b2, nl + nr, free - (Off(rphys, nr) - DESCR + nr * SLOT), phys + rphys, MergePerm(perm, rperm))
  {
    hide Slot, Put, Flat, Table, Raised, Off, Offs, MergePerm;
    var off, end, a := Off(phys, nl), Off(rphys, nr), SlotAddr(|b|, nl + nr);
    MergeOffs(phys, perm, rphys, rperm);
    OffConcat(phys, rphys, nr);
    OffWhole(rphys);
    MergedArea(b, off, phys, rphys, rb[DESCR..end]);
    TableKept(b, nl, off, rb[DESCR..end]);
    TableTake(b1, nl + nr, nl);
    assert Table(b1, nl + nr)[..nl] == Table(b1, nl)[..nl];
    var e := off + (end - DESCR);
    PrefixSlice(b2, b1, a, DESCR, e);
    assert forall p :: 0 <= p < nl + nr ==> RecordOk((phys + rphys)[p]);
  }

  lemma ShiftOne(t: seq<nat>, idx: nat, i: nat)
    requires idx <= i && i + 1 < |t|
    ensures (t[..idx] + t[idx + 1..i + 1] + t[i..])[i := t[i + 1]] == t[..idx] + t[idx + 1..i + 2] + t[i + 1..]
  {
  }

  lemma DeleteTables(b: seq<byte>, n: nat, free: nat, phys: seq<seq<byte>>, perm: seq<nat>, idx: nat)
    requires PageOk(b, n, free, phys, perm) && idx < n
    ensures var t := Table(b, n); var p := perm[idx]; var del, len := Off(phys, p), |phys[p]|;
            && t == Offs(phys, perm)
            && (forall i :: 0 <= i <= n ==> t[i] < WORD32 && (t[i] > del ==> t[i] >= len))
            && (forall i :: 0 <= i <= n ==> Lowered(t, del, len)[i] < WORD32)
  {
    var t, p := Table(b, n), perm[idx];
    forall i | 0 <= i <= n ensures t[i] < WORD32 && (t[i] > Off(phys, p) ==> t[i] >= |phys[p]|) {
      if i < n {
        assert t[i] == Off(phys, perm[i]);
        OffMono(phys, perm[i], n);
        if t[i] > Off(phys, p) {
          Behind(phys, p, perm[i]);
        }
      } else {
        OffMono(phys, p, n);
      }
    }
  }

  lemma DeletedPage(b: seq<byte>, b1: seq<byte>, b2: seq<byte>, b3: seq<byte>, n: nat, free: nat, phys: seq<seq<byte>>,
                    perm: seq<nat>, idx: nat)
    requires PageOk(b, n, free, phys, perm) && idx < n && |b1| == |b2| == |b3| == |b|
    requires var p := perm[idx]; var del, len, fo := Off(phys, p), |phys[p]|, Off(phys, n); var a := SlotAddr(|b|, n);
             && del + len <= fo <= |b| && b1 == Put(b, del, b[del + len..fo])
             && Table(b2, n) == Lowered(Offs(phys, perm), del, len) && b2[..a] == b1[..a]
             && Table(b3, n) == Table(b2, n)[..idx] + Table(b2, n)[idx + 1..] + [Table(b2, n)[n]] && b3[..a] == b2[..a]
    ensures var p := perm[idx]; var fo, len := Off(phys, n), |phys[p]|;
            PageOk(SetSlot(b3, n - 1, fo - len), n - 1, free + len + SLOT, Without(phys, p), DeletePerm(perm, idx))
  {
    hide Slot, SetSlot, Put, Flat, Table, Lowered, Off;
    var p := perm[idx];
    var fo, len, a := Off(phys, n), |phys[p]|, SlotAddr(|b|, n);
    var w, perm' := Without(phys, p), DeletePerm(perm, idx);
    var b4 := SetSlot(b3, n - 1, fo - len);
    DeletedTable(phys, perm, idx);
    DeletedArea(b, n, free, phys, perm, p);
    TableTake(b3, n, n - 1);
    TableSet(b3, n - 1, n - 1, fo - len);
    var u := Table(b2, n);
    assert Table(b4, n - 1) == Table(b3, n)[..n][n - 1 := fo - len] == u[..idx] + u[idx + 1..n] + [fo - len];
    OffWithout(phys, p, n - 1);
    assert b4[..a] == b1[..a];
    PrefixSlice(b4, b1, a, DESCR, fo - len);
    assert forall q :: 0 <= q < n - 1 ==> w[q] == phys[Skip(q, p)];
  }

  /** The records of the page, as the tree counts their lengths. */
  ghost predicate Lengths(rs: seq<Rec>, records: seq<seq<byte>>) {
    |rs| == |records| && forall i :: 0 <= i < |rs| ==> rs[i].len == |records[i]|
  }

  lemma {:induction false} SizeMatches(phys: seq<seq<byte>>, perm: seq<nat>, rs: seq<Rec>)
    requires IsPerm(perm, |phys|) && Lengths(rs, Records(phys, perm))
    ensures Size(rs) == |Flat(phys)| + SLOT * |phys|
    decreases |phys|
  {
    if phys != [] {
      var n := |phys| - 1;
      var p := perm[n];
      DeletedRecords(phys, perm, n);
      assert Records(phys, perm)[..n] + Records(phys, perm)[n + 1..] == Records(phys, perm)[..n];
      SizeMatches(Without(phys, p), DeletePerm(perm, n), rs[..n]);
      FlatAt(phys, p);
      FlatConcat(phys[..p], phys[p + 1..]);
    }
  }

  /** The free-space field is what the tree's fullness and merge tests compute from the records. */
  lemma FreeMatches(b: seq<byte>, n: nat, free: nat, phys: seq<seq<byte>>, perm: seq<nat>, rs: seq<Rec>)
    requires PageOk(b, n, free, phys, perm) && Lengths(rs, Records(phys, perm))
    ensures free == FreeSpace(rs, |b|)
  {
    hide Table, Offs, Flat;
    OffWhole(phys);
    SizeMatches(phys, perm, rs);
  }
}
