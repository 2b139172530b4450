/** The bytes of a B+tree node: packed records that grow up from the descriptor, and a table of their
    offsets that grows down from the end. */
module PageLayout {
  import opened Bytes
  import opened Seqs
  import opened BtRecords

  /** Where the slot with the offset of record `i` is. */
  function SlotAddr(size: nat, i: nat): int {
    size - FIRST_OFFSET - SLOT * (i + 1)
  }

  function Slot(b: seq<byte>, i: nat): nat
    requires SlotAddr(|b|, i) >= 0
  {
    var a := SlotAddr(|b|, i);
    FromLe(b[a..a + SLOT])
  }

  function SetSlot(b: seq<byte>, i: nat, v: nat): (r: seq<byte>)
    requires SlotAddr(|b|, i) >= 0
    ensures |r| == |b|
  {
    Put(b, SlotAddr(|b|, i), Le(v, SLOT))
  }

  /** The offsets in slots 0 to `n`. */
  function Table(b: seq<byte>, n: nat): (t: seq<nat>)
    requires SlotAddr(|b|, n) >= 0
    ensures |t| == n + 1
  {
    seq(n + 1, i requires 0 <= i < n + 1 => Slot(b, i))
  }

  lemma PutSlice(b: seq<byte>, at: nat, bs: seq<byte>, x: nat, y: nat)
    requires at + |bs| <= |b| && x <= y <= |b| && (y <= at || at + |bs| <= x)
    ensures Put(b, at, bs)[x..y] == b[x..y]
  {
  }

  lemma PutExact(b: seq<byte>, at: nat, bs: seq<byte>)
    requires at + |bs| <= |b|
    ensures Put(b, at, bs)[at..at + |bs|] == bs
  {
  }

  lemma PutInside(b: seq<byte>, at: nat, bs: seq<byte>, k: nat, m: nat)
    requires at + |bs| <= |b| && k + m <= |bs|
    ensures Put(b, at, bs)[at + k..at + k + m] == bs[k..k + m]
  {
  }

  lemma SliceInside(b: seq<byte>, s: nat, e: nat, k: nat, m: nat)
    requires s <= e <= |b| && s + k + m <= e
    ensures b[s..e][k..k + m] == b[s + k..s + k + m]
  {
    var x, y := b[s..e][k..k + m], b[s + k..s + k + m];
    assert |x| == |y| == m;
    forall i | 0 <= i < m ensures x[i] == y[i] {
      assert x[i] == b[s..e][k + i] == b[s + (k + i)];
    }
  }

  lemma SlotAfterSet(b: seq<byte>, i: nat, v: nat, j: nat)
    requires SlotAddr(|b|, i) >= 0 && SlotAddr(|b|, j) >= 0 && v < WORD32
    ensures Slot(SetSlot(b, i, v), j) == if i == j then v else Slot(b, j)
  {
    hide Le, FromLe, Put;
    var a, x := SlotAddr(|b|, i), SlotAddr(|b|, j);
    if i == j {
      PutExact(b, a, Le(v, SLOT));
      LeWords(v);
    } else {
      PutSlice(b, a, Le(v, SLOT), x, x + SLOT);
    }
  }

  lemma TableSet(b: seq<byte>, n: nat, i: nat, v: nat)
    requires SlotAddr(|b|, n) >= 0 && i <= n && v < WORD32
    ensures Table(SetSlot(b, i, v), n) == Table(b, n)[i := v]
    ensures forall m :: 0 <= m <= SlotAddr(|b|, i) ==> SetSlot(b, i, v)[..m] == b[..m]
  {
    var b' := SetSlot(b, i, v);
    forall j | 0 <= j <= n ensures Slot(b', j) == if i == j then v else Slot(b, j) {
      SlotAfterSet(b, i, v, j);
    }
    forall m | 0 <= m <= SlotAddr(|b|, i) ensures b'[..m] == b[..m] {
      PutSlice(b, SlotAddr(|b|, i), Le(v, SLOT), 0, m);
    }
  }

  /** Bytes stored below the table do not change it. */
  lemma TableKept(b: seq<byte>, n: nat, at: nat, bs: seq<byte>)
    requires at + |bs| <= SlotAddr(|b|, n)
    ensures Table(Put(b, at, bs), n) == Table(b, n)
  {
    hide Put, FromLe;
    forall j | 0 <= j <= n ensures Slot(Put(b, at, bs), j) == Slot(b, j) {
      PutSlice(b, at, bs, SlotAddr(|b|, j), SlotAddr(|b|, j) + SLOT);
    }
  }

  lemma TableTake(b: seq<byte>, n: nat, m: nat)
    requires m <= n && SlotAddr(|b|, n) >= 0
    ensures Table(b, m) == Table(b, n)[..m + 1]
  {
  }

  /** Moves slots `pos` to `n - 1` one slot down in memory, to `pos + 1` to `n`. */
  function MoveSlots(b: seq<byte>, pos: nat, n: nat): (r: seq<byte>)
    requires pos < n && SlotAddr(|b|, n) >= 0
    ensures |r| == |b|
  {
    var src := SlotAddr(|b|, n - 1);
    Put(b, SlotAddr(|b|, n), b[src..src + SLOT * (n - pos)])
  }

  lemma SlotMoved(b: seq<byte>, pos: nat, n: nat, j: nat)
    requires pos < n && SlotAddr(|b|, n) >= 0 && j <= n
    ensures Slot(MoveSlots(b, pos, n), j) == if pos < j then Slot(b, j - 1) else Slot(b, j)
  {
    hide FromLe;
    var src, dst, x := SlotAddr(|b|, n - 1), SlotAddr(|b|, n), SlotAddr(|b|, j);
    var bs := b[src..src + SLOT * (n - pos)];
    var b' := MoveSlots(b, pos, n);
    if pos < j {
      var k := x - dst;
      assert k == SLOT * (n - j) && k + SLOT <= |bs| && src + k == x + SLOT == SlotAddr(|b|, j - 1);
      PutInside(b, dst, bs, k, SLOT);
      SliceInside(b, src, src + SLOT * (n - pos), k, SLOT);
    } else {
      PutSlice(b, dst, bs, x, x + SLOT);
    }
  }

  lemma TableMoved(b: seq<byte>, pos: nat, n: nat)
    requires pos < n && SlotAddr(|b|, n) >= 0
    ensures var t := Table(b, n); Table(MoveSlots(b, pos, n), n) == t[..pos + 1] + t[pos..n]
    ensures forall m :: 0 <= m <= SlotAddr(|b|, n) ==> MoveSlots(b, pos, n)[..m] == b[..m]
  {
    var b' := MoveSlots(b, pos, n);
    hide FromLe, MoveSlots;
    var t, t' := Table(b, n), Table(b', n);
    var u := t[..pos + 1] + t[pos..n];
    forall j | 0 <= j <= n ensures t'[j] == u[j] {
      SlotMoved(b, pos, n, j);
      if pos < j {
        assert t'[j] == Slot(b', j) == Slot(b, j - 1) == t[j - 1];
        assert u[j] == t[pos..n][j - pos - 1] == t[j - 1];
      } else {
        assert t'[j] == Slot(b', j) == Slot(b, j) == t[j];
      }
    }
    assert t' == u;
    forall m | 0 <= m <= SlotAddr(|b|, n) ensures b'[..m] == b[..m] {
      MovedPrefix(b, pos, n, m);
    }
  }

  lemma MovedPrefix(b: seq<byte>, pos: nat, n: nat, m: nat)
    requires pos < n && 0 <= m <= SlotAddr(|b|, n)
    ensures MoveSlots(b, pos, n)[..m] == b[..m]
  {
  }

  // Records.

  const KEY_HEADER: nat := 12

  /** A record carries its length. */
  predicate RecordOk(r: seq<byte>) {
    |r| >= KEY_HEADER && FromLe(r[8..12]) == |r|
  }

  /** Where the record at physical place `p` starts. */
  function Off(phys: seq<seq<byte>>, p: nat): (off: nat)
    requires p <= |phys|
    ensures off >= DESCR
  {
    DESCR + |Flat(phys[..p])|
  }

  /** The offsets of the records in logical order, and that of the free area. */
  ghost function Offs(phys: seq<seq<byte>>, perm: seq<nat>): seq<nat>
    requires forall i :: 0 <= i < |perm| ==> perm[i] < |phys|
  {
    seq(|perm|, i requires 0 <= i < |perm| => Off(phys, perm[i])) + [Off(phys, |phys|)]
  }

  ghost predicate IsPerm(perm: seq<nat>, n: nat) {
    && |perm| == n && (forall i :: 0 <= i < n ==> perm[i] < n)
    && (forall i, j :: 0 <= i < j < n ==> perm[i] != perm[j])
  }

  /** The records tile the area after the descriptor in some order `phys`, slot `i` has the offset of the
      one that is logically the `i`th, slot `n` that of the free area, and `free` is the gap up to there. */
  ghost predicate PageOk(b: seq<byte>, n: nat, free: nat, phys: seq<seq<byte>>, perm: seq<nat>) {
    && |b| < WORD32 && |phys| == n && IsPerm(perm, n)
    && (forall p :: 0 <= p < n ==> RecordOk(phys[p]))
    && Off(phys, n) + free == SlotAddr(|b|, n)
    && b[DESCR..Off(phys, n)] == Flat(phys)
    && Table(b, n) == Offs(phys, perm)
  }

  /** The records in logical order. */
  ghost function Records(phys: seq<seq<byte>>, perm: seq<nat>): seq<seq<byte>>
    requires forall i :: 0 <= i < |perm| ==> perm[i] < |phys|
  {
    seq(|perm|, i requires 0 <= i < |perm| => phys[perm[i]])
  }

  lemma OffNext(phys: seq<seq<byte>>, p: nat)
    requires p < |phys|
    ensures Off(phys, p + 1) == Off(phys, p) + |phys[p]|
  {
    FlatAt(phys[..p + 1], p);
    assert phys[..p + 1][..p] == phys[..p] && phys[..p + 1][p + 1..] == [];
  }

  lemma OffMono(phys: seq<seq<byte>>, p: nat, q: nat)
    requires p < q <= |phys| && forall x :: 0 <= x < |phys| ==> phys[x] != []
    ensures Off(phys, p) < Off(phys, q)
    ensures Off(phys, p) + |phys[p]| <= Off(phys, q)
    decreases q
  {
    OffNext(phys, q - 1);
    OffNext(phys, p);
    if p + 1 < q {
      OffMono(phys, p, q - 1);
    }
  }

  lemma OffWhole(phys: seq<seq<byte>>)
    ensures Off(phys, |phys|) == DESCR + |Flat(phys)|
  {
    assert phys[..|phys|] == phys;
  }

  /** The bytes at a record's offset are the record. */
  lemma RecordAt(b: seq<byte>, n: nat, free: nat, phys: seq<seq<byte>>, perm: seq<nat>, p: nat)
    requires PageOk(b, n, free, phys, perm) && p < n
    ensures Off(phys, p) + |phys[p]| <= Off(phys, n) <= |b| && b[Off(phys, p)..Off(phys, p) + |phys[p]|] == phys[p]
  {
    hide Table, Offs, Flat, IsPerm;
    AreaAt(b, phys, p);
  }

  lemma AreaAt(b: seq<byte>, phys: seq<seq<byte>>, p: nat)
    requires p < |phys| && Off(phys, |phys|) <= |b| && b[DESCR..Off(phys, |phys|)] == Flat(phys)
    ensures Off(phys, p) + |phys[p]| <= Off(phys, |phys|) && b[Off(phys, p)..Off(phys, p) + |phys[p]|] == phys[p]
  {
    hide Flat;
    FlatAt(phys, p);
    OffWhole(phys);
    SliceInside(b, DESCR, Off(phys, |phys|), |Flat(phys[..p])|, |phys[p]|);
    Middle(Flat(phys[..p]), phys[p], Flat(phys[p + 1..]));
  }

  lemma PrefixSlice(x: seq<byte>, y: seq<byte>, a: nat, s: nat, e: nat)
    requires s <= e <= a <= |x| == |y| && x[..a] == y[..a]
    ensures x[s..e] == y[s..e]
  {
    forall i | s <= i < e ensures x[i] == y[i] {
      assert x[i] == x[..a][i] && y[i] == y[..a][i];
    }
  }

  lemma PutElements(b: seq<byte>, at: nat, bs: seq<byte>, b': seq<byte>)
    requires at + |bs| <= |b| == |b'|
    requires forall x :: 0 <= x < |b| ==> b'[x] == if at <= x < at + |bs| then bs[x - at] else b[x]
    ensures b' == Put(b, at, bs)
  {
  }

  lemma Middle(x: seq<byte>, y: seq<byte>, z: seq<byte>)
    ensures (x + y + z)[|x|..|x| + |y|] == y
  {
  }
}
