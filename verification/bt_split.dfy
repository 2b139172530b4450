/** Splitting a full node around a new record, and the room that splits and merges leave. */
module BtSplit {
  import opened Seqs
  import opened BtRecords

  /** The records fit a node of `size` bytes. */
  predicate FitsNode(s: seq<Rec>, size: nat) {
    OVERHEAD + Size(s) <= size
  }

  function FreeSpace(s: seq<Rec>, size: nat): int {
    size - OVERHEAD - Size(s)
  }

  predicate NodeFull(s: seq<Rec>, size: nat, r: Rec) {
    FreeSpace(s, size) < r.len + SLOT
  }

  /** An empty node and one record take at most half a node. */
  predicate Halves(size: nat, max: nat) {
    OVERHEAD + max + SLOT <= size / 2
  }

  function Inserted(s: seq<Rec>, at: nat, r: Rec): seq<Rec>
    requires at <= |s|
  {
    s[..at] + [r] + s[at..]
  }

  /** Distributes the records of a full node and the new record over two new nodes. */
  method SplitNode(recs: seq<Rec>, at: nat, r: Rec, size: nat, max: nat) returns (part1: seq<Rec>, part2: seq<Rec>)
    requires Halves(size, max) && RecsOk(recs, max) && RecOk(r, max) && recs != [] && at <= |recs|
    requires FitsNode(recs, size) && NodeFull(recs, size, r)
    ensures part1 + part2 == Inserted(recs, at, r) && |part1| >= 2 && part2 != []
    ensures FitsNode(part1, size) && FitsNode(part2, size) && |part1| == Middle(Inserted(recs, at, r), size)
  {
    hide Size, Inserted, Middle, IsMiddle, Filling, Dividing, FitsNode, Remaining;
    part1, part2 := [], [];
    var usedSpace: nat, i: nat, toSecond, inserted := OVERHEAD, 0, false, false;
    ghost var all := Inserted(recs, at, r);
    ghost var rest := all;
    AllRemaining(recs, at, r);
    DivideStart(recs, at, r, size, max);
    while i < |recs| || !inserted
      invariant i <= |recs| && (if inserted then at <= i else i <= at)
      invariant rest == Remaining(recs, at, r, i, inserted)
      invariant Dividing(all, part1, part2, rest, usedSpace, toSecond, size, max)
      decreases |recs| - i, !inserted
    {
      var selected := i == at && !inserted;
      var rec := if selected then r else recs[i];
      NextRemaining(recs, at, r, i, inserted);
      DivideStep(all, part1, part2, rest, usedSpace, toSecond, size, max);
      usedSpace := usedSpace + rec.len + SLOT;
      if toSecond {
        part2 := part2 + [rec];
      } else {
        part1 := part1 + [rec];
      }
      if usedSpace > size / 2 {
        toSecond := true;
      }
      rest := rest[1..];
      if !selected {
        i := i + 1;
      } else {
        inserted := true;
      }
    }
    DivideEnd(recs, at, r, part1, part2, usedSpace, toSecond, size, max);
  }

  /** The records not yet copied when the loop is at record `i`. */
  ghost function Remaining(recs: seq<Rec>, at: nat, r: Rec, i: nat, inserted: bool): seq<Rec>
    requires at <= |recs| && i <= |recs| && (if inserted then at <= i else i <= at)
  {
    if inserted then recs[i..] else recs[i..at] + [r] + recs[at..]
  }

  lemma AllRemaining(recs: seq<Rec>, at: nat, r: Rec)
    requires at <= |recs|
    ensures Remaining(recs, at, r, 0, false) == Inserted(recs, at, r) && Remaining(recs, at, r, |recs|, true) == []
  {
    InsertedParts(recs, at, r);
  }

  lemma NextRemaining(recs: seq<Rec>, at: nat, r: Rec, i: nat, inserted: bool)
    requires at <= |recs| && i <= |recs| && (if inserted then at <= i < |recs| else i <= at)
    ensures var rest := Remaining(recs, at, r, i, inserted);
            && rest != []
            && if i == at && !inserted then rest[0] == r && rest[1..] == Remaining(recs, at, r, i, true)
               else rest[0] == recs[i] && rest[1..] == Remaining(recs, at, r, i + 1, inserted)
  {
  }

  /** The first node takes records until half a node is used, the second the others. */
  ghost predicate Filling(part1: seq<Rec>, part2: seq<Rec>, toSecond: bool, size: nat, max: nat) {
    if toSecond
    then |part1| >= 2 && size / 2 < OVERHEAD + Size(part1) <= size / 2 + max + SLOT
    else part2 == [] && OVERHEAD + Size(part1) <= size / 2
  }

  /** The records `all` are divided into two parts and those that are left. */
  ghost predicate Dividing(all: seq<Rec>, a: seq<Rec>, b: seq<Rec>, rest: seq<Rec>, used: nat, second: bool, size: nat,
                           max: nat) {
    && all == a + b + rest && used == OVERHEAD + Size(a) + Size(b)
    && Size(a) + Size(b) + Size(rest) == Size(all) && OVERHEAD + Size(all) <= size + max + SLOT
    && Filling(a, b, second, size, max) && (second ==> IsMiddle(all, |a|, size))
  }

  lemma DivideStart(recs: seq<Rec>, at: nat, r: Rec, size: nat, max: nat)
    requires Halves(size, max) && RecOk(r, max) && at <= |recs| && FitsNode(recs, size)
    ensures var all := Inserted(recs, at, r); Dividing(all, [], [], all, OVERHEAD, false, size, max)
  {
    hide Size, Inserted, IsMiddle;
    SizeEmpty();
    InsertedSize(recs, at, r);
  }

  lemma DivideStep(all: seq<Rec>, a: seq<Rec>, b: seq<Rec>, rest: seq<Rec>, used: nat, second: bool, size: nat,
                   max: nat)
    requires Dividing(all, a, b, rest, used, second, size, max) && rest != [] && RecOk(rest[0], max)
             && Halves(size, max)
    ensures var r := rest[0]; var used' := used + r.len + SLOT; var second' := second || used' > size / 2;
            if second then FreeSpace(b, size) >= r.len + SLOT
                && Dividing(all, a, b + [r], rest[1..], used', second', size, max)
            else FreeSpace(a, size) >= r.len + SLOT && Dividing(all, a + [r], b, rest[1..], used', second', size, max)
  {
    hide Size, IsMiddle;
    SizeEmpty();
    TakeFirst(a, b, rest, second);
    if !second && used + rest[0].len + SLOT > size / 2 {
      MiddleHere(all, a, b, rest, size);
    }
  }

  lemma DivideEnd(recs: seq<Rec>, at: nat, r: Rec, a: seq<Rec>, b: seq<Rec>, used: nat, second: bool, size: nat,
                  max: nat)
    requires Halves(size, max) && at <= |recs| && FitsNode(recs, size) && NodeFull(recs, size, r)
    requires Dividing(Inserted(recs, at, r), a, b, [], used, second, size, max)
    ensures a + b == Inserted(recs, at, r) && |a| >= 2 && b != []
    ensures FitsNode(a, size) && FitsNode(b, size) && |a| == Middle(Inserted(recs, at, r), size)
  {
    hide Size, Inserted, Middle, IsMiddle;
    SizeEmpty();
    InsertedSize(recs, at, r);
    MiddleIs(Inserted(recs, at, r), |a|, size);
  }

  /** A node is full for a record exactly if the record does not fit it, wherever it is put. */
  lemma FullIff(s: seq<Rec>, at: nat, r: Rec, size: nat)
    requires at <= |s|
    ensures NodeFull(s, size, r) <==> !FitsNode(Inserted(s, at, r), size)
  {
    InsertedSize(s, at, r);
  }

  /** Where the fill rule divides `s`: behind the first record with which more than half a node is used. */
  function Middle(s: seq<Rec>, size: nat): (n: nat)
    ensures n <= |s|
  {
    if s == [] || OVERHEAD + Size(s[..|s| - 1]) <= size / 2 then |s| else Middle(s[..|s| - 1], size)
  }

  ghost predicate IsMiddle(s: seq<Rec>, n: nat, size: nat) {
    0 < n <= |s| && OVERHEAD + Size(s[..n - 1]) <= size / 2 < OVERHEAD + Size(s[..n])
  }

  lemma {:induction false} MiddleIs(s: seq<Rec>, n: nat, size: nat)
    requires IsMiddle(s, n, size)
    ensures Middle(s, size) == n
    decreases |s|
  {
    var m := |s| - 1;
    if n < |s| {
      assert s[..m][..n] == s[..n] && s[..m][..n - 1] == s[..n - 1];
      SizePrefix(s, n, m);
      MiddleIs(s[..m], n, size);
    }
  }

  lemma SizePrefix(s: seq<Rec>, n: nat, m: nat)
    requires n <= m <= |s|
    ensures Size(s[..n]) <= Size(s[..m])
  {
    assert s[..m] == s[..n] + s[n..m];
    SizeConcat(s[..n], s[n..m]);
  }

  lemma Prefixes(a: seq<Rec>, rest: seq<Rec>)
    requires rest != []
    ensures (a + rest)[..|a|] == a && (a + rest)[..|a| + 1] == a + [rest[0]]
  {
  }

  lemma MiddleHere(all: seq<Rec>, a: seq<Rec>, b: seq<Rec>, rest: seq<Rec>, size: nat)
    requires all == a + b + rest && b == [] && rest != []
             && OVERHEAD + Size(a) <= size / 2 < OVERHEAD + Size(a + [rest[0]])
    ensures IsMiddle(all, |a| + 1, size)
  {
    hide Size;
    assert a + b == a;
    Prefixes(a, rest);
  }

  /** The division depends on the lengths of the records alone. */
  lemma {:induction false} MiddleSame(a: seq<Rec>, b: seq<Rec>, size: nat)
    requires |a| == |b| && forall i :: 0 <= i < |a| ==> a[i].len == b[i].len
    ensures Size(a) == Size(b) && Middle(a, size) == Middle(b, size)
    decreases |a|
  {
    if a != [] {
      MiddleSame(a[..|a| - 1], b[..|b| - 1], size);
    }
  }

  lemma SizeEmpty()
    ensures Size([]) == 0
  {
  }

  lemma InsertedParts(s: seq<Rec>, at: nat, r: Rec)
    requires at <= |s|
    ensures Inserted(s, at, r) == s[0..at] + [r] + s[at..] && |Inserted(s, at, r)| == |s| + 1
  {
  }

  lemma InsertedSize(s: seq<Rec>, at: nat, r: Rec)
    requires at <= |s|
    ensures Size(Inserted(s, at, r)) == Size(s) + r.len + SLOT
  {
    hide Size;
    assert s == s[..at] + s[at..];
    SizeConcat(s[..at] + [r], s[at..]);
    SizeConcat(s[..at], [r]);
    SizeConcat(s[..at], s[at..]);
    SizeOne(r);
  }

  /** Moving the first of the remaining records to the end of one of the parts. */
  lemma TakeFirst(a: seq<Rec>, b: seq<Rec>, rest: seq<Rec>, second: bool)
    requires rest != []
    ensures Size(rest) == rest[0].len + SLOT + Size(rest[1..])
    ensures Size(a + [rest[0]]) == Size(a) + rest[0].len + SLOT && Size(b + [rest[0]]) == Size(b) + rest[0].len + SLOT
    ensures a + b + rest == a + (b + [rest[0]]) + rest[1..]
    ensures b == [] ==> a + b + rest == (a + [rest[0]]) + b + rest[1..]
  {
    hide Size;
    var r := rest[0];
    assert rest == [r] + rest[1..];
    SizeConcat([r], rest[1..]);
    SizeConcat(a, [r]);
    SizeConcat(b, [r]);
    SizeOne(r);
  }

  /** Two nodes that pass the merge test fit one node together. */
  lemma MergeFits(a: seq<Rec>, b: seq<Rec>, size: nat)
    requires FreeSpace(a, size) + FreeSpace(b, size) >= size
    ensures FitsNode(a + b, size) && FreeSpace(a + b, size) == FreeSpace(a, size) - Size(b)
  {
    SizeConcat(a, b);
  }
}
