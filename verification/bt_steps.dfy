/** What one round of an insertion, or one removal, does to the stack of levels. */
module BtSteps {
  import opened Seqs
  import opened BtRecords
  import opened BtSplit
  import opened BtLevels

  datatype Change = Keep | Child(id: nat)

  /** Redirects the index record at `g`. */
  function Changed(s: seq<Rec>, g: nat, ch: Change): seq<Rec>
    requires g < |s|
  {
    if ch.Keep? then s else s[g := s[g].(val := ch.id)]
  }

  /** What a level has to become: the record at `g` redirected and `r` put after it. */
  function Want(s: seq<Rec>, g: nat, ch: Change, r: Rec): seq<Rec>
    requires g < |s|
  {
    After(Changed(s, g, ch), g, r)
  }

  /** The same in the node that holds the place. */
  lemma WantInNode(gs: seq<seq<Rec>>, j: nat, pos: nat, ch: Change, r: Rec)
    requires j < |gs| && pos < |gs[j]|
    ensures Place(gs, j, pos) < |Flat(gs)|
    ensures Flat(gs[..j]) + Want(gs[j], pos, ch, r) + Flat(gs[j + 1..]) == Want(Flat(gs), Place(gs, j, pos), ch, r)
  {
    hide Flat;
    FlatAt(gs, j);
    WantMiddle(Flat(gs[..j]), gs[j], Flat(gs[j + 1..]), pos, ch, r);
  }

  lemma WantMiddle(a: seq<Rec>, m: seq<Rec>, b: seq<Rec>, pos: nat, ch: Change, r: Rec)
    requires pos < |m|
    ensures a + Want(m, pos, ch, r) + b == Want(a + m + b, |a| + pos, ch, r)
  {
  }

  lemma {:induction false} SizeUpdate(s: seq<Rec>, g: nat, r: Rec)
    requires g < |s| && r.len == s[g].len
    ensures Size(s[g := r]) == Size(s)
  {
    hide Size;
    SplitAt(s, g);
    SplitAt(s[g := r], g);
    assert s[g := r][..g] == s[..g] && s[g := r][g + 1..] == s[g + 1..];
    SizeConcat(s[..g] + [s[g]], s[g + 1..]);
    SizeConcat(s[..g] + [r], s[g + 1..]);
    SizeConcat(s[..g], [s[g]]);
    SizeConcat(s[..g], [r]);
    SizeOne(s[g]);
    SizeOne(r);
  }

  lemma ChangedFits(s: seq<Rec>, g: nat, ch: Change, max: nat)
    requires g < |s| && RecsOk(s, max)
    ensures Size(Changed(s, g, ch)) == Size(s) && RecsOk(Changed(s, g, ch), max)
  {
    hide Size;
    if ch.Child? {
      SizeUpdate(s, g, s[g].(val := ch.id));
    }
  }

  lemma WantFacts(s: seq<Rec>, g: nat, ch: Change, r: Rec, max: nat)
    requires g < |s| && RecsOk(s, max) && RecOk(r, max)
    ensures Want(s, g, ch, r) == Inserted(Changed(s, g, ch), g + 1, r)
    ensures Size(Want(s, g, ch, r)) == Size(s) + r.len + SLOT && RecsOk(Want(s, g, ch, r), max)
    ensures |Want(s, g, ch, r)| == |s| + 1
    ensures Want(s, g, ch, r)[0].key == s[0].key && Want(s, g, ch, r)[0].klen == s[0].klen
  {
    hide Size;
    ChangedFits(s, g, ch, max);
    InsertedSize(Changed(s, g, ch), g + 1, r);
  }

  /** The index of a valid level is sorted like the level. */
  lemma IndexSorted(cfg: Config, lv: Level)
    requires Good(cfg, lv)
    ensures Sorted(Index(lv))
  {
    forall x, y | 0 <= x < y < |lv.groups|
      ensures lv.groups[x] != [] && lv.groups[y] != [] && lv.groups[x][0].key < lv.groups[y][0].key
    {
      assert GoodNode(cfg, lv.groups[x]) && GoodNode(cfg, lv.groups[y]);
      FirstsApart(lv.groups, x, y);
    }
  }

  lemma FirstsApart(gs: seq<seq<Rec>>, x: nat, y: nat)
    requires x < y < |gs| && gs[x] != [] && gs[y] != [] && Sorted(Flat(gs))
    ensures gs[x][0].key < gs[y][0].key
  {
    PlaceAt(gs, x, 0);
    PlaceAt(gs, y, 0);
    FlatAt(gs[..y], x);
    assert gs[..y][..x] == gs[..x];
  }

  /** Room for the record: its node takes it. */
  lemma PutIn(cfg: Config, lv: Level, j: nat, pos: nat, ch: Change, r: Rec)
    requires Good(cfg, lv) && j < |lv.ids| && pos < |lv.groups[j]| && RecOk(r, cfg.max)
    requires Place(lv.groups, j, pos) < |Flat(lv.groups)|
             && Sorted(Want(Flat(lv.groups), Place(lv.groups, j, pos), ch, r))
    requires !NodeFull(lv.groups[j], cfg.size, r)
    ensures var lv' := SetGroup(lv, j, Want(lv.groups[j], pos, ch, r));
            && Good(cfg, lv') && Index(lv') == Index(lv)
            && Flat(lv'.groups) == Want(Flat(lv.groups), Place(lv.groups, j, pos), ch, r)
  {
    hide Flat, Want, Place, Size, Sorted;
    var g := lv.groups[j];
    assert GoodNode(cfg, g);
    var g' := Want(g, pos, ch, r);
    WantFacts(g, pos, ch, r, cfg.max);
    SetGroupFlat(lv, j, g');
    WantInNode(lv.groups, j, pos, ch, r);
    SetGroupIndex(lv, j, g');
    IndexAt(lv, j);
    assert GoodNode(cfg, g');
  }

  /** No room: two nodes take the records, and the level above has to change likewise. */
  lemma SplitIn(cfg: Config, lv: Level, j: nat, pos: nat, ch: Change, r: Rec, b1: nat, p1: seq<Rec>, b2: nat,
                p2: seq<Rec>)
    requires Good(cfg, lv) && j < |lv.ids| && pos < |lv.groups[j]| && RecOk(r, cfg.max)
    requires Place(lv.groups, j, pos) < |Flat(lv.groups)|
             && Sorted(Want(Flat(lv.groups), Place(lv.groups, j, pos), ch, r))
    requires p1 + p2 == Want(lv.groups[j], pos, ch, r) && p1 != [] && p2 != [] && FitsNode(p1, cfg.size)
             && FitsNode(p2, cfg.size)
    ensures var lv' := SplitLevel(lv, j, b1, p1, b2, p2);
            && Good(cfg, lv') && Flat(lv'.groups) == Want(Flat(lv.groups), Place(lv.groups, j, pos), ch, r)
            && Index(lv') == Want(Index(lv), j, Child(b1), IndexRec(p2[0], b2))
  {
    hide Flat, Place, Size, Sorted, FitsNode;
    var g := lv.groups[j];
    assert GoodNode(cfg, g);
    WantFacts(g, pos, ch, r, cfg.max);
    PartsOk(p1, p2, cfg.max);
    SplitLevelFlat(lv, j, b1, p1, b2, p2);
    WantInNode(lv.groups, j, pos, ch, r);
    SplitLevelIndex(lv, j, b1, p1, b2, p2);
    IndexAt(lv, j);
    SplitGood(cfg, lv, j, b1, p1, b2, p2);
    assert First(p1).key == g[0].key && First(p1).klen == g[0].klen by {
      assert (p1 + p2)[0] == p1[0];
    }
    hide Want;
    IndexWant(Index(lv), j, IndexRec(First(p1), b1), b1, IndexRec(First(p2), b2));
  }

  lemma IndexWant(s: seq<Rec>, j: nat, x: Rec, b1: nat, y: Rec)
    requires j < |s| && x == s[j].(val := b1)
    ensures s[..j] + [x, y] + s[j + 1..] == Want(s, j, Child(b1), y)
  {
  }

  lemma PartsOk(a: seq<Rec>, b: seq<Rec>, max: nat)
    requires RecsOk(a + b, max)
    ensures RecsOk(a, max) && RecsOk(b, max)
  {
    assert forall i :: 0 <= i < |a| ==> a[i] == (a + b)[i];
    assert forall i :: 0 <= i < |b| ==> b[i] == (a + b)[|a| + i];
  }

  lemma SplitGood(cfg: Config, lv: Level, j: nat, b1: nat, p1: seq<Rec>, b2: nat, p2: seq<Rec>)
    requires Good(cfg, lv) && j < |lv.ids| && GoodNode(cfg, p1) && GoodNode(cfg, p2)
    ensures var lv' := SplitLevel(lv, j, b1, p1, b2, p2); |lv'.ids| == |lv'.groups| > 0 && GoodNodes(cfg, lv'.groups)
  {
    hide GoodNode;
  }

  // Putting the levels together again.

  /** The levels from `c` to below `t` are valid; what they want of level `t` is open. */
  ghost predicate Lower(cfg: Config, ls: seq<Level>, c: nat, t: nat) {
    && c <= t <= |ls|
    && (forall n :: c <= n < t ==> Good(cfg, ls[n]))
    && (forall n :: c <= n < t - 1 ==> Flat(ls[n + 1].groups) == Index(ls[n]))
  }

  lemma Glue(cfg: Config, ls: seq<Level>, root: nat, c: nat, t: nat)
    requires Lower(cfg, ls, c, t) && t > c && Above(ls, root, t, Index(ls[t - 1]))
    requires t < |ls| ==> Upper(cfg, ls, root, t)
    ensures Upper(cfg, ls, root, c)
  {
    hide Good, Flat;
    forall m | c <= m < |ls| ensures Indexed(cfg, ls, root, m) {
      if m < t - 1 {
        assert Good(cfg, ls[m]) && Flat(ls[m + 1].groups) == Index(ls[m]);
      } else if m == t - 1 {
        assert Good(cfg, ls[m]);
      }
    }
  }

  /** One more finished level below. */
  lemma LowerNext(cfg: Config, ls: seq<Level>, c: nat, t: nat, lv: Level)
    requires Lower(cfg, ls, c, t) && t < |ls| && Good(cfg, lv) && (t > c ==> Flat(lv.groups) == Index(ls[t - 1]))
    ensures Lower(cfg, ls[t := lv], c, t + 1)
  {
    hide Good, Flat;
  }

  /** Replacing a level by one with the same index keeps the levels from it on valid. */
  lemma UpperSet(cfg: Config, ls: seq<Level>, root: nat, t: nat, lv: Level)
    requires Upper(cfg, ls, root, t) && Good(cfg, lv) && Index(lv) == Index(ls[t])
    ensures Upper(cfg, ls[t := lv], root, t)
  {
    hide Good, Flat;
    var ls' := ls[t := lv];
    forall m | t <= m < |ls| ensures Indexed(cfg, ls', root, m) {
      assert Indexed(cfg, ls, root, m);
    }
  }

  lemma UpperNext(cfg: Config, ls: seq<Level>, root: nat, t: nat, lv: Level)
    requires Upper(cfg, ls, root, t) && t + 1 < |ls|
    ensures Upper(cfg, ls[t := lv], root, t + 1)
  {
    hide Good, Flat;
    var ls' := ls[t := lv];
    forall m | t + 1 <= m < |ls| ensures Indexed(cfg, ls', root, m) {
      assert Indexed(cfg, ls, root, m);
    }
  }

  /** A root of two records. */
  lemma TwoFit(cfg: Config, x: Rec, y: Rec)
    requires Halves(cfg.size, cfg.max) && RecOk(x, cfg.max) && RecOk(y, cfg.max)
    ensures GoodNode(cfg, [x, y])
  {
    assert [x, y] == [x] + [y];
    SizeConcat([x], [y]);
    SizeOne(x);
    SizeOne(y);
  }

  /** A new root above the two parts of the old one. */
  lemma Grown(cfg: Config, ls: seq<Level>, root: nat, t: nat, lv: Level, x: Rec, y: Rec)
    requires t + 1 == |ls| && Good(cfg, lv) && Index(lv) == [x, y] && GoodNode(cfg, [x, y])
    ensures var ls' := ls[t := lv] + [Level([root], [[x, y]])]; Upper(cfg, ls', root, t)
  {
    var top := Level([root], [[x, y]]);
    var ls' := ls[t := lv] + [top];
    IndexSorted(cfg, lv);
    FlatOne([x, y]);
    assert ls'[t] == lv && ls'[t + 1] == top;
    assert Good(cfg, top);
    assert Indexed(cfg, ls', root, t + 1) && Indexed(cfg, ls', root, t);
  }

  // The node that holds the record before a new one.

  /** The node with a record of key `k` has another record. */
  ghost predicate Roomy(gs: seq<seq<Rec>>, k: int) {
    forall x, y :: 0 <= x < |gs| && 0 <= y < |gs[x]| && gs[x][y].key == k ==> |gs[x]| >= 2
  }

  lemma PlaceBefore(gs: seq<seq<Rec>>, x: nat, y: nat, j: nat)
    requires x < |gs| && y < |gs[x]| && j <= |gs|
    ensures x < j ==> Place(gs, x, y) < |Flat(gs[..j])|
    ensures j <= x ==> Place(gs, x, y) >= |Flat(gs[..j])|
  {
    if x < j {
      FlatAt(gs[..j], x);
      assert gs[..j][..x] == gs[..x];
    } else {
      assert gs[..x] == gs[..j] + gs[j..x];
      FlatConcat(gs[..j], gs[j..x]);
    }
  }

  lemma SortedPlace(s: seq<Rec>, g: nat, h: nat)
    requires Sorted(s) && g < |s| && h < |s| && s[g].key == s[h].key
    ensures g == h
  {
  }

  lemma RoomyPut(gs: seq<seq<Rec>>, j: nat, g: seq<Rec>, pos: nat)
    requires j < |gs| && pos + 1 < |g| && Sorted(Flat(gs[j := g])) && |g| >= 2
    ensures Roomy(gs[j := g], g[pos].key)
  {
    hide Flat;
    var gs' := gs[j := g];
    PlaceAt(gs', j, pos);
    forall x, y | 0 <= x < |gs'| && 0 <= y < |gs'[x]| && gs'[x][y].key == g[pos].key ensures |gs'[x]| >= 2 {
      PlaceAt(gs', x, y);
      SortedPlace(Flat(gs'), Place(gs', x, y), Place(gs', j, pos));
      PlaceBefore(gs', x, y, j);
      PlaceBefore(gs', j, pos, x);
    }
  }

  lemma RoomySplit(gs: seq<seq<Rec>>, j: nat, p1: seq<Rec>, p2: seq<Rec>, pos: nat)
    requires j + 1 < |gs| && gs[j] == p1 && gs[j + 1] == p2 && |p1| >= 2 && pos + 1 < |p1| + |p2| && Sorted(Flat(gs))
    ensures Roomy(gs, (p1 + p2)[pos].key)
  {
    hide Flat;
    var j', pos' := if pos < |p1| then j else j + 1, if pos < |p1| then pos else pos - |p1|;
    PlaceAt(gs, j', pos');
    forall x, y | 0 <= x < |gs| && 0 <= y < |gs[x]| && gs[x][y].key == (p1 + p2)[pos].key ensures |gs[x]| >= 2 {
      PlaceAt(gs, x, y);
      SortedPlace(Flat(gs), Place(gs, x, y), Place(gs, j', pos'));
      PlaceBefore(gs, x, y, j');
      PlaceBefore(gs, j', pos', x);
    }
  }
}
