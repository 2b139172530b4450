/** How many chunks a commit may list, and a run that commits too many. */
module SnapshotOverlong {
  import opened Bytes
  import opened SnapshotHead
  import opened SnapshotJournal
  import opened SnapshotSafety
  import opened SnapshotRecovery

  /** What is behind the encoded list in the head area. */
  function Rest(s: State): seq<byte>
    requires HEADER + RECORD * |s.tree| + 4 <= HeadPages(s.count) * PAGE <= |s.head|
  {
    seq(HeadPages(s.count) * PAGE - (HEADER + RECORD * |s.tree| + 4), _ => 0) + s.head[HeadPages(s.count) * PAGE..]
  }

  /** The number of chunks at the time of the commit decides whether the head is sure to be accepted. */
  lemma CommitAcceptedIff(c: Config, s: State, mount: nat)
    requires Inv(c, s) && s.phase.Commit? && s.count > 0
    ensures HEADER + RECORD * |s.tree| + 4 <= HeadPages(s.count) * PAGE <= |s.head|
    ensures (forall crc: seq<byte> -> nat :: Accepted(NewHead(c.(crc := crc), s, mount), crc)) <==>
              s.count <= MAX_ENTRIES
  {
    HeadFits(c, s);
    hide Encode, Accepted, HeadPages;
    AcceptedIffShort(s.tree, mount, s.version, Rest(s));
    forall crc: seq<byte> -> nat
      ensures NewHead(c.(crc := crc), s, mount) == Encode(s.tree, mount, s.version, crc) + Rest(s)
    {
      var e := Encode(s.tree, mount, s.version, crc);
      assert e + seq(HeadPages(s.count) * PAGE - |e|, _ => 0) + s.head[HeadPages(s.count) * PAGE..] == e + Rest(s);
    }
    if s.count > MAX_ENTRIES {
      var crc := MisplacedChecksum(s.tree, mount, s.version, Rest(s));
      assert !Accepted(NewHead(c.(crc := crc), s, mount), crc);
    }
  }

  // A run that saves `n` pages, one chunk each, and commits them. All pages hold 0.

  function Area(n: nat): nat {
    2 * n + 10
  }

  function Conf(n: nat, crc: seq<byte> -> nat): Config {
    Config(0, Area(n), crc)
  }

  /** The first body slot. */
  function Body(n: nat): nat {
    HeadPages(Area(n))
  }

  function Chunk(n: nat, i: nat): Entry {
    Entry(Area(n) + i, Body(n) + i, 1)
  }

  function Chunks(n: nat, i: nat): (list: seq<Entry>)
    ensures |list| == i
  {
    seq(i, j requires 0 <= j < i => Chunk(n, j))
  }

  function Zero(p: nat): Page {
    0
  }

  function Volume(n: nat): map<nat, Page> {
    map p | 0 <= p < Area(n) + n :: Zero(p)
  }

  function Files(n: nat): map<nat, Page> {
    map p | Area(n) <= p < Area(n) + n :: Zero(p)
  }

  function ZeroHead(n: nat): seq<byte> {
    seq(Body(n) * PAGE, _ => 0)
  }

  function Clean(n: nat): State {
    State(Volume(n), ZeroHead(n), map[], {}, [], 0, 0, 0, map[], map[], {}, Down, Files(n))
  }

  /** One task is inside a transaction and has saved `i` pages. */
  function Filling(n: nat, i: nat): State {
    State(Volume(n), ZeroHead(n), Files(n), {}, Chunks(n, i), i, Body(n) + i, 0, map[], map[0 := 1], {0}, Open,
          Files(n))
  }

  /** The image of page `i` is on its way. */
  function Under(n: nat, i: nat, sender: Sender): State {
    Filling(n, i + 1).(flight := map[Body(n) + i := Write(sender, 0)])
  }

  function Stopped(n: nat): State {
    Filling(n, n).(readers := {}, locks := map[0 := 0])
  }

  function Full(n: nat): State {
    Stopped(n).(phase := Commit)
  }

  /** A size that the area can be addressed with. */
  predicate Size(n: nat) {
    MAX_ENTRIES < n < WORD32
  }

  lemma AreaOk(n: nat, crc: seq<byte> -> nat)
    requires Size(n)
    ensures Wf(Conf(n, crc)) && Body(n) + n <= MaxPages(Conf(n, crc)) && Area(n) + n < Pow256(8) && Body(n) > 0
    ensures HEADER + RECORD * n + 4 <= HeadPages(n) * PAGE <= Body(n) * PAGE
  {
    assert Pow256(8) == 0x1_0000_0000_0000_0000 by {
      assert Pow256(2) == 0x1_0000 && Pow256(4) == 0x1_0000_0000 && Pow256(6) == 0x1_0000_0000_0000;
    }
  }

  lemma Begins(n: nat, crc: seq<byte> -> nat)
    requires Size(n)
    ensures Init(Conf(n, crc), Clean(n)) && !Present(ZeroHead(n))
  {
    AreaOk(n, crc);
    hide HeadPages, Pow256;
    assert Body(n) * PAGE >= 4;
    assert ZeroHead(n)[..4][0] == 0;
    assert Le(MAGIC, 4)[0] == MAGIC % 256 != 0;
  }

  lemma MountStarts(n: nat, crc: seq<byte> -> nat) returns (s: State)
    requires Size(n)
    ensures Step(Conf(n, crc), Clean(n), Mount, s) && Step(Conf(n, crc), s, Start(0), Filling(n, 0))
  {
    Begins(n, crc);
    hide HeadPages, Present, Pow256;
    assert Reload(Clean(n)) == Files(n);
    s := Clean(n).(cache := Files(n), pageIndex := Body(n), phase := Open);
    assert s.locks[0 := 1] == map[0 := 1] && s.readers + {0} == {0};
    assert Chunks(n, 0) == [];
  }

  lemma {:induction false} InsertLast(tree: seq<Entry>, e: Entry)
    requires forall x :: x in tree ==> x.onVolume < e.onVolume
    ensures Insert(tree, e) == tree + [e]
  {
    if tree != [] {
      assert tree[0] in tree;
      InsertLast(tree[1..], e);
      assert tree == [tree[0]] + tree[1..];
    }
  }

  lemma Saves(n: nat, crc: seq<byte> -> nat, i: nat)
    requires Size(n) && i < n
    ensures Adds(Conf(n, crc), Filling(n, i), 0, Area(n) + i, 1, Under(n, i, Unsent(0)))
  {
    hide HeadPages, Pow256, Wf, Chunks, SnapshotJournal.Images, Insert, Volume, Files, ZeroHead, Known, Adds;
    AreaOk(n, crc);
    Chunked(n, i);
    Imaged(n, i);
    AddsOne(Conf(n, crc), Filling(n, i), Area(n) + i, Body(n) + i, Under(n, i, Unsent(0)));
  }

  lemma AddsOne(c: Config, s: State, a: nat, slot: nat, s': State)
    requires Up(s) && Depth(s, 0) > 0 && s.flight == map[] && s.dirty == {} && !Known(s.tree, a)
    requires forall p :: a <= p < a + 1 ==> p in s.cache
    requires s.pageIndex + 1 <= MaxPages(c) && a + 1 < Pow256(8) && slot == c.start + s.pageIndex
    requires s' == s.(tree := Insert(s.tree, Entry(a, slot, 1)), count := s.count + 1, pageIndex := s.pageIndex + 1,
                      flight := map[] + SnapshotJournal.Images(s, 0, a, 1, slot))
    ensures Adds(c, s, 0, a, 1, s')
  {
    hide HeadPages, Pow256, Insert, SnapshotJournal.Images, Known;
  }

  lemma Chunked(n: nat, i: nat)
    ensures Insert(Chunks(n, i), Chunk(n, i)) == Chunks(n, i + 1) && !Known(Chunks(n, i), Area(n) + i)
  {
    hide HeadPages;
    InsertLast(Chunks(n, i), Chunk(n, i));
    assert Chunks(n, i) + [Chunk(n, i)] == Chunks(n, i + 1);
  }

  lemma Imaged(n: nat, i: nat)
    requires i < n
    ensures forall p :: Area(n) + i <= p < Area(n) + i + 1 ==> p in Filling(n, i).cache
    ensures var more := SnapshotJournal.Images(Filling(n, i), 0, Area(n) + i, 1, Body(n) + i);
            map[] + more == map[Body(n) + i := Write(Unsent(0), 0)]
  {
    hide HeadPages, Chunks;
    var more := SnapshotJournal.Images(Filling(n, i), 0, Area(n) + i, 1, Body(n) + i);
    assert Original(Area(n) + i, Body(n) + i, Body(n) + i) == Area(n) + i;
    assert more.Keys == {Body(n) + i};
  }

  lemma Writes(n: nat, crc: seq<byte> -> nat, i: nat)
    requires Size(n) && i < n
    ensures Submits(Under(n, i, Unsent(0)), 0, Under(n, i, Sent))
    ensures BodyWritten(Under(n, i, Sent), Body(n) + i, Filling(n, i + 1))
  {
    AreaOk(n, crc);
    hide HeadPages, Pow256, Chunks;
    assert Volume(n)[Body(n) + i := 0] == Volume(n);
    SentOne(Body(n) + i);
    hide Volume, Files, ZeroHead;
  }

  lemma SentOne(slot: nat)
    ensures var f := map[slot := Write(Unsent(0), 0)]; var g := map[slot := Write(Sent, 0)];
            (map x | x in f :: SentBy(f[x], 0)) == g && g - {slot} == map[]
  {
  }

  lemma Ends(n: nat, crc: seq<byte> -> nat) returns (s: State)
    requires Size(n)
    ensures Step(Conf(n, crc), Filling(n, n), Stop(0), Stopped(n)) && Step(Conf(n, crc), Stopped(n), Lock, Full(n))
    ensures HEADER + RECORD * |Full(n).tree| + 4 <= HeadPages(n) * PAGE <= |Full(n).head|
    ensures Step(Conf(n, crc), Full(n), WriteHead(0, 0), s) && s.head == NewHead(Conf(n, crc), Full(n), 0)
  {
    AreaOk(n, crc);
    var f, c := Full(n), Conf(n, crc);
    s := f.(head := NewHead(c, f, 0), disk := f.disk[HistoryPage(c) := 0], version := 1, count := 0, tree := [],
            phase := Sync);
    hide HeadPages, Pow256, NewHead, Volume, Files, Chunks;
    assert map[0 := 1][0 := 0] == map[0 := 0] && {0} - {0} == {};
  }

  lemma Extend(c: Config, ss: seq<State>, evs: seq<Event>, ev: Event, s: State)
    requires Run(c, ss, evs) && Step(c, ss[|ss| - 1], ev, s)
    ensures Run(c, ss + [s], evs + [ev])
  {
    hide Step, Init;
  }

  lemma SavingSteps(c: Config, s0: State, a: nat, s1: State, s2: State, slot: nat, s3: State)
    requires Adds(c, s0, 0, a, 1, s1) && Submits(s1, 0, s2) && BodyWritten(s2, slot, s3)
    ensures Step(c, s0, Add(0, a, 1), s1) && Step(c, s1, Submit(0), s2) && Step(c, s2, BodyDone(slot), s3)
  {
    hide Adds, Submits, BodyWritten;
  }

  lemma {:induction false} FillingRun(n: nat, crc: seq<byte> -> nat, i: nat) returns (ss: seq<State>, evs: seq<Event>)
    requires Size(n) && i <= n
    ensures Run(Conf(n, crc), ss, evs) && ss[|ss| - 1] == Filling(n, i)
    decreases i
  {
    var c := Conf(n, crc);
    hide Step, Init, Filling, Under, Clean, Conf, Size, Adds, Submits, BodyWritten;
    if i == 0 {
      Begins(n, crc);
      var s := MountStarts(n, crc);
      ss, evs := [Clean(n), s, Filling(n, 0)], [Mount, Start(0)];
    } else {
      ss, evs := FillingRun(n, crc, i - 1);
      Saves(n, crc, i - 1);
      Writes(n, crc, i - 1);
      SavingSteps(c, Filling(n, i - 1), Area(n) + (i - 1), Under(n, i - 1, Unsent(0)), Under(n, i - 1, Sent),
                  Body(n) + (i - 1), Filling(n, i));
      Extend(c, ss, evs, Add(0, Area(n) + (i - 1), 1), Under(n, i - 1, Unsent(0)));
      ss, evs := ss + [Under(n, i - 1, Unsent(0))], evs + [Add(0, Area(n) + (i - 1), 1)];
      Extend(c, ss, evs, Submit(0), Under(n, i - 1, Sent));
      ss, evs := ss + [Under(n, i - 1, Sent)], evs + [Submit(0)];
      Extend(c, ss, evs, BodyDone(Body(n) + (i - 1)), Filling(n, i));
      ss, evs := ss + [Filling(n, i)], evs + [BodyDone(Body(n) + (i - 1))];
    }
  }

  /** For every number of chunks that is too large there are a checksum and a run that commits so many; the head it
      leaves on the device is there, and recovery refuses it. */
  lemma OverlongCommit(n: nat) returns (c: Config, ss: seq<State>, evs: seq<Event>)
    requires Size(n)
    ensures Run(c, ss, evs) && evs != [] && evs[|evs| - 1].WriteHead? && ss[|evs| - 1].count == n
    ensures Present(ss[|evs|].head) && !Accepted(ss[|evs|].head, c.crc)
  {
    AreaOk(n, _ => 0);
    var f := Full(n);
    var crc := MisplacedChecksum(f.tree, 0, 0, Rest(f));
    c := Conf(n, crc);
    ss, evs := FillingRun(n, crc, n);
    var s := Ends(n, crc);
    hide Step, Init, Accepted, Encode, HeadPages, Filling;
    Extend(c, ss, evs, Stop(0), Stopped(n));
    Extend(c, ss + [Stopped(n)], evs + [Stop(0)], Lock, f);
    Extend(c, ss + [Stopped(n)] + [f], evs + [Stop(0)] + [Lock], WriteHead(0, 0), s);
    ss, evs := ss + [Stopped(n)] + [f] + [s], evs + [Stop(0)] + [Lock] + [WriteHead(0, 0)];
    OverlongHead(c, f);
  }

  lemma OverlongHead(c: Config, f: State)
    requires HEADER + RECORD * |f.tree| + 4 <= HeadPages(f.count) * PAGE <= |f.head|
    ensures NewHead(c, f, 0) == Encode(f.tree, 0, f.version, c.crc) + Rest(f) && Present(NewHead(c, f, 0))
  {
    hide HeadPages, Le, Header, Records;
    var e := Encode(f.tree, 0, f.version, c.crc);
    var h := Header(|f.tree|, 0, f.version);
    assert NewHead(c, f, 0) == e + Rest(f) == h + (e + Rest(f))[HEADER..];
    HeaderFields(|f.tree|, 0, f.version, (e + Rest(f))[HEADER..]);
  }
}
