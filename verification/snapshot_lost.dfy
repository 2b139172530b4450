/** A run in which a failed sync and the commit after it lose the last sync. */
module SnapshotLost {
  import opened Bytes
  import opened SnapshotHead
  import opened SnapshotJournal
  import opened SnapshotSafety
  import opened SnapshotRecovery
  import opened SnapshotFailed

  // A snapshot area of ten pages, and pages 10 and 11 in use. All hold 0.

  const C := Config(0, 10, _ => 0)

  function Zero(p: nat): Page {
    0
  }

  const DISK: map<nat, Page> := map p | 0 <= p < 12 :: Zero(p)
  const FILES: map<nat, Page> := map p | 10 <= p < 12 :: Zero(p)

  function ZeroHead(): seq<byte> {
    seq(PAGE, _ => 0)
  }

  function Down0(): State {
    State(DISK, ZeroHead(), map[], {}, [], 0, 0, 0, map[], map[], {}, Down, FILES)
  }

  function Open0(): State {
    Down0().(cache := FILES, pageIndex := 1, phase := Open)
  }

  lemma Layout()
    ensures HeadPages(10) == 1 == HeadPages(1) && MaxPages(C) == 8 && HistoryPage(C) == 9 && Wf(C) && 14 < Pow256(8)
  {
    assert Pow256(8) == 0x1_0000_0000_0000_0000 by {
      assert Pow256(2) == 0x1_0000 && Pow256(4) == 0x1_0000_0000 && Pow256(6) == 0x1_0000_0000_0000;
    }
  }

  lemma Begins()
    ensures Init(C, Down0()) && Step(C, Down0(), Mount, Open0())
  {
    Layout();
    hide HeadPages, Pow256;
    assert ZeroHead()[..4][0] == 0;
    assert Le(MAGIC, 4)[0] == MAGIC % 256 != 0;
    assert Reload(Down0()) == FILES;
  }

  // Task 0 saves page `p` in a transaction, and may change it.

  function Started(s: State): State {
    s.(readers := {0}, locks := s.locks[0 := 1])
  }

  function Saved(s: State, p: nat, sender: Sender): State {
    Started(s).(tree := [Entry(p, s.pageIndex, 1)], count := 1, pageIndex := s.pageIndex + 1,
                flight := map[s.pageIndex := Write(sender, 0)])
  }

  function Written(s: State, p: nat): State {
    Saved(s, p, Sent).(flight := map[], disk := s.disk[s.pageIndex := 0])
  }

  function Stopped(s: State): State {
    s.(readers := {}, locks := s.locks[0 := 0])
  }

  /** Nobody is inside a transaction, nothing is saved, and page `p` is clean and holds 0. */
  ghost predicate Idle(s: State, p: nat) {
    && s.phase.Open? && s.readers == {} && Depth(s, 0) == 0 && s.flight == map[] && s.tree == [] && s.count == 0
    && 0 < s.pageIndex < 8 && 10 <= p < 12 && p in s.cache && s.cache[p] == 0 && p !in s.dirty
  }

  lemma Saves(s: State, p: nat)
    requires Idle(s, p)
    ensures Step(C, s, Start(0), Started(s)) && Step(C, Started(s), Add(0, p, 1), Saved(s, p, Unsent(0)))
    ensures Step(C, Saved(s, p, Unsent(0)), Submit(0), Saved(s, p, Sent))
    ensures Step(C, Saved(s, p, Sent), BodyDone(s.pageIndex), Written(s, p))
  {
    Layout();
    hide HeadPages, Pow256;
    var t, slot := Started(s), s.pageIndex;
    assert s.readers + {0} == {0};
    var more := SnapshotJournal.Images(t, 0, p, 1, slot);
    assert Original(p, slot, slot) == p && more.Keys == {slot} && more[slot] == Write(Unsent(0), 0);
    assert t.flight + more == map[slot := Write(Unsent(0), 0)];
    assert Insert([], Entry(p, slot, 1)) == [Entry(p, slot, 1)];
    var f, g := map[slot := Write(Unsent(0), 0)], map[slot := Write(Sent, 0)];
    assert (map x | x in f :: SentBy(f[x], 0)) == g && g - {slot} == map[];
  }

  /** The state with a saved chunk is committed. */
  ghost predicate Ready(s: State) {
    && s.phase.Open? && s.readers == {0} && s.locks == map[0 := 1] && s.flight == map[] && |s.tree| == 1 == s.count
    && |s.head| == PAGE
  }

  function Committed(s: State): State
    requires HEADER + RECORD * |s.tree| + 4 <= HeadPages(s.count) * PAGE <= |s.head|
  {
    Stopped(s).(head := NewHead(C, Stopped(s).(phase := Commit), 0), disk := s.disk[9 := 0], version := s.version + 1,
                count := 0, tree := [], phase := Sync)
  }

  lemma HeadSize(s: State)
    requires HEADER + RECORD * |s.tree| + 4 <= HeadPages(s.count) * PAGE <= |s.head|
    ensures |NewHead(C, s, 0)| == |s.head|
  {
    hide HeadPages;
  }

  lemma Commits(s: State)
    requires Ready(s)
    ensures HEADER + RECORD * |s.tree| + 4 <= HeadPages(s.count) * PAGE <= |s.head|
    ensures Step(C, s, Stop(0), Stopped(s)) && Step(C, Stopped(s), Lock, Stopped(s).(phase := Commit))
    ensures Step(C, Stopped(s).(phase := Commit), WriteHead(0, 0), Committed(s)) && |Committed(s).head| == PAGE
  {
    Layout();
    HeadSize(Stopped(s).(phase := Commit));
    hide HeadPages, Pow256, NewHead;
    assert s.readers - {0} == {};
  }

  lemma Changes(s: State, p: nat, v: Page)
    requires s.phase.Open? && Depth(s, 0) > 0 && 10 <= p < 12 && |s.tree| == 1 && s.tree[0].onVolume == p
             && s.tree[0].count == 1
    ensures Step(C, s, Modify(0, p, v), s.(cache := s.cache[p := v], dirty := s.dirty + {p}))
  {
    Layout();
    hide HeadPages, Pow256;
    assert s.tree[0] in s.tree && Covers(s.tree[0], p);
  }

  lemma Synced(s: State, p: nat, v: Page)
    requires s.phase.Sync? && p in s.dirty && p in s.cache && s.cache[p] == v
    ensures Step(C, s, SyncPage(p), s.(disk := s.disk[p := v], dirty := s.dirty - {p}))
  {
  }

  /** Page 10 is saved, changed, committed and written in place. */
  lemma Syncing10() returns (ss: seq<State>, evs: seq<Event>)
    ensures |ss| == |evs| + 1 && Run(C, ss, evs) && Short(ss, evs, |evs|)
    ensures var s := ss[|evs|];
            && s.phase.Sync? && s.dirty == {} && s.committed == FILES && s.disk == DISK[1 := 0][9 := 0][10 := 7]
            && s.readers == {} && s.locks == map[0 := 0] && s.flight == map[] && s.tree == [] && s.count == 0
            && s.pageIndex == 2 && s.cache == FILES[10 := 7] && |s.head| == PAGE
  {
    hide Step, Init, HeadPages, NewHead, Inv;
    Begins();
    var s1 := Open0();
    Saves(s1, 10);
    var s5 := Written(s1, 10);
    Changes(s5, 10, 7);
    var s6 := s5.(cache := s5.cache[10 := 7], dirty := s5.dirty + {10});
    assert s6.locks == map[0 := 1];
    Commits(s6);
    var s9 := Committed(s6);
    var s10 := s9.(disk := s9.disk[10 := 7], dirty := s9.dirty - {10});
    Synced(s9, 10, 7);
    assert s9.locks == map[0 := 0];
    ss := [Down0(), s1, Started(s1), Saved(s1, 10, Unsent(0)), Saved(s1, 10, Sent), s5, s6, Stopped(s6),
           Stopped(s6).(phase := Commit), s9, s10];
    evs := [Mount, Start(0), Add(0, 10, 1), Submit(0), BodyDone(1), Modify(0, 10, 7), Stop(0), Lock, WriteHead(0, 0),
            SyncPage(10)];
  }

  /** Then the sync fails. After that page 11 is saved, and the new head lists page 11 only: page 10 is not what it was
      at the last sync, and recovery does not bring that back. */
  lemma LosesSync() returns (ss: seq<State>, evs: seq<Event>, ts: seq<State>, fs: seq<Event>, t': State)
    ensures Failing(C, ss, evs, map[], ts, fs) && ts[|fs|].count == 1 && Step(C, ts[|fs|], WriteHead(0, 0), t')
    ensures !Unwritten(ts[0]) && !Safe(t')
  {
    hide Step, Init, HeadPages, NewHead, Replay, Listed, Inv, Run, Short;
    ss, evs := Syncing10();
    var s := ss[|evs|];
    var f := s.(phase := Open);
    assert s.disk + map[] == s.disk;
    Saves(f, 11);
    var f4 := Written(f, 11);
    assert f4.locks == map[0 := 1];
    Commits(f4);
    t' := Committed(f4);
    ts := [f, Started(f), Saved(f, 11, Unsent(0)), Saved(f, 11, Sent), f4, Stopped(f4), Stopped(f4).(phase := Commit)];
    fs := [Start(0), Add(0, 11, 1), Submit(0), BodyDone(2), Stop(0), Lock];
    assert 10 in f.committed && f.disk[10] == 7 && f.committed[10] == Zero(10);
    NextCommit(C, ss, evs, map[], ts, fs, 0, 0, t');
  }
}
