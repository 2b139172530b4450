/** What the invariant of the journal means: every crash is recovered from, whole transactions at a time. */
module SnapshotRecovery {
  import opened Bytes
  import opened SnapshotHead
  import opened SnapshotJournal
  import opened SnapshotSafety

  /** A commit that the head can hold: its length in bytes fits the 16-bit field. */
  predicate ShortCommit(s: State, ev: Event) {
    ev.WriteHead? ==> s.count <= MAX_ENTRIES
  }

  lemma StepInv(c: Config, s: State, ev: Event, s': State)
    requires Inv(c, s) && Step(c, s, ev, s') && ShortCommit(s, ev)
    ensures Inv(c, s')
  {
    hide Inv, Starts, Stops, Adds, Submits, Modifies, BodyWritten, HeadWritten, PageSynced, Cleared, Crashed, Mounted,
      RestoreBegun, PageRestored, RestoreEnded;
    match ev {
      case Start(pid) => StartInv(c, s, pid, s');
      case Stop(pid) => StopInv(c, s, pid, s');
      case Add(pid, a, n) => AddInv(c, s, pid, a, n, s');
      case Submit(pid) => SubmitInv(c, s, pid, s');
      case Modify(pid, p, v) => ModifyInv(c, s, pid, p, v, s');
      case BodyDone(slot) => BodyInv(c, s, slot, s');
      case Lock => LockInv(c, s, s');
      case Unlock => LockInv(c, s, s');
      case WriteHead(mount, history) => HeadInv(c, s, mount, history, s');
      case SkipHead => SkipInv(c, s, s');
      case SyncPage(p) => SyncInv(c, s, p, s');
      case Clear => ClearInv(c, s, s');
      case Crash(garbage) => CrashInv(c, s, garbage, s');
      case Mount => MountInv(c, s, s');
      case BeginRestore => BeginInv(c, s, s');
      case RestorePage(k, i) => RestorePageInv(c, s, k, i, s');
      case EndRestore => EndInv(c, s, s');
    }
  }

  // Recovery as one computation: what a mount makes of the device it finds.

  /** Reads the saved chunk, then writes it back. */
  function RestoreOne(disk: map<nat, Page>, e: Entry): map<nat, Page> {
    disk + map p | e.onVolume <= p < e.onVolume + e.count && SavedAt(e, p) in disk :: disk[SavedAt(e, p)]
  }

  function Replay(disk: map<nat, Page>, list: seq<Entry>): map<nat, Page> {
    if list == [] then disk else RestoreOne(Replay(disk, list[..|list| - 1]), list[|list| - 1])
  }

  /** What the restore loop has done after some entries. */
  ghost predicate Replayed(c: Config, disk: map<nat, Page>, disk': map<nat, Page>, list: seq<Entry>,
                           committed: map<nat, Page>) {
    && (forall a :: InArea(c, a) && a in disk ==> a in disk' && disk'[a] == disk[a])
    && (forall p :: p in committed && p in disk ==>
                      p in disk' && disk'[p] == if Covered(list, p) then committed[p] else disk[p])
  }

  /** What a page is after one more chunk was copied back. */
  lemma RestoredAt(c: Config, d: map<nat, Page>, e: Entry, p: nat)
    requires Placed(c, e) && forall a :: InArea(c, a) ==> a in d
    ensures var d' := RestoreOne(d, e);
            && (Covers(e, p) ==> InArea(c, SavedAt(e, p)) && p in d' && d'[p] == d[SavedAt(e, p)])
            && (!Covers(e, p) && p in d ==> p in d' && d'[p] == d[p])
  {
    hide HeadPages;
    if Covers(e, p) {
      assert InArea(c, SavedAt(e, p));
    }
  }

  lemma ReplayOne(c: Config, disk: map<nat, Page>, d: map<nat, Page>, list: seq<Entry>, e: Entry,
                  committed: map<nat, Page>)
    requires Replayed(c, disk, d, list, committed) && Placed(c, e)
    requires forall a :: InArea(c, a) ==> a in disk
    requires forall p :: Covers(e, p) && p in committed ==> Holds(map[], disk, SavedAt(e, p), committed[p])
    ensures Replayed(c, disk, RestoreOne(d, e), list + [e], committed)
  {
    hide HeadPages, Covered, RestoreOne;
    var d' := RestoreOne(d, e);
    forall a | InArea(c, a) ensures a in d' && d'[a] == disk[a] {
      RestoredAt(c, d, e, a);
    }
    forall p | p in committed && p in disk
      ensures p in d' && d'[p] == if Covered(list + [e], p) then committed[p] else disk[p]
    {
      CoveredMore(list, e, p);
      RestoredAt(c, d, e, p);
    }
  }

  lemma CoveredMore(list: seq<Entry>, e: Entry, p: nat)
    ensures Covered(list + [e], p) <==> Covered(list, p) || Covers(e, p)
  {
    assert forall x :: x in list + [e] <==> x in list || x == e;
    assert e in list + [e];
  }

  lemma {:induction false} ReplayAll(c: Config, disk: map<nat, Page>, list: seq<Entry>, committed: map<nat, Page>)
    requires Recoverable(c, disk, list, committed) && forall a :: InArea(c, a) ==> a in disk
    ensures Replayed(c, disk, Replay(disk, list), list, committed)
    decreases |list|
  {
    if list == [] {
      assert forall p :: !Covered(list, p);
    } else {
      hide Replay, Recoverable, Replayed, RestoreOne;
      assert list[..|list| - 1 + 1] == list;
      ReplayPrefix(c, disk, list, |list| - 1, committed);
    }
  }

  lemma {:induction false} ReplayPrefix(c: Config, disk: map<nat, Page>, list: seq<Entry>, n: nat,
                                        committed: map<nat, Page>)
    requires Recoverable(c, disk, list, committed) && n < |list| && forall a :: InArea(c, a) ==> a in disk
    ensures Replayed(c, disk, Replay(disk, list[..n + 1]), list[..n + 1], committed)
    decreases n
  {
    hide RestoreOne;
    assert list[..n + 1][..n] == list[..n] && list[..n + 1] == list[..n] + [list[n]];
    if n > 0 {
      ReplayPrefix(c, disk, list, n - 1, committed);
    }
    ReplayOne(c, disk, Replay(disk, list[..n]), list[..n], list[n], committed);
  }

  datatype Outcome = Nothing | Recovered(disk: map<nat, Page>, head: seq<byte>) | Broken

  /** The restore path of mount: every listed chunk is copied back in turn, then the head is cleared. */
  method RestoreSnapshot(disk: map<nat, Page>, head: seq<byte>, crc: seq<byte> -> nat) returns (r: Outcome)
    requires |head| >= SECTOR
    ensures r.Nothing? <==> !Present(head)
    ensures r.Broken? <==> Present(head) && !Accepted(head, crc)
    ensures r.Recovered? ==> r.disk == Replay(disk, Listed(head)) && !Present(r.head)
  {
    if !Present(head) {
      return Nothing;
    }
    if !Accepted(head, crc) {
      return Broken;
    }
    hide Present, Accepted, Decode, ClearHead;
    var d := RestoreEntries(disk, Decode(head));
    ClearedHead(head);
    r := Recovered(d, ClearHead(head));
  }

  method RestoreEntries(disk: map<nat, Page>, list: seq<Entry>) returns (d: map<nat, Page>)
    ensures d == Replay(disk, list)
  {
    hide RestoreOne;
    d := disk;
    var count := 0;
    while count < |list|
      invariant count <= |list| && d == Replay(disk, list[..count])
    {
      assert list[..count + 1][..count] == list[..count];
      d := RestoreOne(d, list[count]);
      count := count + 1;
    }
    assert list[..count] == list;
  }

  /** From every state of every run, recovery yields the contents of the last sync. */
  lemma Recovers(c: Config, s: State)
    requires Inv(c, s)
    ensures var d := Replay(s.disk, Listed(s.head));
            forall p :: p in s.committed ==> p in d && d[p] == s.committed[p]
  {
    hide Listed, Replay, HeadPages;
    ReplayAll(c, s.disk, Listed(s.head), s.committed);
  }

  // Runs.

  ghost predicate Run(c: Config, ss: seq<State>, evs: seq<Event>) {
    && |ss| == |evs| + 1 && Init(c, ss[0])
    && forall i :: 0 <= i < |evs| ==> Step(c, ss[i], evs[i], ss[i + 1])
  }

  /** A run in which no commit lists more chunks than its head can hold, up to state `i`. */
  ghost predicate Short(ss: seq<State>, evs: seq<Event>, i: nat)
    requires i <= |evs| < |ss|
  {
    forall k :: 0 <= k < i ==> ShortCommit(ss[k], evs[k])
  }

  lemma {:induction false} RunInv(c: Config, ss: seq<State>, evs: seq<Event>, i: nat)
    requires Run(c, ss, evs) && i < |ss| && Short(ss, evs, i)
    ensures Inv(c, ss[i])
  {
    hide Step, Inv, Init;
    assert i > 0 ==> Short(ss, evs, i - 1);
    if i == 0 {
      InitInv(c, ss[0]);
    } else {
      RunInv(c, ss, evs, i - 1);
      assert ShortCommit(ss[i - 1], evs[i - 1]);
      StepInv(c, ss[i - 1], evs[i - 1], ss[i]);
    }
  }

  /** The last state at or before `i` that a completed clear produced, or the first state. */
  function LastClear(evs: seq<Event>, i: nat): (j: nat)
    requires i <= |evs|
    ensures j <= i
  {
    if i == 0 || evs[i - 1].Clear? then i else LastClear(evs, i - 1)
  }

  lemma Keeps(c: Config, s: State, ev: Event, s': State)
    requires Step(c, s, ev, s') && !ev.Clear?
    ensures s'.committed == s.committed
  {
  }

  lemma {:induction false} Since(c: Config, ss: seq<State>, evs: seq<Event>, i: nat)
    requires Run(c, ss, evs) && i < |ss|
    ensures ss[i].committed == ss[LastClear(evs, i)].committed
  {
    hide Step, Init;
    if i > 0 && !evs[i - 1].Clear? {
      Since(c, ss, evs, i - 1);
      Keeps(c, ss[i - 1], evs[i - 1], ss[i]);
    }
  }

  /** No task is inside a transaction. */
  ghost predicate Quiet(s: State) {
    forall pid :: Depth(s, pid) == 0
  }

  /** A clear publishes the page cache as a whole, at a moment when no task is inside a transaction. */
  lemma ClearPublishes(c: Config, s: State, s': State)
    requires Inv(c, s) && Cleared(c, s, s')
    ensures s'.committed == s'.cache == s.cache && Quiet(s)
  {
  }

  /** Crash atomicity: whatever happens after a clear, until the next one is complete a crash is
      recovered from with exactly the pages that the clear published. */
  lemma CrashAtomicity(c: Config, ss: seq<State>, evs: seq<Event>, i: nat)
    requires Run(c, ss, evs) && i < |ss| && Short(ss, evs, i)
    ensures var j := LastClear(evs, i); var d := Replay(ss[i].disk, Listed(ss[i].head));
            && (forall p :: p in ss[j].committed ==> p in d && d[p] == ss[j].committed[p])
            && (j > 0 ==> ss[j].committed == ss[j].cache == ss[j - 1].cache && Quiet(ss[j - 1]))
  {
    hide Step, Inv, Init, Replay, Listed;
    var j := LastClear(evs, i);
    RunInv(c, ss, evs, i);
    Recovers(c, ss[i]);
    Since(c, ss, evs, i);
    if j > 0 {
      assert Short(ss, evs, j - 1);
      RunInv(c, ss, evs, j - 1);
      LastIsClear(evs, i);
      ClearStep(c, ss[j - 1], evs[j - 1], ss[j]);
      ClearPublishes(c, ss[j - 1], ss[j]);
    }
  }

  lemma {:induction false} LastIsClear(evs: seq<Event>, i: nat)
    requires i <= |evs|
    ensures var j := LastClear(evs, i); j > 0 ==> evs[j - 1].Clear?
  {
    if i > 0 && !evs[i - 1].Clear? {
      LastIsClear(evs, i - 1);
    }
  }

  lemma ClearStep(c: Config, s: State, ev: Event, s': State)
    requires Step(c, s, ev, s') && ev.Clear?
    ensures Cleared(c, s, s')
  {
  }

  /** A mount, with or without recovery and however often that was interrupted, reads back what the
      last clear published. */
  lemma MountReadsBack(c: Config, ss: seq<State>, evs: seq<Event>, i: nat)
    requires Run(c, ss, evs) && i < |evs| && Short(ss, evs, i) && (evs[i].Mount? || evs[i].EndRestore?)
    ensures var j := LastClear(evs, i);
            && ss[i + 1].cache == ss[j].committed && ss[i + 1].dirty == {} && ss[i + 1].tree == []
            && (j > 0 ==> ss[i + 1].cache == ss[j - 1].cache && Quiet(ss[j - 1]))
  {
    hide Step, Inv, Init, Replay, Listed;
    RunInv(c, ss, evs, i);
    MountStep(c, ss[i], evs[i], ss[i + 1]);
    Since(c, ss, evs, i);
    CrashAtomicity(c, ss, evs, i);
  }

  lemma MountStep(c: Config, s: State, ev: Event, s': State)
    requires Inv(c, s) && Step(c, s, ev, s') && (ev.Mount? || ev.EndRestore?)
    ensures s'.cache == s.committed == s'.committed && s'.dirty == {} && s'.tree == []
  {
    hide Present, Decode, Accepted, HeadPages, ClearHead, Placed;
    assert forall p :: p in s.committed ==> p in s.disk && s.disk[p] == s.committed[p] by {
      if ev.EndRestore? {
        var list := Listed(s.head);
        forall p | p in s.committed ensures p in s.disk && s.disk[p] == s.committed[p] {
          if Covered(list, p) {
            var e :| e in list && Covers(e, p);
            var k :| 0 <= k < |list| && list[k] == e;
            assert (k, p - e.onVolume) in s.phase.done;
          }
        }
      }
    }
  }

  // Locking and layout.

  /** Commit, sync and clear. */
  predicate Syncing(ev: Event) {
    ev.Lock? || ev.Unlock? || ev.WriteHead? || ev.SkipHead? || ev.SyncPage? || ev.Clear?
  }

  lemma StartStopLock(s: State, pid: nat, s': State)
    requires Locking(s.locks, s.readers, s.phase) && (Starts(s, pid, s') || Stops(s, pid, s'))
    ensures Locking(s'.locks, s'.readers, s'.phase)
  {
    hide NothingUnsent;
  }

  /** No other step touches the lock, but a crash, which leaves no task. */
  lemma OtherLock(c: Config, s: State, ev: Event, s': State)
    requires Step(c, s, ev, s') && !ev.Start? && !ev.Stop? && !ev.Crash?
    ensures s'.locks == s.locks && s'.readers == s.readers
    ensures s.phase.Open? && !s'.phase.Open? ==> s.readers == {}
    ensures Syncing(ev) && s.phase.Open? ==> s.readers == {}
  {
    hide Present, Accepted, Listed, Insert, NewHead, ClearHead, HeadPages, Known, Covered, NothingUnsent,
         SnapshotJournal.Images, Reload;
  }

  lemma LockStep(c: Config, s: State, ev: Event, s': State)
    requires Locking(s.locks, s.readers, s.phase) && Step(c, s, ev, s')
    ensures Locking(s'.locks, s'.readers, s'.phase)
    ensures Syncing(ev) ==> s.readers == {}
  {
    if ev.Start? || ev.Stop? {
      StartStopLock(s, ev.pid, s');
    } else if !ev.Crash? {
      hide Step;
      OtherLock(c, s, ev, s');
    }
  }

  lemma {:induction false} RunLocking(c: Config, ss: seq<State>, evs: seq<Event>, i: nat)
    requires Run(c, ss, evs) && i < |ss|
    ensures Locking(ss[i].locks, ss[i].readers, ss[i].phase)
  {
    if i > 0 {
      hide Step, Locking, Init;
      RunLocking(c, ss, evs, i - 1);
      LockStep(c, ss[i - 1], evs[i - 1], ss[i]);
    }
  }

  /** While a task is inside a transaction, however deep, it holds the lock for reading, and no part of commit,
      sync and clear runs; in every run, whatever it commits. */
  lemma CommitExcludesTasks(c: Config, ss: seq<State>, evs: seq<Event>, pid: nat, i: nat, j: nat)
    requires Run(c, ss, evs) && i <= j < |ss| && forall k :: i <= k <= j ==> Depth(ss[k], pid) > 0
    ensures forall k :: i <= k <= j ==> pid in ss[k].readers && !Flags(ss[k])
    ensures forall k :: i <= k <= j && k < |evs| ==> !Syncing(evs[k])
  {
    hide Step, Init;
    forall k | i <= k <= j ensures pid in ss[k].readers && !Flags(ss[k]) && (k < |evs| ==> !Syncing(evs[k])) {
      RunLocking(c, ss, evs, k);
      assert Depth(ss[k], pid) > 0;
      if k < |evs| {
        LockStep(c, ss[k], evs[k], ss[k + 1]);
      }
    }
  }

  /** No run of short commits leads to a head that the restore path refuses. */
  lemma NeverRefused(c: Config, ss: seq<State>, evs: seq<Event>, i: nat)
    requires Run(c, ss, evs) && i < |ss| && Short(ss, evs, i) && Present(ss[i].head)
    ensures Accepted(ss[i].head, c.crc)
  {
    hide Step, Init, Present, Accepted;
    RunInv(c, ss, evs, i);
  }

  /** Head, body slots and the history page are apart, and no two saved chunks share a slot, in every state of a run. */
  lemma LayoutApart(c: Config, ss: seq<State>, evs: seq<Event>, i: nat, d: Entry, e: Entry)
    requires Run(c, ss, evs) && i < |ss| && Short(ss, evs, i) && d in ss[i].tree && e in ss[i].tree
    ensures c.start + PagesPerHead(c) <= e.onSnapshot && e.onSnapshot + e.count <= HistoryPage(c) < c.start + c.length
    ensures d != e ==> d.onSnapshot + d.count <= e.onSnapshot || e.onSnapshot + e.count <= d.onSnapshot
    ensures |ss[i].head| == PagesPerHead(c) * PAGE
    ensures d.onVolume == e.onVolume ==> d == e
  {
    hide Step, Init, HeadPages;
    RunInv(c, ss, evs, i);
    assert Placed(c, e);
  }
}
