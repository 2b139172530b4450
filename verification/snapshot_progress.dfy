/** The journal never gets stuck: from every state of a run a sync can be brought to its end. */
module SnapshotProgress {
  import opened Bytes
  import opened SnapshotHead
  import opened SnapshotJournal
  import opened SnapshotSafety
  import opened SnapshotRecovery

  ghost predicate Path(c: Config, s: State, ts: seq<State>, fs: seq<Event>, s': State) {
    && |ts| == |fs| + 1 && ts[0] == s && ts[|fs|] == s'
    && forall k :: 0 <= k < |fs| ==> Step(c, ts[k], fs[k], ts[k + 1])
  }

  /** Steps lead from `s` to `s'`. */
  ghost predicate Leads(c: Config, s: State, s': State) {
    exists ts, fs :: Path(c, s, ts, fs, s')
  }

  lemma LeadsSelf(c: Config, s: State)
    ensures Leads(c, s, s)
  {
    assert Path(c, s, [s], [], s);
  }

  lemma LeadsStep(c: Config, s: State, ev: Event, t: State, s': State)
    requires Step(c, s, ev, t) && Leads(c, t, s')
    ensures Leads(c, s, s')
  {
    hide Step;
    var ts, fs :| Path(c, t, ts, fs, s');
    assert Path(c, s, [s] + ts, [ev] + fs, s');
  }

  lemma LeadsTrans(c: Config, s: State, t: State, s': State)
    requires Leads(c, s, t) && Leads(c, t, s')
    ensures Leads(c, s, s')
  {
    hide Step;
    var ts, fs :| Path(c, s, ts, fs, t);
    var ts', fs' :| Path(c, t, ts', fs', s');
    var all, evs := ts + ts'[1..], fs + fs';
    forall k | 0 <= k < |evs| ensures Step(c, all[k], evs[k], all[k + 1]) {
      if k >= |fs| {
        assert all[k] == ts'[k - |fs|] && all[k + 1] == ts'[k + 1 - |fs|];
      }
    }
    assert Path(c, s, all, evs, s');
  }

  // The end of a sync: all dirty pages are written, then the head is cleared.

  ghost predicate Synced(s: State, t: State) {
    t.phase.Sync? && t.dirty == {} && t.cache == s.cache && |t.head| >= SECTOR
  }

  lemma {:induction false} WriteAll(c: Config, s: State) returns (t: State)
    requires s.phase.Sync? && s.dirty <= s.cache.Keys && |s.head| >= SECTOR
    ensures Leads(c, s, t) && Synced(s, t)
    decreases |s.dirty|
  {
    if s.dirty == {} {
      LeadsSelf(c, s);
      t := s;
    } else {
      var p :| p in s.dirty;
      var s1 := s.(disk := s.disk[p := s.cache[p]], dirty := s.dirty - {p});
      assert Step(c, s, SyncPage(p), s1);
      hide Step, Leads;
      t := WriteAll(c, s1);
      LeadsStep(c, s, SyncPage(p), s1, t);
    }
  }

  lemma EndSync(c: Config, s: State) returns (t: State, s': State)
    requires s.phase.Sync? && s.dirty <= s.cache.Keys && |s.head| >= SECTOR
    ensures Leads(c, s, t) && Step(c, t, Clear, s') && s'.committed == s.cache
  {
    hide Leads, ClearHead, HeadPages;
    t := WriteAll(c, s);
    s' := t.(head := ClearHead(t.head), pageIndex := PagesPerHead(c), phase := Open, committed := t.cache);
  }

  // Up to there.

  /** No task is inside a transaction, and the device has written what it was given. */
  ghost predicate Idle(s: State) {
    s.phase.Open? && s.readers == {} && s.flight == map[]
  }

  lemma Begins(c: Config, s: State) returns (t: State)
    requires Inv(c, s) && Idle(s)
    ensures Leads(c, s, t) && t.phase.Sync? && t.cache == s.cache && t.dirty == s.dirty <= t.cache.Keys
            && |t.head| >= SECTOR
  {
    hide Leads, Present, Decode, Accepted, HeadPages, Recoverable;
    var s1 := s.(phase := Commit);
    assert Step(c, s, Lock, s1);
    LockInv(c, s, s1);
    assert s.dirty <= s.cache.Keys && HistoryPage(c) >= 0 && s.count == |s.tree|;
    HeadRoom(c, s);
    LeadsSelf(c, s1);
    var ev;
    if s.count == 0 {
      ev, t := SkipHead, s1.(phase := Sync);
    } else {
      HeadFits(c, s1);
      ev := WriteHead(0, 0);
      t := s1.(head := NewHead(c, s1, 0), disk := s1.disk[HistoryPage(c) := 0], version := s1.version + 1, count := 0,
               tree := [], phase := Sync);
      HeadKept(c, s1);
      hide NewHead, Encode;
    }
    assert Step(c, s1, ev, t);
    hide Step;
    LeadsSelf(c, t);
    LeadsStep(c, s1, ev, t, t);
    LeadsStep(c, s, Lock, s1, t);
  }

  lemma HeadRoom(c: Config, s: State)
    requires Inv(c, s)
    ensures |s.head| >= SECTOR
  {
    hide Present, Decode, Accepted, Recoverable;
  }

  lemma HeadKept(c: Config, s: State)
    requires HEADER + RECORD * |s.tree| + 4 <= HeadPages(s.count) * PAGE <= |s.head|
    ensures |NewHead(c, s, 0)| == |s.head|
  {
    hide HeadPages;
  }

  lemma {:induction false} Flushes(c: Config, s: State) returns (t: State)
    requires Inv(c, s) && s.phase.Open? && s.readers == {}
    ensures Leads(c, s, t) && Inv(c, t) && Idle(t) && t.cache == s.cache
    decreases |s.flight|
  {
    hide Inv, Leads;
    if s.flight == map[] {
      LeadsSelf(c, s);
      t := s;
    } else {
      var slot :| slot in s.flight;
      NothingWaits(c, s);
      var s1 := s.(disk := s.disk[slot := s.flight[slot].page], flight := s.flight - {slot});
      assert Step(c, s, BodyDone(slot), s1);
      hide Step;
      StepInv(c, s, BodyDone(slot), s1);
      Fewer(s.flight, slot);
      t := Flushes(c, s1);
      LeadsStep(c, s, BodyDone(slot), s1, t);
    }
  }

  lemma NothingWaits(c: Config, s: State)
    requires Inv(c, s) && s.readers == {}
    ensures forall x :: x in s.flight ==> s.flight[x].sender.Sent?
  {
    hide Geometry, Locking, Tree, SnapshotSafety.Images, Recoverable, HeadOk, Cache, Restored;
  }

  lemma Fewer(m: map<nat, Write>, x: nat)
    requires x in m
    ensures |m - {x}| < |m|
  {
    var n := m - {x};
    assert n.Keys == m.Keys - {x};
    assert |n| == |n.Keys| && |m| == |m.Keys|;
  }

  /** One task leaves: it submits what it has to and goes out of all its transactions. */
  lemma {:induction false} Leaves(c: Config, s: State, pid: nat) returns (t: State)
    requires Inv(c, s) && s.phase.Open? && Depth(s, pid) > 0 && NothingUnsent(s, pid)
    ensures Leads(c, s, t) && Inv(c, t) && t.phase.Open? && t.cache == s.cache && t.readers == s.readers - {pid}
    decreases Depth(s, pid)
  {
    hide Inv, Leads;
    var s1 := s.(readers := if Depth(s, pid) == 1 then s.readers - {pid} else s.readers,
                 locks := s.locks[pid := Depth(s, pid) - 1]);
    assert Step(c, s, Stop(pid), s1);
    StepInv(c, s, Stop(pid), s1);
    LeadsSelf(c, s1);
    if Depth(s, pid) == 1 {
      t := s1;
    } else {
      assert NothingUnsent(s1, pid);
      hide Step, NothingUnsent;
      t := Leaves(c, s1, pid);
    }
    hide Step;
    LeadsStep(c, s, Stop(pid), s1, t);
  }

  lemma {:induction false} AllLeave(c: Config, s: State) returns (t: State)
    requires Inv(c, s) && s.phase.Open?
    ensures Leads(c, s, t) && Inv(c, t) && t.phase.Open? && t.cache == s.cache && t.readers == {}
    decreases |s.readers|
  {
    hide Inv, Leads;
    if s.readers == {} {
      LeadsSelf(c, s);
      t := s;
    } else {
      var pid :| pid in s.readers;
      Inside(c, s, pid);
      var s1 := s.(flight := map x | x in s.flight :: SentBy(s.flight[x], pid));
      assert Step(c, s, Submit(pid), s1);
      StepInv(c, s, Submit(pid), s1);
      assert NothingUnsent(s1, pid) && Depth(s1, pid) == Depth(s, pid);
      hide Step, NothingUnsent;
      var s2 := Leaves(c, s1, pid);
      LeadsStep(c, s, Submit(pid), s1, s2);
      t := AllLeave(c, s2);
      LeadsTrans(c, s, s2, t);
    }
  }

  lemma Inside(c: Config, s: State, pid: nat)
    requires Inv(c, s) && pid in s.readers
    ensures Depth(s, pid) > 0
  {
    hide Geometry, Tree, InFlight, SnapshotSafety.Images, Recoverable, HeadOk, Cache, Restored;
  }

  lemma CanSyncOpen(c: Config, s: State) returns (t: State, s': State)
    requires Inv(c, s) && s.phase.Open?
    ensures Leads(c, s, t) && Step(c, t, Clear, s') && s'.committed == s.cache
  {
    hide Inv, Leads, Step;
    var a := AllLeave(c, s);
    var b := Flushes(c, a);
    var d := Begins(c, b);
    t, s' := EndSync(c, d);
    LeadsTrans(c, s, a, b);
    LeadsTrans(c, s, b, d);
    LeadsTrans(c, s, d, t);
  }

  // After a crash.

  lemma CanMount(c: Config, s: State) returns (t: State)
    requires Inv(c, s) && (s.phase.Down? || s.phase.Restore?)
    ensures Leads(c, s, t) && Inv(c, t) && t.phase.Open?
  {
    hide Inv, Leads, Reload, Present, Accepted;
    LeadsSelf(c, s);
    if s.phase.Down? && !Present(s.head) {
      t := s.(cache := Reload(s), pageIndex := PagesPerHead(c), phase := Open);
      assert Step(c, s, Mount, t);
      hide Step;
      StepInv(c, s, Mount, t);
      LeadsSelf(c, t);
      LeadsStep(c, s, Mount, t, t);
    } else if s.phase.Down? {
      HeadAccepted(c, s);
      var s1 := s.(phase := Restore({}));
      assert Step(c, s, BeginRestore, s1);
      hide Step;
      StepInv(c, s, BeginRestore, s1);
      t := CanRestore(c, s1);
      LeadsStep(c, s, BeginRestore, s1, t);
    } else {
      hide Step;
      t := CanRestore(c, s);
    }
  }

  lemma HeadAccepted(c: Config, s: State)
    requires Inv(c, s) && Present(s.head)
    ensures Accepted(s.head, c.crc)
  {
    hide Present, Accepted, Geometry, Locking, Tree, InFlight, SnapshotSafety.Images, Recoverable, Cache, Restored;
  }

  /** The pages still to be copied back. */
  ghost function Left(list: seq<Entry>, done: set<(nat, nat)>): set<(nat, nat)> {
    All(list) - done
  }

  ghost function All(list: seq<Entry>): set<(nat, nat)> {
    set k: nat, i: nat | k < |list| && i < list[k].count :: (k, i)
  }

  lemma NothingLeft(list: seq<Entry>, done: set<(nat, nat)>)
    requires Left(list, done) == {}
    ensures forall k, i :: 0 <= k < |list| && 0 <= i < list[k].count ==> (k, i) in done
  {
    forall k, i | 0 <= k < |list| && 0 <= i < list[k].count ensures (k, i) in done {
      var x: (nat, nat) := (k, i);
      assert x in All(list);
      assert x in done || x in Left(list, done);
    }
  }

  lemma {:induction false} CanRestore(c: Config, s: State) returns (t: State)
    requires Inv(c, s) && s.phase.Restore?
    ensures Leads(c, s, t) && Inv(c, t) && t.phase.Open?
    decreases |Left(Listed(s.head), if s.phase.Restore? then s.phase.done else {})|
  {
    hide Inv, Leads, Reload, Listed, ClearHead;
    var list, left := Listed(s.head), Left(Listed(s.head), s.phase.done);
    HeadRoom(c, s);
    if left == {} {
      t := s.(head := ClearHead(s.head), cache := Reload(s), pageIndex := PagesPerHead(c), phase := Open);
      NothingLeft(list, s.phase.done);
      assert Step(c, s, EndRestore, t);
      hide Step;
      StepInv(c, s, EndRestore, t);
      LeadsSelf(c, t);
      LeadsStep(c, s, EndRestore, t, t);
    } else {
      var x :| x in left;
      var k: nat, i: nat :| k < |list| && i < list[k].count && x == (k, i);
      SlotThere(c, s, k, i);
      var e := list[k];
      var s1 := s.(disk := s.disk[e.onVolume + i := s.disk[e.onSnapshot + i]],
                   phase := Restore(s.phase.done + {(k, i)}));
      assert Step(c, s, RestorePage(k, i), s1);
      hide Step;
      StepInv(c, s, RestorePage(k, i), s1);
      assert Left(list, s1.phase.done) == left - {x};
      t := CanRestore(c, s1);
      LeadsStep(c, s, RestorePage(k, i), s1, t);
    }
  }

  lemma SlotThere(c: Config, s: State, k: nat, i: nat)
    requires Inv(c, s) && k < |Listed(s.head)| && i < Listed(s.head)[k].count
    ensures Listed(s.head)[k].onSnapshot + i in s.disk
  {
    hide Locking, Tree, InFlight, SnapshotSafety.Images, HeadOk, Cache, Restored, Listed, HeadPages;
    var e := Listed(s.head)[k];
    assert e in Listed(s.head) && Placed(c, e);
    assert InArea(c, e.onSnapshot + i);
  }

  /** From every state of every run whose commits so far were short, steps lead to a clear: no task, no write under way,
      no crash and no interrupted recovery can block the journal for good. While the system is up, what the clear
      publishes is the page cache as it is now. */
  lemma CanSync(c: Config, ss: seq<State>, evs: seq<Event>, i: nat) returns (t: State, s': State)
    requires Run(c, ss, evs) && i < |ss| && Short(ss, evs, i)
    ensures Leads(c, ss[i], t) && Step(c, t, Clear, s') && (Up(ss[i]) ==> s'.committed == ss[i].cache)
  {
    hide Inv, Leads, Init;
    RunInv(c, ss, evs, i);
    var s := ss[i];
    match s.phase
    case Open =>
      hide Step;
      t, s' := CanSyncOpen(c, s);
    case Commit =>
      var s1 := s.(phase := Open);
      assert Step(c, s, Unlock, s1);
      hide Step;
      StepInv(c, s, Unlock, s1);
      t, s' := CanSyncOpen(c, s1);
      LeadsStep(c, s, Unlock, s1, t);
    case Sync =>
      hide Step;
      HeadRoom(c, s);
      DirtyCached(c, s);
      t, s' := EndSync(c, s);
    case _ =>
      hide Step;
      var s1 := CanMount(c, s);
      t, s' := CanSyncOpen(c, s1);
      LeadsTrans(c, s, s1, t);
  }

  lemma DirtyCached(c: Config, s: State)
    requires Inv(c, s) && Up(s)
    ensures s.dirty <= s.cache.Keys
  {
    hide Geometry, Locking, Tree, InFlight, SnapshotSafety.Images, HeadOk, Recoverable, Restored, Listed;
  }
}
