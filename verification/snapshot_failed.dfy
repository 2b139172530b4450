/** A sync that fails half way: what a crash is recovered to afterwards, and what the next commit does to that. */
module SnapshotFailed {
  import opened Bytes
  import opened SnapshotHead
  import opened SnapshotJournal
  import opened SnapshotSafety
  import opened SnapshotRecovery

  /** The write lock is dropped with some dirty pages written and some not, of which any may be damaged. The head
      stays on the device, and the body slots stay taken. */
  ghost predicate SyncFailed(s: State, garbage: map<nat, Page>, s': State) {
    && s.phase.Sync? && garbage.Keys <= s.dirty
    && s' == s.(disk := s.disk + garbage, phase := Open)
  }

  /** What tasks and the device do until the next commit. */
  predicate Working(ev: Event) {
    ev.Start? || ev.Stop? || ev.Add? || ev.Submit? || ev.Modify? || ev.BodyDone? || ev.Lock? || ev.Unlock?
  }

  /** A run to a sync that fails, and what is done after it. */
  ghost predicate Failing(c: Config, ss: seq<State>, evs: seq<Event>, garbage: map<nat, Page>, ts: seq<State>,
                          fs: seq<Event>) {
    && Run(c, ss, evs) && Short(ss, evs, |evs|)
    && |ts| == |fs| + 1 && SyncFailed(ss[|evs|], garbage, ts[0])
    && forall k :: 0 <= k < |fs| ==> Working(fs[k]) && Step(c, ts[k], fs[k], ts[k + 1])
  }

  /** A crash in this state is recovered to the last sync. */
  ghost predicate Safe(s: State) {
    var d := Replay(s.disk, Listed(s.head));
    forall p :: p in s.committed ==> p in d && d[p] == s.committed[p]
  }

  /** The pages in use at the last sync still have the contents of then on the device. */
  ghost predicate Unwritten(s: State) {
    forall p :: p in s.committed ==> p in s.disk && s.disk[p] == s.committed[p]
  }

  // To the tasks, the state after the failure is as good as one without a head, in which the pages that are clean
  // have been synced as they are and the dirty ones were not in use.

  function Clean(f: State): map<nat, Page> {
    map p | p in f.committed && p in f.disk && p !in f.dirty :: f.disk[p]
  }

  function Veil(t: State, h: seq<byte>, k: map<nat, Page>): State {
    t.(head := h, committed := k)
  }

  lemma FailedInv(c: Config, s: State, garbage: map<nat, Page>, f: State)
    requires Inv(c, s) && SyncFailed(s, garbage, f)
    ensures |f.head| >= SECTOR && Inv(c, Veil(f, ClearHead(f.head), Clean(f)))
  {
    hide Present, Decode, Accepted, HeadPages, ClearHead, Recoverable;
    HeadLength(c, s);
    ClearedHead(f.head);
    assert s.tree == [] && forall x :: x !in s.flight;
    CleanRecoverable(c, f);
  }

  lemma HeadLength(c: Config, s: State)
    requires Inv(c, s)
    ensures |s.head| >= SECTOR
  {
    hide Present, Decode, Accepted, Recoverable;
  }

  lemma CleanRecoverable(c: Config, f: State)
    ensures Recoverable(c, f.disk, [], Clean(f))
  {
  }

  lemma VeiledTask(c: Config, t: State, ev: Event, t': State, h: seq<byte>, k: map<nat, Page>)
    requires Step(c, t, ev, t') && (ev.Start? || ev.Stop? || ev.Submit? || ev.BodyDone? || ev.Lock? || ev.Unlock?)
    ensures Step(c, Veil(t, h, k), ev, Veil(t', h, k)) && t'.head == t.head && t'.committed == t.committed
  {
    hide HeadPages, Pow256;
    assert forall pid :: Depth(Veil(t, h, k), pid) == Depth(t, pid);
    assert forall pid :: NothingUnsent(Veil(t, h, k), pid) == NothingUnsent(t, pid);
    hide NothingUnsent, Depth;
  }

  lemma VeiledAdd(c: Config, t: State, pid: nat, a: nat, n: nat, t': State, h: seq<byte>, k: map<nat, Page>)
    requires Adds(c, t, pid, a, n, t')
    ensures Adds(c, Veil(t, h, k), pid, a, n, Veil(t', h, k)) && t'.head == t.head && t'.committed == t.committed
  {
    hide HeadPages, Pow256, Insert, Known, SnapshotJournal.Images, NothingUnsent, Depth;
    var v, slot := Veil(t, h, k), c.start + t.pageIndex;
    SameImages(t, v, pid, a, n, slot);
    SameTasks(t, v, pid);
  }

  lemma SameImages(t: State, v: State, pid: nat, a: nat, n: nat, slot: nat)
    requires t.cache == v.cache && forall p :: a <= p < a + n ==> p in t.cache
    ensures SnapshotJournal.Images(v, pid, a, n, slot) == SnapshotJournal.Images(t, pid, a, n, slot)
  {
  }

  lemma SameTasks(t: State, v: State, pid: nat)
    requires t.flight == v.flight && t.locks == v.locks
    ensures NothingUnsent(v, pid) == NothingUnsent(t, pid) && Depth(v, pid) == Depth(t, pid)
  {
  }

  lemma VeiledModify(c: Config, t: State, pid: nat, p: nat, x: Page, t': State, h: seq<byte>, k: map<nat, Page>)
    requires Modifies(c, t, pid, p, x, t') && k.Keys <= t.committed.Keys
    ensures Modifies(c, Veil(t, h, k), pid, p, x, Veil(t', h, k)) && t'.head == t.head && t'.committed == t.committed
  {
    hide HeadPages, Covered;
  }

  lemma Veiled(c: Config, t: State, ev: Event, t': State, h: seq<byte>, k: map<nat, Page>)
    requires Working(ev) && Step(c, t, ev, t') && k.Keys <= t.committed.Keys
    ensures Step(c, Veil(t, h, k), ev, Veil(t', h, k)) && t'.head == t.head && t'.committed == t.committed
  {
    hide Adds, Modifies, Veil;
    match ev
    case Add(pid, a, n) => VeiledAdd(c, t, pid, a, n, t', h, k);
    case Modify(pid, p, x) => VeiledModify(c, t, pid, p, x, t', h, k);
    case _ =>
      hide Step;
      VeiledTask(c, t, ev, t', h, k);
  }

  // What holds until the next head is written.

  /** The slots from `index` on are free; the pages outside of them are as they were in `f`. */
  ghost predicate Window(c: Config, f: State, t: State) {
    && f.pageIndex <= t.pageIndex && (forall e :: e in t.tree ==> c.start + f.pageIndex <= e.onSnapshot)
    && forall x :: x in f.disk && !(InArea(c, x) && c.start + f.pageIndex <= x) ==>
                     x in t.disk && t.disk[x] == f.disk[x]
  }

  /** The pages that were left dirty cannot be saved, and stay as they are. */
  ghost predicate Left(f: State, t: State) {
    forall p :: p in f.committed && p in f.dirty ==> p in t.dirty && !Covered(t.tree, p)
  }

  ghost predicate After(c: Config, f: State, t: State) {
    && t.head == f.head && t.committed == f.committed && |f.head| >= SECTOR
    && Inv(c, Veil(t, ClearHead(f.head), Clean(f))) && Window(c, f, t) && Left(f, t)
  }

  lemma {:induction false} InsertMembers(tree: seq<Entry>, e: Entry, x: Entry)
    ensures x in Insert(tree, e) <==> x in tree || x == e
  {
    if tree != [] && e.onVolume >= tree[0].onVolume {
      InsertMembers(tree[1..], e, x);
    }
  }

  lemma WindowAdd(c: Config, f: State, t: State, pid: nat, a: nat, n: nat, t': State)
    requires Window(c, f, t) && Adds(c, t, pid, a, n, t')
    ensures Window(c, f, t')
  {
    hide HeadPages, Pow256, Known;
    if t' != t {
      forall e | e in t'.tree ensures c.start + f.pageIndex <= e.onSnapshot {
        InsertMembers(t.tree, Entry(a, c.start + t.pageIndex, n), e);
      }
    }
  }

  lemma WindowBody(c: Config, f: State, t: State, slot: nat, t': State)
    requires Window(c, f, t) && BodyWritten(t, slot, t') && SavesTo(t.tree, slot) && forall e :: e in t.tree ==>
               Placed(c, e)
    ensures Window(c, f, t')
  {
    hide HeadPages;
    var e :| e in t.tree && e.onSnapshot <= slot < e.onSnapshot + e.count;
    assert Placed(c, e);
  }

  lemma WindowStep(c: Config, f: State, t: State, ev: Event, t': State, h: seq<byte>, k: map<nat, Page>)
    requires Window(c, f, t) && Working(ev) && Step(c, t, ev, t') && Inv(c, Veil(t, h, k))
    ensures Window(c, f, t')
  {
    hide HeadPages, Pow256, Present, Decode, Accepted, Recoverable, Known, Placed;
    if ev.Add? {
      WindowAdd(c, f, t, ev.pid, ev.a, ev.n, t');
    } else if ev.BodyDone? {
      assert SavesTo(t.tree, ev.slot);
      WindowBody(c, f, t, ev.slot, t');
    }
  }

  lemma LeftStep(c: Config, f: State, t: State, ev: Event, t': State)
    requires Left(f, t) && Working(ev) && Step(c, t, ev, t') && t.committed == f.committed
    ensures Left(f, t')
  {
    hide HeadPages, Pow256, Known;
    if ev.Add? && t' != t {
      var e := Entry(ev.a, c.start + t.pageIndex, ev.n);
      forall p | p in f.committed && p in f.dirty ensures !Covered(t'.tree, p) {
        forall x | x in t'.tree ensures !Covers(x, p) {
          InsertMembers(t.tree, e, x);
        }
      }
    }
  }

  lemma AfterStep(c: Config, f: State, t: State, ev: Event, t': State)
    requires After(c, f, t) && Working(ev) && Step(c, t, ev, t')
    ensures After(c, f, t')
  {
    hide Step, Inv, ClearHead, Window, Left;
    var h, k := ClearHead(f.head), Clean(f);
    Veiled(c, t, ev, t', h, k);
    StepInv(c, Veil(t, h, k), ev, Veil(t', h, k));
    WindowStep(c, f, t, ev, t', h, k);
    LeftStep(c, f, t, ev, t');
  }

  /** The head of a running sync lists slots that are taken. */
  ghost predicate Taken(c: Config, s: State) {
    s.phase.Sync? ==> forall e :: e in Listed(s.head) ==> e.onSnapshot + e.count <= c.start + s.pageIndex
  }

  lemma TakenCommit(c: Config, s: State, ev: Event, s': State)
    requires Inv(c, s) && ShortCommit(s, ev) && Step(c, s, ev, s') && (ev.WriteHead? || ev.SkipHead?)
    ensures Taken(c, s')
  {
    hide HeadPages, Present, Decode, Accepted, NewHead, Recoverable, Placed;
    if ev.WriteHead? {
      HeadFits(c, s);
      NewHeadReads(c, s, ev.mount);
    }
  }

  lemma TakenStep(c: Config, s: State, ev: Event, s': State)
    requires Inv(c, s) && Taken(c, s) && ShortCommit(s, ev) && Step(c, s, ev, s')
    ensures Taken(c, s')
  {
    if ev.WriteHead? || ev.SkipHead? {
      hide Step, Inv, Taken;
      TakenCommit(c, s, ev, s');
    } else {
      hide HeadPages, Listed, ClearHead, Inv, Known, Insert, Covered, Present, Accepted;
    }
  }

  lemma {:induction false} RunTaken(c: Config, ss: seq<State>, evs: seq<Event>, i: nat)
    requires Run(c, ss, evs) && i < |ss| && Short(ss, evs, i)
    ensures Inv(c, ss[i]) && Taken(c, ss[i])
  {
    hide Step, Inv, Init, Taken;
    RunInv(c, ss, evs, i);
    if i > 0 {
      assert Short(ss, evs, i - 1);
      RunTaken(c, ss, evs, i - 1);
      assert ShortCommit(ss[i - 1], evs[i - 1]);
      TakenStep(c, ss[i - 1], evs[i - 1], ss[i]);
    } else {
      StartsDown(c, ss[0]);
    }
  }

  lemma StartsDown(c: Config, s: State)
    requires Init(c, s)
    ensures Taken(c, s)
  {
  }

  // The results.

  lemma FailedAfter(c: Config, s: State, garbage: map<nat, Page>, f: State)
    requires Inv(c, s) && Taken(c, s) && SyncFailed(s, garbage, f)
    ensures After(c, f, f) && (forall a :: InArea(c, a) ==> a in f.disk)
    ensures Recoverable(c, f.disk, Listed(f.head), f.committed)
    ensures forall e :: e in Listed(f.head) ==> e.onSnapshot + e.count <= c.start + f.pageIndex
  {
    hide HeadPages, Listed, ClearHead, Accepted, Present;
    FailedInv(c, s, garbage, f);
    hide Recoverable;
    assert Geometry(c, s.disk, s.head, s.committed) && Recoverable(c, s.disk, Listed(s.head), s.committed);
    CrashFrame(c, s.disk, garbage, s.head, Listed(s.head), s.committed);
  }

  lemma {:induction false} AfterAll(c: Config, ss: seq<State>, evs: seq<Event>, garbage: map<nat, Page>,
                                    ts: seq<State>, fs: seq<Event>, i: nat)
    requires Failing(c, ss, evs, garbage, ts, fs) && i <= |fs|
    ensures After(c, ts[0], ts[i])
  {
    hide Step, Inv, After, SyncFailed, Init, Taken;
    if i == 0 {
      RunTaken(c, ss, evs, |evs|);
      FailedAfter(c, ss[|evs|], garbage, ts[0]);
    } else {
      AfterAll(c, ss, evs, garbage, ts, fs, i - 1);
      AfterStep(c, ts[0], ts[i - 1], fs[i - 1], ts[i]);
    }
  }

  lemma StillRecoverable(c: Config, f: State, t: State)
    requires Window(c, f, t) && t.committed == f.committed && t.head == f.head
    requires Recoverable(c, f.disk, Listed(f.head), f.committed) && forall p :: p in f.committed ==> !InArea(c, p)
    requires forall e :: e in Listed(f.head) ==> e.onSnapshot + e.count <= c.start + f.pageIndex
    ensures Recoverable(c, t.disk, Listed(t.head), t.committed)
  {
    hide HeadPages, Listed;
    forall e, p | e in Listed(f.head) && Covers(e, p) && p in f.committed
      ensures Holds(map[], t.disk, SavedAt(e, p), f.committed[p])
    {
      assert Placed(c, e) && Holds(map[], f.disk, SavedAt(e, p), f.committed[p]);
    }
  }

  /** Until the next head is written, a crash is recovered to the last sync, whatever the failed sync has written. */
  lemma SafeUntilCommit(c: Config, ss: seq<State>, evs: seq<Event>, garbage: map<nat, Page>, ts: seq<State>,
                        fs: seq<Event>, i: nat)
    requires Failing(c, ss, evs, garbage, ts, fs) && i <= |fs|
    ensures Safe(ts[i]) && ts[i].committed == ss[|evs|].committed
  {
    hide Step, Inv, Recoverable, Window, Left, Listed, Replay, ClearHead;
    AfterAll(c, ss, evs, garbage, ts, fs, i);
    RunTaken(c, ss, evs, |evs|);
    var f, t := ts[0], ts[i];
    FailedAfter(c, ss[|evs|], garbage, f);
    Places(c, ss[|evs|]);
    StillRecoverable(c, f, t);
    OnDisk(c, f, t);
    Places(c, Veil(t, ClearHead(f.head), Clean(f)));
    YieldsAll(c, t.disk, Listed(t.head), t.committed);
  }

  lemma Places(c: Config, s: State)
    requires Inv(c, s)
    ensures (forall a :: InArea(c, a) ==> a in s.disk) && forall p :: p in s.committed ==> !InArea(c, p) && p in s.disk
  {
    hide HeadPages, Present, Accepted, Recoverable;
  }

  lemma YieldsAll(c: Config, disk: map<nat, Page>, list: seq<Entry>, k: map<nat, Page>)
    requires Recoverable(c, disk, list, k) && (forall a :: InArea(c, a) ==> a in disk) && forall p :: p in k ==>
               p in disk
    ensures var d := Replay(disk, list); forall p :: p in k ==> p in d && d[p] == k[p]
  {
    hide Replay, HeadPages;
    ReplayAll(c, disk, list, k);
  }

  lemma OnDisk(c: Config, f: State, t: State)
    requires Window(c, f, t) && forall p :: p in f.committed ==> !InArea(c, p) && p in f.disk
    ensures forall p :: p in f.committed ==> p in t.disk && t.disk[p] == f.disk[p]
  {
  }

  /** The pages in use at the last sync, as they are on the device. */
  function OnDevice(f: State): map<nat, Page> {
    map p | p in f.committed && p in f.disk :: f.disk[p]
  }

  lemma CommitVeiled(c: Config, t: State, mount: nat, history: Page, t': State, h: seq<byte>, k: map<nat, Page>)
    requires Step(c, t, WriteHead(mount, history), t') && |t.head| >= SECTOR && h == ClearHead(t.head)
    ensures Step(c, Veil(t, h, k), WriteHead(mount, history), Veil(t', t'.head, k)) && t'.committed == t.committed
  {
    hide HeadPages, Encode;
    var n := HeadPages(t.count) * PAGE;
    assert n >= SECTOR by { HeadPagesSome(t.count); }
    assert h[n..] == t.head[n..];
  }

  lemma HeadPagesSome(n: nat)
    ensures HeadPages(n) >= 1
  {
  }

  /** Right after the commit: the new head lists the chunks saved since the failure, and recovery leaves the pages in
      use at the last sync as the failed sync has left them. */
  lemma CommitYields(c: Config, f: State, t: State, mount: nat, history: Page, t': State)
    requires After(c, f, t) && Step(c, t, WriteHead(mount, history), t') && t.count <= MAX_ENTRIES
    requires (forall a :: InArea(c, a) ==> a in f.disk) && forall p :: p in f.committed ==> !InArea(c, p) && p in f.disk
    ensures var d := Replay(t'.disk, Listed(t'.head)); forall p :: p in f.committed ==> p in d && d[p] == f.disk[p]
  {
    hide Step, Inv, ClearHead, Window, Left, Recoverable, Listed, Replay, HeadPages;
    var h, k, ev := ClearHead(f.head), Clean(f), WriteHead(mount, history);
    CommitVeiled(c, t, mount, history, t', h, k);
    var v := Veil(t', t'.head, k);
    StepInv(c, Veil(t, h, k), ev, v);
    Places(c, v);
    OnDisk(c, f, t);
    CommitParts(c, Veil(t, h, k), mount, history, v);
    WidenedRecoverable(c, f, t, v);
    YieldsAll(c, t'.disk, Listed(t'.head), OnDevice(f));
  }

  lemma CommitParts(c: Config, s: State, mount: nat, history: Page, s': State)
    requires Inv(c, s) && Step(c, s, WriteHead(mount, history), s') && s.count <= MAX_ENTRIES && Inv(c, s')
    ensures Listed(s'.head) == s.tree && Recoverable(c, s'.disk, Listed(s'.head), s'.committed)
    ensures forall p :: p in s.disk && !InArea(c, p) ==> p in s'.disk && s'.disk[p] == s.disk[p]
  {
    hide HeadPages, Present, Decode, Accepted, NewHead, Recoverable, Placed, Listed;
    HeadFits(c, s);
    NewHeadReads(c, s, mount);
  }

  lemma WidenedRecoverable(c: Config, f: State, t: State, v: State)
    requires Left(f, t) && Listed(v.head) == t.tree && v.committed == Clean(f)
             && Recoverable(c, v.disk, Listed(v.head), Clean(f))
    requires forall p :: p in f.committed ==> p in f.disk && p in v.disk
                                              && (Covered(t.tree, p) || v.disk[p] == f.disk[p])
    ensures Recoverable(c, v.disk, Listed(v.head), OnDevice(f))
  {
    hide Listed, Placed, HeadPages;
  }

  /** The commit after a failed sync keeps the last sync recoverable if and only if the failed sync has not written
      anything over it. */
  lemma NextCommit(c: Config, ss: seq<State>, evs: seq<Event>, garbage: map<nat, Page>, ts: seq<State>, fs: seq<Event>,
                   mount: nat, history: Page, t': State)
    requires Failing(c, ss, evs, garbage, ts, fs) && ts[|fs|].count <= MAX_ENTRIES
    requires Step(c, ts[|fs|], WriteHead(mount, history), t')
    ensures t'.committed == ts[0].committed && (Safe(t') <==> Unwritten(ts[0]))
  {
    hide Step, Inv, Recoverable, Window, Left, Listed, Replay, ClearHead;
    AfterAll(c, ss, evs, garbage, ts, fs, |fs|);
    RunTaken(c, ss, evs, |evs|);
    var f, t := ts[0], ts[|fs|];
    FailedAfter(c, ss[|evs|], garbage, f);
    Places(c, ss[|evs|]);
    CommitVeiled(c, t, mount, history, t', ClearHead(t.head), Clean(f));
    CommitYields(c, f, t, mount, history, t');
  }

  // However many syncs fail, one that is completed makes up for them.

  datatype Act = Do(ev: Event) | Fail(garbage: map<nat, Page>)

  /** Anything that happens between two clears, but a crash. */
  ghost predicate Acts(c: Config, t: State, a: Act, t': State) {
    match a
    case Do(ev) => Step(c, t, ev, t') && ShortCommit(t, ev)
        && (Working(ev) || ev.WriteHead? || ev.SkipHead? || ev.SyncPage?)
    case Fail(garbage) => SyncFailed(t, garbage, t')
  }

  /** But for the head on the device and the memory of the last sync, the state meets the invariant. */
  ghost predicate Veils(c: Config, t: State, h: seq<byte>, k: map<nat, Page>) {
    && |t.head| >= SECTOR && (h == t.head || h == ClearHead(t.head)) && k.Keys <= t.committed.Keys
    && Inv(c, Veil(t, h, k))
  }

  lemma ClearTwice(head: seq<byte>)
    requires |head| >= SECTOR
    ensures |ClearHead(head)| == |head| && ClearHead(ClearHead(head)) == ClearHead(head)
  {
  }

  lemma SyncVeiled(c: Config, t: State, ev: Event, t': State, h: seq<byte>, k: map<nat, Page>)
    requires Step(c, t, ev, t') && (ev.SkipHead? || ev.SyncPage?)
    ensures Step(c, Veil(t, h, k), ev, Veil(t', h, k)) && t'.head == t.head && t'.committed == t.committed
  {
  }

  lemma CommitPlain(c: Config, t: State, mount: nat, history: Page, t': State, k: map<nat, Page>)
    requires Step(c, t, WriteHead(mount, history), t')
    ensures Step(c, Veil(t, t.head, k), WriteHead(mount, history), Veil(t', t'.head, k)) && t'.committed == t.committed
  {
    hide HeadPages, Encode;
  }

  lemma FailVeiled(c: Config, t: State, garbage: map<nat, Page>, t': State, h: seq<byte>, k: map<nat, Page>)
    requires Veils(c, t, h, k) && SyncFailed(t, garbage, t')
    ensures Veils(c, t', ClearHead(t'.head), Clean(Veil(t', h, k)))
  {
    hide Inv, ClearHead;
    ClearTwice(t.head);
    FailedInv(c, Veil(t, h, k), garbage, Veil(t', h, k));
  }

  lemma VeiledAct(c: Config, t: State, a: Act, t': State, h: seq<byte>, k: map<nat, Page>)
      returns (h': seq<byte>, k': map<nat, Page>)
    requires Veils(c, t, h, k) && Acts(c, t, a, t')
    ensures Veils(c, t', h', k')
  {
    hide Inv, Step, ClearHead, SyncFailed;
    if a.Fail? {
      FailVeiled(c, t, a.garbage, t', h, k);
      h', k' := ClearHead(t'.head), Clean(Veil(t', h, k));
    } else {
      h', k' := if a.ev.WriteHead? then t'.head else h, k;
      if Working(a.ev) {
        Veiled(c, t, a.ev, t', h, k);
      } else if !a.ev.WriteHead? {
        SyncVeiled(c, t, a.ev, t', h, k);
      } else if h == t.head {
        CommitPlain(c, t, a.ev.mount, a.ev.history, t', k);
      } else {
        CommitVeiled(c, t, a.ev.mount, a.ev.history, t', h, k);
      }
      StepInv(c, Veil(t, h, k), a.ev, Veil(t', h', k'));
      HeadLength(c, Veil(t', h', k'));
      ClearTwice(t.head);
    }
  }

  lemma {:induction false} VeiledActs(c: Config, ts: seq<State>, acts: seq<Act>, i: nat)
      returns (h: seq<byte>, k: map<nat, Page>)
    requires |ts| == |acts| + 1 && i <= |acts| && Inv(c, ts[0])
    requires forall j :: 0 <= j < |acts| ==> Acts(c, ts[j], acts[j], ts[j + 1])
    ensures Veils(c, ts[i], h, k)
    decreases i
  {
    hide Inv, Acts;
    if i == 0 {
      HeadLength(c, ts[0]);
      h, k := ts[0].head, ts[0].committed;
      assert Veil(ts[0], h, k) == ts[0];
    } else {
      h, k := VeiledActs(c, ts, acts, i - 1);
      h, k := VeiledAct(c, ts[i - 1], acts[i - 1], ts[i], h, k);
    }
  }

  lemma ClearHeals(c: Config, t: State, h: seq<byte>, k: map<nat, Page>, t': State)
    requires Veils(c, t, h, k) && Cleared(c, t, t')
    ensures Inv(c, t')
  {
    ClearTwice(t.head);
    hide Inv, ClearHead, HeadPages;
    ClearInv(c, Veil(t, h, k), t');
  }

  /** A clear that is reached after any number of failed syncs, whatever was saved, changed and committed in between,
      leaves a state like that after any other clear. */
  lemma ClearMakesUp(c: Config, ss: seq<State>, evs: seq<Event>, ts: seq<State>, acts: seq<Act>, t': State)
    requires Run(c, ss, evs) && Short(ss, evs, |evs|) && |ts| == |acts| + 1 && ts[0] == ss[|evs|]
    requires forall j :: 0 <= j < |acts| ==> Acts(c, ts[j], acts[j], ts[j + 1])
    requires Step(c, ts[|acts|], Clear, t')
    ensures Inv(c, t') && Safe(t') && t'.committed == ts[|acts|].cache
  {
    hide Inv, Acts, Listed, Replay, Init, ClearHead;
    RunInv(c, ss, evs, |evs|);
    var h, k := VeiledActs(c, ts, acts, |acts|);
    ClearHeals(c, ts[|acts|], h, k, t');
    Recovers(c, t');
  }
}
