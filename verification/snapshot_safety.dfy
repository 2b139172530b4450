/** Crash atomicity of the snapshot journal: the invariant of all its runs, and what follows from it. */
module SnapshotSafety {
  import opened Bytes
  import opened SnapshotHead
  import opened SnapshotJournal

  // The invariant, one part at a time; each part takes just the fields it is about.

  ghost predicate Geometry(c: Config, disk: map<nat, Page>, head: seq<byte>, committed: map<nat, Page>) {
    && Wf(c) && |head| == PagesPerHead(c) * PAGE
    && (forall a :: InArea(c, a) ==> a in disk)
    && (forall p :: p in committed ==> p in disk && !InArea(c, p))
  }

  /** A task holds the lock for reading exactly while it is inside a transaction. */
  ghost predicate Locking(locks: map<nat, nat>, readers: set<nat>, phase: Phase) {
    && (forall pid :: pid in readers <==> pid in locks && locks[pid] > 0)
    && (!phase.Open? ==> readers == {})
  }

  /** The saved chunk lies in body slots, the original outside the snapshot area. */
  ghost predicate Placed(c: Config, e: Entry) {
    && e.count > 0 && Fits(e)
    && c.start + PagesPerHead(c) <= e.onSnapshot && e.onSnapshot + e.count <= c.start + MaxPages(c)
    && (forall p :: Covers(e, p) ==> !InArea(c, p))
  }

  ghost predicate Disjoint(list: seq<Entry>) {
    forall d, e :: d in list && e in list && d != e ==>
      d.onSnapshot + d.count <= e.onSnapshot || e.onSnapshot + e.count <= d.onSnapshot
  }

  ghost predicate Ascending(list: seq<Entry>) {
    forall j, k :: 0 <= j < k < |list| ==> list[j].onVolume < list[k].onVolume
  }

  predicate Collecting(phase: Phase) {
    phase.Open? || phase.Commit?
  }

  ghost predicate Tree(c: Config, tree: seq<Entry>, count: nat, pageIndex: nat, phase: Phase) {
    && count == |tree| && Ascending(tree) && Disjoint(tree)
    && (forall e :: e in tree ==> Placed(c, e) && e.onSnapshot + e.count <= c.start + pageIndex)
    && (Collecting(phase) || phase.Sync? ==> PagesPerHead(c) + |tree| <= pageIndex <= MaxPages(c))
    && (!Collecting(phase) ==> tree == [])
  }

  ghost predicate SavesTo(list: seq<Entry>, x: nat) {
    exists e :: e in list && e.onSnapshot <= x < e.onSnapshot + e.count
  }

  /** Writes under way go to saved chunks, and are waited for by the tasks that have to submit them. */
  ghost predicate InFlight(tree: seq<Entry>, flight: map<nat, Write>, readers: set<nat>) {
    && (forall x :: x in flight ==> SavesTo(tree, x))
    && (forall x :: x in flight && flight[x].sender.Unsent? ==> flight[x].sender.pid in readers)
  }

  /** What a slot holds, or will hold when the writes under way are done. */
  ghost predicate Holds(flight: map<nat, Write>, disk: map<nat, Page>, x: nat, v: Page) {
    if x in flight then flight[x].page == v else x in disk && disk[x] == v
  }

  function SavedAt(e: Entry, p: nat): nat
    requires Covers(e, p)
  {
    e.onSnapshot + (p - e.onVolume)
  }

  /** Every saved chunk holds the contents of the last sync. */
  ghost predicate Images(tree: seq<Entry>, flight: map<nat, Write>, disk: map<nat, Page>, committed: map<nat, Page>) {
    forall e, p :: e in tree && Covers(e, p) && p in committed ==> Holds(flight, disk, SavedAt(e, p), committed[p])
  }

  /** The volume and the listed chunks together hold the contents of the last sync. */
  ghost predicate Recoverable(c: Config, disk: map<nat, Page>, list: seq<Entry>, committed: map<nat, Page>) {
    && (forall e :: e in list ==> Placed(c, e))
    && (forall e, p :: e in list && Covers(e, p) && p in committed ==> Holds(map[], disk, SavedAt(e, p), committed[p]))
    && (forall p :: p in committed && !Covered(list, p) ==> p in disk && disk[p] == committed[p])
  }

  ghost predicate HeadOk(c: Config, head: seq<byte>, phase: Phase) {
    && (Present(head) ==> Accepted(head, c.crc))
    && (Collecting(phase) ==> !Present(head))
    && (phase.Restore? ==> Present(head))
  }

  /** Clean pages are on the device; a dirty page in use at the last sync is saved. */
  ghost predicate Cache(c: Config, disk: map<nat, Page>, cache: map<nat, Page>, dirty: set<nat>, saved: seq<Entry>,
                        committed: map<nat, Page>) {
    && committed.Keys <= cache.Keys && dirty <= cache.Keys
    && (forall p :: p in cache ==> !InArea(c, p))
    && (forall p :: p in cache && p !in dirty ==> p in disk && disk[p] == cache[p])
    && (forall p :: p in dirty && p in committed ==> Covered(saved, p))
  }

  /** What recovery has copied back. */
  ghost predicate Restored(disk: map<nat, Page>, list: seq<Entry>, committed: map<nat, Page>, done: set<(nat, nat)>) {
    forall k: nat, p: nat :: k < |list| && Covers(list[k], p) && p in committed && (k, p - list[k].onVolume) in done ==>
      p in disk && disk[p] == committed[p]
  }

  ghost predicate Inv(c: Config, s: State) {
    && Geometry(c, s.disk, s.head, s.committed)
    && Locking(s.locks, s.readers, s.phase)
    && Tree(c, s.tree, s.count, s.pageIndex, s.phase)
    && InFlight(s.tree, s.flight, s.readers)
    && Images(s.tree, s.flight, s.disk, s.committed)
    && Recoverable(c, s.disk, Listed(s.head), s.committed)
    && HeadOk(c, s.head, s.phase)
    && (Up(s) ==> Cache(c, s.disk, s.cache, s.dirty, if s.phase.Sync? then Listed(s.head) else s.tree, s.committed))
    && (!Up(s) ==> s.dirty == {})
    && (s.phase.Restore? ==> Restored(s.disk, Listed(s.head), s.committed, s.phase.done))
  }

  // The steps keep it.

  lemma InitInv(c: Config, s: State)
    requires Init(c, s)
    ensures Inv(c, s)
  {
    hide Present, Decode, Accepted, HeadPages;
  }

  lemma StartInv(c: Config, s: State, pid: nat, s': State)
    requires Inv(c, s) && Starts(s, pid, s')
    ensures Inv(c, s')
  {
    hide Geometry, Tree, Images, Recoverable, HeadOk, Cache, Listed;
  }

  lemma StopInv(c: Config, s: State, pid: nat, s': State)
    requires Inv(c, s) && Stops(s, pid, s')
    ensures Inv(c, s')
  {
    hide Geometry, Tree, Images, Recoverable, HeadOk, Cache, Listed;
  }

  lemma SubmitInv(c: Config, s: State, pid: nat, s': State)
    requires Inv(c, s) && Submits(s, pid, s')
    ensures Inv(c, s')
  {
    hide Geometry, Tree, Recoverable, HeadOk, Cache, Listed, Locking, SavesTo;
  }

  lemma ModifyInv(c: Config, s: State, pid: nat, p: nat, v: Page, s': State)
    requires Inv(c, s) && Modifies(c, s, pid, p, v, s')
    ensures Inv(c, s')
  {
    hide Geometry, Tree, Recoverable, HeadOk, Listed, InFlight, Images;
  }

  /** Writing a body page touches no page of the volume. */
  lemma BodyFrame(c: Config, disk: map<nat, Page>, x: nat, v: Page, head: seq<byte>, cache: map<nat, Page>,
                  dirty: set<nat>, saved: seq<Entry>, committed: map<nat, Page>)
    requires Geometry(c, disk, head, committed) && Recoverable(c, disk, [], committed)
    requires Cache(c, disk, cache, dirty, saved, committed) && InArea(c, x)
    ensures Geometry(c, disk[x := v], head, committed) && Recoverable(c, disk[x := v], [], committed)
    ensures Cache(c, disk[x := v], cache, dirty, saved, committed)
  {
    hide HeadPages;
  }

  lemma BodyImages(tree: seq<Entry>, flight: map<nat, Write>, disk: map<nat, Page>, slot: nat,
                   committed: map<nat, Page>)
    requires Images(tree, flight, disk, committed) && slot in flight
    ensures Images(tree, flight - {slot}, disk[slot := flight[slot].page], committed)
  {
  }

  lemma BodyInv(c: Config, s: State, slot: nat, s': State)
    requires Inv(c, s) && BodyWritten(s, slot, s')
    ensures Inv(c, s')
  {
    hide Present, Decode, Accepted, HeadPages, Locking, Geometry, Recoverable, Cache, Ascending, Disjoint;
    assert SavesTo(s.tree, slot);
    assert Collecting(s.phase) && InArea(c, slot) by {
      var e :| e in s.tree && e.onSnapshot <= slot < e.onSnapshot + e.count;
      assert Placed(c, e);
    }
    BodyImages(s.tree, s.flight, s.disk, slot, s.committed);
    hide Placed, Images, SavesTo;
    BodyFrame(c, s.disk, slot, s.flight[slot].page, s.head, s.cache, s.dirty, s.tree, s.committed);
  }

  lemma SyncInv(c: Config, s: State, p: nat, s': State)
    requires Inv(c, s) && PageSynced(s, p, s')
    ensures Inv(c, s')
  {
    hide Locking, HeadOk, Listed, HeadPages;
  }

  lemma RestoredMore(disk: map<nat, Page>, disk': map<nat, Page>, list: seq<Entry>, committed: map<nat, Page>,
                     done: set<(nat, nat)>, k: nat, i: nat)
    requires Restored(disk, list, committed, done) && k < |list| && i < list[k].count
    requires forall q :: q in disk ==> q in disk' && (q != list[k].onVolume + i ==> disk'[q] == disk[q])
    requires var p := list[k].onVolume + i; p in committed ==> p in disk' && disk'[p] == committed[p]
    ensures Restored(disk', list, committed, done + {(k, i)})
  {
  }

  /** Copying one page back makes it what it was. */
  lemma RestoreFrame(c: Config, disk: map<nat, Page>, head: seq<byte>, list: seq<Entry>, committed: map<nat, Page>,
                     done: set<(nat, nat)>, k: nat, i: nat)
    requires Geometry(c, disk, head, committed) && Recoverable(c, disk, list, committed)
    requires Restored(disk, list, committed, done) && k < |list| && i < list[k].count && list[k].onSnapshot + i in disk
    ensures var e := list[k]; var disk' := disk[e.onVolume + i := disk[e.onSnapshot + i]];
            && Geometry(c, disk', head, committed) && Recoverable(c, disk', list, committed)
            && Restored(disk', list, committed, done + {(k, i)})
  {
    hide HeadPages;
    var e := list[k];
    var p := e.onVolume + i;
    var disk' := disk[p := disk[e.onSnapshot + i]];
    assert Covers(e, p) && SavedAt(e, p) == e.onSnapshot + i && Covered(list, p) && Placed(c, e);
    forall d, q | d in list && Covers(d, q) ensures SavedAt(d, q) != p {
      assert Placed(c, d);
    }
    assert p in committed ==> disk'[p] == committed[p];
    hide Placed, Covered;
    RestoredMore(disk, disk', list, committed, done, k, i);
  }

  lemma RestorePageInv(c: Config, s: State, k: nat, i: nat, s': State)
    requires Inv(c, s) && PageRestored(s, k, i, s')
    ensures Inv(c, s')
  {
    hide Present, Accepted, Listed, HeadPages, Geometry, Recoverable, Restored;
    RestoreFrame(c, s.disk, s.head, Listed(s.head), s.committed, s.phase.done, k, i);
  }

  /** Pages that no longer matter may be torn. */
  lemma CrashFrame(c: Config, disk: map<nat, Page>, garbage: map<nat, Page>, head: seq<byte>, list: seq<Entry>,
                   committed: map<nat, Page>)
    requires Geometry(c, disk, head, committed) && Recoverable(c, disk, list, committed)
    requires forall a :: a in garbage ==> (a in committed ==> Covered(list, a)) && (list != [] ==> !InArea(c, a))
    ensures Geometry(c, disk + garbage, head, committed) && Recoverable(c, disk + garbage, list, committed)
  {
    hide HeadPages;
    forall e, q | e in list && Covers(e, q) ensures SavedAt(e, q) !in garbage {
      assert Placed(c, e);
    }
  }

  lemma TornPages(c: Config, s: State, a: nat)
    requires Inv(c, s) && MayTear(s, a)
    ensures (a in s.committed ==> Covered(Listed(s.head), a)) && (Listed(s.head) != [] ==> !InArea(c, a))
  {
    hide Present, Decode, Accepted, HeadPages, Locking;
    if a in s.flight {
      assert SavesTo(s.tree, a);
      var e :| e in s.tree && e.onSnapshot <= a < e.onSnapshot + e.count;
      assert Placed(c, e);
    }
  }

  lemma CrashInv(c: Config, s: State, garbage: map<nat, Page>, s': State)
    requires Inv(c, s) && Crashed(s, garbage, s')
    ensures Inv(c, s')
  {
    forall a | a in garbage
      ensures (a in s.committed ==> Covered(Listed(s.head), a)) && (Listed(s.head) != [] ==> !InArea(c, a))
    {
      TornPages(c, s, a);
    }
    hide Present, Decode, Accepted, HeadPages, Geometry, Recoverable, Cache, Listed, MayTear;
    CrashFrame(c, s.disk, garbage, s.head, Listed(s.head), s.committed);
  }

  lemma LockInv(c: Config, s: State, s': State)
    requires Inv(c, s) && (Step(c, s, Lock, s') || Step(c, s, Unlock, s'))
    ensures Inv(c, s')
  {
    hide Present, Decode, Accepted, HeadPages, Geometry, Recoverable, Images, InFlight, Cache, Ascending, Disjoint,
         Placed;
  }

  /** With nothing saved there is no head to write. */
  lemma SkipInv(c: Config, s: State, s': State)
    requires Inv(c, s) && Step(c, s, SkipHead, s')
    ensures Inv(c, s')
  {
    hide Present, Decode, Accepted, HeadPages, Geometry, Recoverable, Images, InFlight, Ascending, Disjoint, Placed;
  }

  lemma ClearedHead(head: seq<byte>)
    requires |head| >= SECTOR
    ensures !Present(ClearHead(head)) && Listed(ClearHead(head)) == [] && |ClearHead(head)| == |head|
  {
    assert ClearHead(head)[..4][0] == 0;
    assert Le(MAGIC, 4)[0] == MAGIC % 256 != 0;
  }

  lemma ClearInv(c: Config, s: State, s': State)
    requires Inv(c, s) && Cleared(c, s, s')
    ensures Inv(c, s')
  {
    hide Present, Decode, Accepted, HeadPages, ClearHead;
    ClearedHead(s.head);
  }

  lemma MountInv(c: Config, s: State, s': State)
    requires Inv(c, s) && Mounted(c, s, s')
    ensures Inv(c, s')
  {
    hide Present, Decode, Accepted, HeadPages, ClearHead;
  }

  lemma BeginInv(c: Config, s: State, s': State)
    requires Inv(c, s) && RestoreBegun(c, s, s')
    ensures Inv(c, s')
  {
    hide Present, Decode, Accepted, HeadPages, Geometry, Recoverable, Images, InFlight;
  }

  lemma EndInv(c: Config, s: State, s': State)
    requires Inv(c, s) && RestoreEnded(c, s, s')
    ensures Inv(c, s')
  {
    hide Present, Decode, Accepted, HeadPages, ClearHead;
    ClearedHead(s.head);
  }

  lemma {:induction false} InsertFacts(tree: seq<Entry>, e: Entry)
    requires Ascending(tree) && !Known(tree, e.onVolume)
    ensures |Insert(tree, e)| == |tree| + 1 && Ascending(Insert(tree, e))
    ensures forall x :: x in Insert(tree, e) <==> x in tree || x == e
  {
    if tree == [] || e.onVolume < tree[0].onVolume {
    } else {
      assert tree[0] in tree && tree == [tree[0]] + tree[1..];
      InsertFacts(tree[1..], e);
      var r := Insert(tree[1..], e);
      forall k | 0 <= k < |r| ensures tree[0].onVolume < r[k].onVolume {
        assert r[k] in r;
      }
    }
  }

  /** Where a new chunk goes, and that its fields hold it. */
  lemma NewEntry(c: Config, s: State, pid: nat, a: nat, n: nat, s': State)
    requires Inv(c, s) && Adds(c, s, pid, a, n, s') && !Known(s.tree, a)
    ensures s.phase.Open? && pid in s.readers && Placed(c, Entry(a, c.start + s.pageIndex, n))
    ensures forall p :: p in s.committed && a <= p < a + n ==> s.cache[p] == s.committed[p]
  {
    hide Present, Decode, Accepted, HeadPages, Pow256, Images, InFlight;
    assert pid in s.readers;
  }

  lemma AddedImages(tree: seq<Entry>, tree': seq<Entry>, e: Entry, flight: map<nat, Write>, more: map<nat, Write>,
                    disk: map<nat, Page>, committed: map<nat, Page>)
    requires Images(tree, flight, disk, committed) && forall x :: x in tree' ==> x in tree || x == e
    requires forall d :: d in tree ==> d.onSnapshot + d.count <= e.onSnapshot
    requires forall x :: x in more ==> e.onSnapshot <= x
    requires forall p :: Covers(e, p) && p in committed ==>
                           SavedAt(e, p) in more && more[SavedAt(e, p)].page == committed[p]
    ensures Images(tree', flight + more, disk, committed)
  {
  }

  lemma AddedTree(c: Config, tree: seq<Entry>, e: Entry, pageIndex: nat, phase: Phase)
    requires Tree(c, tree, |tree|, pageIndex, phase) && phase.Open? && !Known(tree, e.onVolume)
    requires Placed(c, e) && e.onSnapshot == c.start + pageIndex && pageIndex + e.count <= MaxPages(c) && e.count > 0
    ensures Tree(c, Insert(tree, e), |tree| + 1, pageIndex + e.count, phase)
  {
    hide Insert, Placed, HeadPages;
    InsertFacts(tree, e);
  }

  lemma AddedFlight(tree: seq<Entry>, tree': seq<Entry>, e: Entry, flight: map<nat, Write>, more: map<nat, Write>,
                    pid: nat, readers: set<nat>)
    requires InFlight(tree, flight, readers) && pid in readers && forall x :: x in tree' <==> x in tree || x == e
    requires forall x :: x in more ==> e.onSnapshot <= x < e.onSnapshot + e.count && more[x].sender == Unsent(pid)
    ensures InFlight(tree', flight + more, readers)
  {
    assert e in tree';
  }

  lemma AddedCache(c: Config, disk: map<nat, Page>, cache: map<nat, Page>, dirty: set<nat>, tree: seq<Entry>,
                   tree': seq<Entry>, committed: map<nat, Page>)
    requires Cache(c, disk, cache, dirty, tree, committed) && forall x :: x in tree ==> x in tree'
    ensures Cache(c, disk, cache, dirty, tree', committed)
  {
    forall p | p in dirty && p in committed ensures Covered(tree', p) {
      assert Covered(tree, p);
    }
  }

  lemma AddInv(c: Config, s: State, pid: nat, a: nat, n: nat, s': State)
    requires Inv(c, s) && Adds(c, s, pid, a, n, s')
    ensures Inv(c, s')
  {
    if !Known(s.tree, a) {
      NewEntry(c, s, pid, a, n, s');
      AddedChunk(c, s, pid, a, n, s');
      hide Present, Decode, Accepted, HeadPages, Insert, Recoverable, Geometry, Locking, HeadOk, Placed, Listed, Tree,
           InFlight, Images, Cache, SnapshotJournal.Images;
    }
  }

  lemma MoreImages(s: State, pid: nat, e: Entry)
    requires forall p :: Covers(e, p) ==> p in s.cache && (p in s.committed ==> s.cache[p] == s.committed[p])
    ensures forall p :: e.onVolume <= p < e.onVolume + e.count ==> p in s.cache
    ensures var more := SnapshotJournal.Images(s, pid, e.onVolume, e.count, e.onSnapshot);
            && (forall x :: x in more ==> e.onSnapshot <= x < e.onSnapshot + e.count && more[x].sender == Unsent(pid))
            && forall p :: Covers(e, p) && p in s.committed ==>
                             SavedAt(e, p) in more && more[SavedAt(e, p)].page == s.committed[p]
  {
    assert forall p :: e.onVolume <= p < e.onVolume + e.count ==> Covers(e, p);
    var more := SnapshotJournal.Images(s, pid, e.onVolume, e.count, e.onSnapshot);
    forall p | Covers(e, p) && p in s.committed ensures SavedAt(e, p) in more
        && more[SavedAt(e, p)].page == s.committed[p] {
      assert Original(e.onVolume, e.onSnapshot, SavedAt(e, p)) == p;
    }
  }

  lemma AddedChunk(c: Config, s: State, pid: nat, a: nat, n: nat, s': State)
    requires Inv(c, s) && Adds(c, s, pid, a, n, s') && !Known(s.tree, a)
    requires s.phase.Open? && pid in s.readers && Placed(c, Entry(a, c.start + s.pageIndex, n))
    requires forall p :: p in s.committed && a <= p < a + n ==> s.cache[p] == s.committed[p]
    ensures Tree(c, s'.tree, s'.count, s'.pageIndex, s.phase) && InFlight(s'.tree, s'.flight, s.readers)
    ensures Images(s'.tree, s'.flight, s.disk, s.committed)
    ensures Cache(c, s.disk, s.cache, s.dirty, s'.tree, s.committed)
  {
    hide Present, Decode, Accepted, HeadPages, Insert, Recoverable, Geometry, Locking, HeadOk, Placed, Listed,
         InFlight, Images, Cache, Tree,
      SnapshotJournal.Images;
    var e := Entry(a, c.start + s.pageIndex, n);
    TreeFacts(c, s.tree, s.count, s.pageIndex, s.phase);
    MoreImages(s, pid, e);
    var more := SnapshotJournal.Images(s, pid, a, n, e.onSnapshot);
    assert s'.tree == Insert(s.tree, e) && s'.flight == s.flight + more;
    hide Covers;
    InsertFacts(s.tree, e);
    AddedTree(c, s.tree, e, s.pageIndex, s.phase);
    AddedImages(s.tree, s'.tree, e, s.flight, more, s.disk, s.committed);
    AddedFlight(s.tree, s'.tree, e, s.flight, more, pid, s.readers);
    AddedCache(c, s.disk, s.cache, s.dirty, s.tree, s'.tree, s.committed);
  }

  lemma TreeFacts(c: Config, tree: seq<Entry>, count: nat, pageIndex: nat, phase: Phase)
    requires Tree(c, tree, count, pageIndex, phase)
    ensures count == |tree| && Ascending(tree) && forall e :: e in tree ==>
              e.onSnapshot + e.count <= c.start + pageIndex
  {
  }

  /** The committed head lists exactly the saved chunks, and fits the head area. */
  lemma HeadFits(c: Config, s: State)
    requires Inv(c, s) && s.phase.Commit? && s.count > 0
    ensures HEADER + RECORD * |s.tree| + 4 <= HeadPages(s.count) * PAGE <= |s.head| && HistoryPage(c) >= 0
  {
  }

  lemma NewHeadReads(c: Config, s: State, mount: nat)
    requires Inv(c, s) && s.phase.Commit? && 0 < s.count <= MAX_ENTRIES
    requires HEADER + RECORD * |s.tree| + 4 <= HeadPages(s.count) * PAGE <= |s.head|
    ensures var head := NewHead(c, s, mount);
            && Present(head) && Listed(head) == s.tree && Accepted(head, c.crc) && |head| == |s.head|
  {
    hide Pow256, HeadPages, Encode, Present, Decode, Accepted;
    var e := Encode(s.tree, mount, s.version, c.crc);
    var tail := seq(HeadPages(s.count) * PAGE - |e|, _ => 0) + s.head[HeadPages(s.count) * PAGE..];
    assert NewHead(c, s, mount) == e + tail;
    forall x | x in s.tree ensures Fits(x) {
      assert Placed(c, x);
    }
    HeadRoundTrip(s.tree, mount, s.version, c.crc, tail);
    HeadAccepted(s.tree, mount, s.version, c.crc, tail);
  }

  /** With all body pages written, the saved chunks take over from the volume. */
  lemma CommitFrame(c: Config, disk: map<nat, Page>, h: Page, head: seq<byte>, head': seq<byte>, tree: seq<Entry>,
                    cache: map<nat, Page>, dirty: set<nat>, committed: map<nat, Page>)
    requires Geometry(c, disk, head, committed) && Recoverable(c, disk, [], committed)
    requires Images(tree, map[], disk, committed) && (forall e :: e in tree ==> Placed(c, e)) && |head'| == |head|
    requires Cache(c, disk, cache, dirty, tree, committed)
    ensures HistoryPage(c) >= 0
    ensures var disk' := disk[HistoryPage(c) := h];
            && Geometry(c, disk', head', committed) && Recoverable(c, disk', tree, committed)
            && Cache(c, disk', cache, dirty, tree, committed)
  {
    hide HeadPages;
    forall e, p | e in tree && Covers(e, p) ensures SavedAt(e, p) != HistoryPage(c) {
      assert Placed(c, e);
    }
  }

  lemma NoneLeft(flight: map<nat, Write>, tree: seq<Entry>, readers: set<nat>)
    requires InFlight(tree, flight, readers) && readers == {} && forall x :: x in flight ==> flight[x].sender != Sent
    ensures flight == map[]
  {
  }

  lemma HeadInv(c: Config, s: State, mount: nat, history: Page, s': State)
    requires Inv(c, s) && HeadWritten(c, s, mount, history, s') && s.count <= MAX_ENTRIES
    ensures Inv(c, s')
  {
    hide NewHead, Present, Accepted, Decode, HeadPages, Placed, Cache, Recoverable, Geometry;
    NewHeadReads(c, s, mount);
    NoneLeft(s.flight, s.tree, s.readers);
    CommitFrame(c, s.disk, history, s.head, s'.head, s.tree, s.cache, s.dirty, s.committed);
  }
}
