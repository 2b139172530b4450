/** The snapshot journal as a transition system: tasks that save and change metadata pages, the
    commit-sync-clear sequence, crashes at any point, and recovery at mount. */
module SnapshotJournal {
  import opened Bytes
  import opened SnapshotHead

  /** The contents of one page. */
  type Page = nat

  // Geometry of the snapshot area, in pages.

  datatype Config = Config(start: nat, length: nat, crc: seq<byte> -> nat)

  /** Pages that hold a descriptor followed by `n` records. */
  function HeadPages(n: nat): nat {
    (n * RECORD + DESCRIPTOR + PAGE - 1) / PAGE
  }

  function PagesPerHead(c: Config): nat {
    HeadPages(c.length)
  }

  const PAGES_PER_HEAD_HISTORY: nat := 1

  function MaxPages(c: Config): int {
    c.length - PagesPerHead(c) - PAGES_PER_HEAD_HISTORY
  }

  function HistoryPage(c: Config): int {
    c.start + c.length - PAGES_PER_HEAD_HISTORY
  }

  predicate InArea(c: Config, a: nat) {
    c.start <= a < c.start + c.length
  }

  /** An area that holds its head and can be addressed. */
  ghost predicate Wf(c: Config) {
    PagesPerHead(c) <= MaxPages(c) && c.start + c.length < Pow256(8)
  }

  // The state.

  datatype Phase = Open | Commit | Sync | Down | Restore(done: set<(nat, nat)>)

  /** Who is to write a body page: its task, which has not submitted it yet, or the device. */
  datatype Sender = Unsent(pid: nat) | Sent

  datatype Write = Write(sender: Sender, page: Page)

  datatype State = State(
    // the device
    disk: map<nat, Page>, head: seq<byte>,
    // the page cache
    cache: map<nat, Page>, dirty: set<nat>,
    // the snapshot manager
    tree: seq<Entry>, count: nat, pageIndex: nat, version: nat, flight: map<nat, Write>,
    // the transaction lock and the nesting depth of each task
    locks: map<nat, nat>, readers: set<nat>,
    phase: Phase,
    // history: the contents of the pages in use at the last completed clear or mount
    committed: map<nat, Page>)

  function Depth(s: State, pid: nat): nat {
    if pid in s.locks then s.locks[pid] else 0
  }

  predicate Up(s: State) {
    s.phase.Open? || s.phase.Commit? || s.phase.Sync?
  }

  /** The `flags` field, which is set while the lock is held for writing. */
  predicate Flags(s: State) {
    s.phase.Commit? || s.phase.Sync?
  }

  predicate Covers(e: Entry, p: nat) {
    e.onVolume <= p < e.onVolume + e.count
  }

  ghost predicate Covered(list: seq<Entry>, p: nat) {
    exists e :: e in list && Covers(e, p)
  }

  /** The entries that the head on the device lists. */
  function Listed(head: seq<byte>): seq<Entry> {
    if Present(head) then Decode(head) else []
  }

  /** Insertion by volume address, as an in-order walk of the tree sees it. */
  function Insert(tree: seq<Entry>, e: Entry): seq<Entry> {
    if tree == [] || e.onVolume < tree[0].onVolume then [e] + tree
    else [tree[0]] + Insert(tree[1..], e)
  }

  ghost predicate Known(tree: seq<Entry>, a: nat) {
    exists e :: e in tree && e.onVolume == a
  }

  /** Zeroes the first sector of the head area. */
  function ClearHead(head: seq<byte>): seq<byte>
    requires |head| >= SECTOR
  {
    seq(SECTOR, _ => 0) + head[SECTOR..]
  }

  /** Zero-filled pages with the encoded head in front, over the head area. */
  function NewHead(c: Config, s: State, mount: nat): seq<byte>
    requires HEADER + RECORD * |s.tree| + 4 <= HeadPages(s.count) * PAGE <= |s.head|
  {
    var e := Encode(s.tree, mount, s.version, c.crc);
    e + seq(HeadPages(s.count) * PAGE - |e|, _ => 0) + s.head[HeadPages(s.count) * PAGE..]
  }

  // The steps.

  datatype Event =
    | Start(pid: nat)
    | Stop(pid: nat)
    | Add(pid: nat, a: nat, n: nat)
    | Submit(pid: nat)
    | Modify(pid: nat, p: nat, v: Page)
    | BodyDone(slot: nat)
    | Lock
    | Unlock
    | WriteHead(mount: nat, history: Page)
    | SkipHead
    | SyncPage(p: nat)
    | Clear
    | Crash(garbage: map<nat, Page>)
    | Mount
    | BeginRestore
    | RestorePage(k: nat, i: nat)
    | EndRestore

  ghost predicate NothingUnsent(s: State, pid: nat) {
    forall slot :: slot in s.flight ==> s.flight[slot].sender != Unsent(pid)
  }

  ghost predicate Starts(s: State, pid: nat, s': State) {
    && Up(s)
    && if Depth(s, pid) == 0
       then s.phase.Open? && s' == s.(readers := s.readers + {pid}, locks := s.locks[pid := 1])
       else s' == s.(locks := s.locks[pid := Depth(s, pid) + 1])
  }

  ghost predicate Stops(s: State, pid: nat, s': State) {
    && Up(s) && Depth(s, pid) > 0 && NothingUnsent(s, pid)
    && s' == s.(readers := if Depth(s, pid) == 1 then s.readers - {pid} else s.readers,
                locks := s.locks[pid := Depth(s, pid) - 1])
  }

  /** The page that is saved at `x`, when the chunk at `a` is saved from `slot` on. */
  function Original(a: nat, slot: nat, x: nat): nat
    requires slot <= x
  {
    a + (x - slot)
  }

  /** The pages of the chunk, on their way to `slot` and the slots after it. */
  function Images(s: State, pid: nat, a: nat, n: nat, slot: nat): map<nat, Write>
    requires forall p :: a <= p < a + n ==> p in s.cache
  {
    map x | slot <= x < slot + n :: Write(Unsent(pid), s.cache[Original(a, slot, x)])
  }

  /** Saves `n` pages from page `a` on, unless a chunk at `a` is saved already. The address and the number of pages
      fit their fields: a chunk is a node of a tree or a page of a bitmap. */
  ghost predicate Adds(c: Config, s: State, pid: nat, a: nat, n: nat, s': State) {
    && Up(s) && Depth(s, pid) > 0 && NothingUnsent(s, pid) && n > 0
    && (forall p :: a <= p < a + n ==> p in s.cache)
    && if Known(s.tree, a) then s' == s
       else
         && (forall p :: a <= p < a + n ==> p !in s.dirty)
         && s.pageIndex + n <= MaxPages(c) && a + n < Pow256(8) && n < WORD16
         && var slot := c.start + s.pageIndex;
            s' == s.(tree := Insert(s.tree, Entry(a, slot, n)), count := s.count + 1, pageIndex := s.pageIndex + n,
                     flight := s.flight + Images(s, pid, a, n, slot))
  }

  function SentBy(w: Write, pid: nat): Write {
    if w.sender == Unsent(pid) then w.(sender := Sent) else w
  }

  ghost predicate Submits(s: State, pid: nat, s': State) {
    && Up(s) && Depth(s, pid) > 0
    && s' == s.(flight := map x | x in s.flight :: SentBy(s.flight[x], pid))
  }

  /** A task changes a page that is saved, or was not in use at the last sync. */
  ghost predicate Modifies(c: Config, s: State, pid: nat, p: nat, v: Page, s': State) {
    && Up(s) && Depth(s, pid) > 0 && !InArea(c, p) && (p in s.committed ==> Covered(s.tree, p))
    && s' == s.(cache := s.cache[p := v], dirty := s.dirty + {p})
  }

  ghost predicate BodyWritten(s: State, slot: nat, s': State) {
    && slot in s.flight && s.flight[slot].sender == Sent
    && s' == s.(disk := s.disk[slot := s.flight[slot].page], flight := s.flight - {slot})
  }

  /** The head is written once no submitted body page is outstanding. */
  ghost predicate HeadWritten(c: Config, s: State, mount: nat, history: Page, s': State) {
    && s.phase.Commit? && s.count > 0
    && (forall slot :: slot in s.flight ==> s.flight[slot].sender != Sent)
    && HEADER + RECORD * |s.tree| + 4 <= HeadPages(s.count) * PAGE <= |s.head| && HistoryPage(c) >= 0
    && s' == s.(head := NewHead(c, s, mount), disk := s.disk[HistoryPage(c) := history],
                version := s.version + 1, count := 0, tree := [], phase := Sync)
  }

  ghost predicate PageSynced(s: State, p: nat, s': State) {
    && s.phase.Sync? && p in s.dirty && p in s.cache
    && s' == s.(disk := s.disk[p := s.cache[p]], dirty := s.dirty - {p})
  }

  ghost predicate Cleared(c: Config, s: State, s': State) {
    && s.phase.Sync? && s.dirty == {} && |s.head| >= SECTOR
    && s' == s.(head := ClearHead(s.head), pageIndex := PagesPerHead(c), phase := Open, committed := s.cache)
  }

  /** The pages that may be half written when the power fails. */
  ghost predicate MayTear(s: State, a: nat) {
    || a in s.flight
    || (s.phase.Sync? && a in s.dirty)
    || (s.phase.Restore? && Covered(Listed(s.head), a))
  }

  /** Memory is lost, and the pages being written hold anything. */
  ghost predicate Crashed(s: State, garbage: map<nat, Page>, s': State) {
    && (forall a :: a in garbage ==> MayTear(s, a))
    && s' == State(s.disk + garbage, s.head, map[], {}, [], 0, 0, 0, map[], map[], {}, Down, s.committed)
  }

  /** What mount reads back: the pages in use. */
  function Reload(s: State): map<nat, Page>
  {
    map p | p in s.committed && p in s.disk :: s.disk[p]
  }

  ghost predicate Mounted(c: Config, s: State, s': State) {
    && s.phase.Down? && !Present(s.head)
    && s' == s.(cache := Reload(s), pageIndex := PagesPerHead(c), phase := Open)
  }

  ghost predicate RestoreBegun(c: Config, s: State, s': State) {
    && s.phase.Down? && Present(s.head) && Accepted(s.head, c.crc)
    && s' == s.(phase := Restore({}))
  }

  ghost predicate PageRestored(s: State, k: nat, i: nat, s': State) {
    && s.phase.Restore? && k < |Listed(s.head)|
    && var e := Listed(s.head)[k];
       && i < e.count && e.onSnapshot + i in s.disk
       && s' == s.(disk := s.disk[e.onVolume + i := s.disk[e.onSnapshot + i]],
                   phase := Restore(s.phase.done + {(k, i)}))
  }

  ghost predicate RestoreEnded(c: Config, s: State, s': State) {
    && s.phase.Restore? && |s.head| >= SECTOR
    && (forall k, i :: 0 <= k < |Listed(s.head)| && 0 <= i < Listed(s.head)[k].count ==> (k, i) in s.phase.done)
    && s' == s.(head := ClearHead(s.head), cache := Reload(s), pageIndex := PagesPerHead(c), phase := Open)
  }

  ghost predicate Step(c: Config, s: State, ev: Event, s': State) {
    match ev
    case Start(pid) => Starts(s, pid, s')
    case Stop(pid) => Stops(s, pid, s')
    case Add(pid, a, n) => Adds(c, s, pid, a, n, s')
    case Submit(pid) => Submits(s, pid, s')
    case Modify(pid, p, v) => Modifies(c, s, pid, p, v, s')
    case BodyDone(slot) => BodyWritten(s, slot, s')
    case Lock => s.phase.Open? && s.readers == {} && s' == s.(phase := Commit)
    case Unlock => s.phase.Commit? && s' == s.(phase := Open)
    case WriteHead(mount, history) => HeadWritten(c, s, mount, history, s')
    case SkipHead => s.phase.Commit? && s.count == 0 && s' == s.(phase := Sync)
    case SyncPage(p) => PageSynced(s, p, s')
    case Clear => Cleared(c, s, s')
    case Crash(garbage) => Crashed(s, garbage, s')
    case Mount => Mounted(c, s, s')
    case BeginRestore => RestoreBegun(c, s, s')
    case RestorePage(k, i) => PageRestored(s, k, i, s')
    case EndRestore => RestoreEnded(c, s, s')
  }

  /** A volume that was left clean. */
  ghost predicate Init(c: Config, s: State) {
    && Wf(c) && |s.head| == PagesPerHead(c) * PAGE && !Present(s.head)
    && s == State(s.disk, s.head, map[], {}, [], 0, 0, 0, map[], map[], {}, Down, s.committed)
    && (forall a :: InArea(c, a) ==> a in s.disk)
    && (forall p :: p in s.committed ==> !InArea(c, p) && p in s.disk && s.disk[p] == s.committed[p])
  }
}
