/** What the journal counts over a run: body slots, nesting depths, versions, and the contents of pages. */
module SnapshotSlots {
  import opened Bytes
  import opened SnapshotHead
  import opened SnapshotJournal
  import opened SnapshotSafety
  import opened SnapshotRecovery

  // Slots.

  /** The pages of the chunks of `list`. */
  function PagesOf(list: seq<Entry>): nat {
    if list == [] then 0 else list[0].count + PagesOf(list[1..])
  }

  lemma {:induction false} PagesInsert(tree: seq<Entry>, e: Entry)
    ensures PagesOf(Insert(tree, e)) == PagesOf(tree) + e.count
  {
    if tree == [] || e.onVolume < tree[0].onVolume {
      assert ([e] + tree)[1..] == tree;
    } else {
      PagesInsert(tree[1..], e);
      assert ([tree[0]] + Insert(tree[1..], e))[1..] == Insert(tree[1..], e);
    }
  }

  /** The chunks saved since the last clear or mount. */
  function SavedChunks(s: State): seq<Entry> {
    if s.phase.Sync? then Listed(s.head) else s.tree
  }

  ghost predicate Account(c: Config, s: State) {
    Up(s) ==> s.pageIndex == PagesPerHead(c) + PagesOf(SavedChunks(s))
  }

  lemma AccountCommit(c: Config, s: State, ev: Event, s': State)
    requires Inv(c, s) && Account(c, s) && ShortCommit(s, ev) && Step(c, s, ev, s') && (ev.WriteHead? || ev.SkipHead?)
    ensures Account(c, s')
  {
    hide HeadPages, Present, Decode, Accepted, NewHead, Recoverable, Placed, Ascending, Disjoint;
    if ev.WriteHead? {
      HeadFits(c, s);
      NewHeadReads(c, s, ev.mount);
    } else {
      assert s.tree == [] && Listed(s.head) == [];
    }
  }

  lemma AccountStep(c: Config, s: State, ev: Event, s': State)
    requires Inv(c, s) && Account(c, s) && ShortCommit(s, ev) && Step(c, s, ev, s')
    ensures Account(c, s')
  {
    if ev.WriteHead? || ev.SkipHead? {
      hide Step, Inv, Account;
      AccountCommit(c, s, ev, s');
    } else if ev.Add? {
      AccountAdd(c, s, ev.pid, ev.a, ev.n, s');
    } else if ev.Clear? || ev.Mount? || ev.EndRestore? {
      hide Inv;
      NothingSaved(c, s, ev, s');
      hide HeadPages, Present, Accepted, ClearHead, Reload, Listed;
    } else {
      hide Inv, PagesOf, PagesPerHead;
      SlotsKept(c, s, ev, s');
      hide Step;
    }
  }

  lemma AccountAdd(c: Config, s: State, pid: nat, a: nat, n: nat, s': State)
    requires Inv(c, s) && Account(c, s) && Adds(c, s, pid, a, n, s')
    ensures Account(c, s')
  {
    hide HeadPages, Insert, Known, PagesOf, Listed, Pow256, NothingUnsent, SnapshotJournal.Images;
    assert s.phase.Open? by {
      InsideIsOpen(c, s, pid);
    }
    hide Inv;
    PagesInsert(s.tree, Entry(a, c.start + s.pageIndex, n));
  }

  lemma InsideIsOpen(c: Config, s: State, pid: nat)
    requires Inv(c, s) && Depth(s, pid) > 0
    ensures s.phase.Open?
  {
    hide Tree, InFlight, SnapshotSafety.Images, Recoverable, HeadOk, Cache, Geometry, Restored;
  }

  lemma SlotsKept(c: Config, s: State, ev: Event, s': State)
    requires Step(c, s, ev, s')
    requires !ev.WriteHead? && !ev.SkipHead? && !ev.Add? && !ev.Clear? && !ev.Mount? && !ev.EndRestore?
    ensures Up(s') ==> Up(s) && s'.pageIndex == s.pageIndex && s'.tree == s.tree && s'.head == s.head
    ensures Up(s') ==> s'.phase.Sync? == s.phase.Sync?
  {
    hide Present, Accepted, Listed, NewHead, ClearHead, HeadPages, Covered, NothingUnsent, Reload;
  }

  lemma {:induction false} RunAccount(c: Config, ss: seq<State>, evs: seq<Event>, i: nat)
    requires Run(c, ss, evs) && i < |ss| && Short(ss, evs, i)
    ensures Inv(c, ss[i]) && Account(c, ss[i])
  {
    hide Step, Inv, Init, Account;
    RunInv(c, ss, evs, i);
    if i == 0 {
      StartsDown(c, ss[0]);
    } else {
      assert Short(ss, evs, i - 1);
      RunAccount(c, ss, evs, i - 1);
      assert ShortCommit(ss[i - 1], evs[i - 1]);
      AccountStep(c, ss[i - 1], evs[i - 1], ss[i]);
    }
  }

  lemma StartsDown(c: Config, s: State)
    requires Init(c, s)
    ensures Account(c, s)
  {
  }

  /** Over every run: the slots in use are those of the head and of the chunks saved since the last clear or mount, one
      after the other. So a clear, a mount and a recovery give all of them back. */
  lemma SlotsInUse(c: Config, ss: seq<State>, evs: seq<Event>, i: nat)
    requires Run(c, ss, evs) && i < |ss| && Short(ss, evs, i) && Up(ss[i])
    ensures ss[i].pageIndex == PagesPerHead(c) + PagesOf(SavedChunks(ss[i]))
    ensures i > 0 && (evs[i - 1].Clear? || evs[i - 1].Mount? || evs[i - 1].EndRestore?) ==>
              ss[i].pageIndex == PagesPerHead(c)
  {
    hide Step, Init;
    RunAccount(c, ss, evs, i);
    if i > 0 && (evs[i - 1].Clear? || evs[i - 1].Mount? || evs[i - 1].EndRestore?) {
      assert Short(ss, evs, i - 1);
      RunInv(c, ss, evs, i - 1);
      NothingSaved(c, ss[i - 1], evs[i - 1], ss[i]);
    }
  }

  lemma NothingSaved(c: Config, s: State, ev: Event, s': State)
    requires Inv(c, s) && Step(c, s, ev, s') && (ev.Clear? || ev.Mount? || ev.EndRestore?)
    ensures s'.phase.Open? && s'.tree == []
  {
    hide HeadPages, Present, Decode, Accepted, ClearHead, Recoverable, Listed, Placed;
  }

  /** A task may save a chunk of `n` pages: it is inside a transaction, has nothing left to submit, and the pages are
      cached, clean and not the start of a saved chunk. */
  ghost predicate MaySave(s: State, pid: nat, a: nat, n: nat) {
    && Up(s) && Depth(s, pid) > 0 && NothingUnsent(s, pid) && 0 < n < WORD16 && a + n < Pow256(8) && !Known(s.tree, a)
    && forall p :: a <= p < a + n ==> p in s.cache && p !in s.dirty
  }

  lemma AddIff(c: Config, s: State, pid: nat, a: nat, n: nat)
    requires MaySave(s, pid, a, n)
    ensures (exists s' :: Step(c, s, Add(pid, a, n), s')) <==> s.pageIndex + n <= MaxPages(c)
  {
        hide Step, Adds, MaySave, MaxPages;
    if s.pageIndex + n <= MaxPages(c) {
      var s' := AddFits(c, s, pid, a, n);
    }
    if s' :| Step(c, s, Add(pid, a, n), s') {
      AddStep(c, s, pid, a, n, s');
      AddNeeds(c, s, pid, a, n, s');
    }
  }

  lemma AddStep(c: Config, s: State, pid: nat, a: nat, n: nat, s': State)
    ensures Step(c, s, Add(pid, a, n), s') <==> Adds(c, s, pid, a, n, s')
  {
    hide Adds;
  }

  lemma AddNeeds(c: Config, s: State, pid: nat, a: nat, n: nat, s': State)
    requires MaySave(s, pid, a, n) && Adds(c, s, pid, a, n, s')
    ensures s.pageIndex + n <= MaxPages(c)
  {
    hide HeadPages, Known, Pow256, NothingUnsent, Depth, MaxPages, Insert, SnapshotJournal.Images;
  }

  lemma AddFits(c: Config, s: State, pid: nat, a: nat, n: nat) returns (s': State)
    requires MaySave(s, pid, a, n) && s.pageIndex + n <= MaxPages(c)
    ensures Step(c, s, Add(pid, a, n), s')
  {
    hide Step, HeadPages, Known, Pow256, NothingUnsent, Depth, MaxPages, Insert, SnapshotJournal.Images;
    var slot := c.start + s.pageIndex;
    s' := s.(tree := Insert(s.tree, Entry(a, slot, n)), count := s.count + 1, pageIndex := s.pageIndex + n,
             flight := s.flight + SnapshotJournal.Images(s, pid, a, n, slot));
    AddStep(c, s, pid, a, n, s');
  }


  /** A chunk finds room exactly if it and the chunks saved since the last clear or mount fit the area less the page of
      the history and the pages of the head, which are counted twice: as slots in use, and in the size of the area. */
  lemma RoomForChunk(c: Config, ss: seq<State>, evs: seq<Event>, i: nat, pid: nat, a: nat, n: nat)
    requires Run(c, ss, evs) && i < |ss| && Short(ss, evs, i) && MaySave(ss[i], pid, a, n)
    ensures (exists s' :: Step(c, ss[i], Add(pid, a, n), s')) <==>
              PagesOf(SavedChunks(ss[i])) + n <= c.length - 2 * PagesPerHead(c) - 1
  {
    hide Step, Init, HeadPages;
    SlotsInUse(c, ss, evs, i);
    AddIff(c, ss[i], pid, a, n);
  }

  /** The pages set aside for a list of `n` chunks are the least number that holds a descriptor and `n` records. */
  lemma HeadPagesLeast(n: nat)
    ensures (HeadPages(n) - 1) * PAGE < DESCRIPTOR + n * RECORD <= HeadPages(n) * PAGE
  {
  }

  // Nesting.

  /** How deep task `pid` is inside transactions: entered less left, since the last crash. */
  function Nesting(evs: seq<Event>, pid: nat, i: nat): int
    requires i <= |evs|
  {
    if i == 0 || evs[i - 1].Crash? then 0
    else if evs[i - 1] == Start(pid) then Nesting(evs, pid, i - 1) + 1
    else if evs[i - 1] == Stop(pid) then Nesting(evs, pid, i - 1) - 1
    else Nesting(evs, pid, i - 1)
  }

  lemma OtherDepth(c: Config, s: State, ev: Event, s': State)
    requires Step(c, s, ev, s') && !ev.Start? && !ev.Stop? && !ev.Crash?
    ensures s'.locks == s.locks
  {
    hide Present, Accepted, Listed, Insert, NewHead, ClearHead, HeadPages, Known, Covered, NothingUnsent,
         SnapshotJournal.Images, Reload;
  }

  lemma DepthStep(c: Config, s: State, ev: Event, s': State, pid: nat)
    requires Step(c, s, ev, s')
    ensures Depth(s', pid) == if ev.Crash? then 0 else if ev == Start(pid) then Depth(s, pid) + 1
                              else if ev == Stop(pid) then Depth(s, pid) - 1 else Depth(s, pid)
  {
    hide NothingUnsent;
    if !ev.Start? && !ev.Stop? && !ev.Crash? {
      hide Step;
      OtherDepth(c, s, ev, s');
    }
  }

  /** In every run a task stays inside until it has left as often as it has entered. */
  lemma {:induction false} DepthCounts(c: Config, ss: seq<State>, evs: seq<Event>, pid: nat, i: nat)
    requires Run(c, ss, evs) && i < |ss|
    ensures Depth(ss[i], pid) == Nesting(evs, pid, i)
  {
    hide Step;
    if i > 0 {
      DepthCounts(c, ss, evs, pid, i - 1);
      DepthStep(c, ss[i - 1], evs[i - 1], ss[i], pid);
    }
  }

  // Versions.

  /** The number of heads written since the last crash. */
  function HeadsWritten(evs: seq<Event>, i: nat): nat
    requires i <= |evs|
  {
    if i == 0 || evs[i - 1].Crash? then 0 else HeadsWritten(evs, i - 1) + if evs[i - 1].WriteHead? then 1 else 0
  }

  lemma VersionStep(c: Config, s: State, ev: Event, s': State)
    requires Step(c, s, ev, s')
    ensures s'.version == if ev.Crash? then 0 else s.version + if ev.WriteHead? then 1 else 0
  {
    hide Present, Accepted, Listed, Insert, NewHead, ClearHead, HeadPages, Known, Covered, NothingUnsent,
         SnapshotJournal.Images, Reload;
  }

  /** Heads are numbered in the order in which they are written. */
  lemma {:induction false} VersionCounts(c: Config, ss: seq<State>, evs: seq<Event>, i: nat)
    requires Run(c, ss, evs) && i < |ss|
    ensures ss[i].version == HeadsWritten(evs, i)
  {
    hide Step;
    if i > 0 {
      VersionCounts(c, ss, evs, i - 1);
      VersionStep(c, ss[i - 1], evs[i - 1], ss[i]);
    }
  }

  // Contents.

  datatype Value = Read | Wrote(page: Page)

  /** What was last written to page `p` since it was read in. */
  function LastValue(evs: seq<Event>, i: nat, p: nat): Value
    requires i <= |evs|
  {
    if i == 0 || evs[i - 1].Mount? || evs[i - 1].EndRestore? || evs[i - 1].Crash? then Read
    else if evs[i - 1].Modify? && evs[i - 1].p == p then Wrote(evs[i - 1].v)
    else LastValue(evs, i - 1, p)
  }

  predicate Loads(ev: Event) {
    ev.Mount? || ev.EndRestore? || ev.Crash?
  }

  lemma CacheStep(c: Config, s: State, ev: Event, s': State)
    requires Step(c, s, ev, s') && !Loads(ev)
    ensures s'.cache == if ev.Modify? then s.cache[ev.p := ev.v] else s.cache
  {
    hide Present, Accepted, Listed, Insert, NewHead, ClearHead, HeadPages, Known, Covered, NothingUnsent,
         SnapshotJournal.Images, Reload;
  }

  lemma {:induction false} CacheHolds(c: Config, ss: seq<State>, evs: seq<Event>, i: nat, p: nat)
    requires Run(c, ss, evs) && i < |ss| && LastValue(evs, i, p).Wrote?
    ensures p in ss[i].cache && ss[i].cache[p] == LastValue(evs, i, p).page
  {
    hide Step;
    CacheStep(c, ss[i - 1], evs[i - 1], ss[i]);
    if !(evs[i - 1].Modify? && evs[i - 1].p == p) {
      CacheHolds(c, ss, evs, i - 1, p);
    }
  }

  /** A mount, with or without recovery, finds in every page the last value that was written to it before the last
      clear, and nothing that was written after that clear. */
  lemma Durable(c: Config, ss: seq<State>, evs: seq<Event>, i: nat, p: nat)
    requires Run(c, ss, evs) && i < |evs| && Short(ss, evs, i) && (evs[i].Mount? || evs[i].EndRestore?)
    requires LastClear(evs, i) > 0 && LastValue(evs, LastClear(evs, i) - 1, p).Wrote?
    ensures p in ss[i + 1].cache && ss[i + 1].cache[p] == LastValue(evs, LastClear(evs, i) - 1, p).page
  {
    hide Step, Init;
    MountReadsBack(c, ss, evs, i);
    CacheHolds(c, ss, evs, LastClear(evs, i) - 1, p);
  }
}
