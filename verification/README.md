# A verified model of eMMCFS

eMMCFS is a small Linux file system for eMMC flash. This project models six of its parts in Dafny and proves what
they are for:

1. **Free space** (`fsm_*.dfy`). The B-tree of free extents is modelled on the heap, with nodes that are changed in
   place. Insertion splits full nodes on the way down. Deletion is the one-pass kind: it borrows, merges and swaps with
   the predecessor or successor while the global key order is broken, and mends it at the leaf. Lookup, trimming and
   coalescing sit on top, then the allocator with its bitmap and counter, the bitmap scan at mount, and whole runs of
   allocations and releases.
2. **The snapshot journal** (`snapshot_*.dfy`). Tasks save pages before they change them; commit writes the head, sync
   writes the pages in place, clear wipes the head. This is a transition system with any number of tasks, writes under
   way, torn pages, crashes at any step and recovery that may crash itself. The head is modelled down to its bytes.
3. **The on-disk B+tree** (`bt_*.dfy`). Search, insertion with a cascade of bottom-up splits, removal with key update,
   unlinking, merging and root collapse, sibling links, the bitmap of node ids and the split reserve. `bt_demand.dfy`,
   `bt_shape.dfy` and `bt_fate.dfy` foretell, from the shape of the tree before the call, how many splits an insertion
   causes, what the levels become, and how a removal ends.
4. **The slotted page** (`page_*.dfy`). The bytes of one B+tree node: records that grow up, an offset table that grows
   down.
5. **The block map** (`map_*.dfy`). Nine inline extents and an overflow tree: growth, lookup, truncation, and draining
   of removed files.
6. **Hard-link ids** (`hlinks.dfy`). Where the data of an id lies and which id is handed out next.

`bytes.dfy`, `bits.dfy` and `seqs.dfy` hold what several parts share.

## How to read it

Every operation that changes state is a method whose contract ties the new abstract value to the old one: the sorted
keys in the free-space tree (`Contents`), the records in the leaves (`Contents`), the list of a page's records
(`Contents`), the list of a file's blocks (`BlockMap`). The names of the parts of a tree during a descent: a `Ctx` is
the tree with a hole, `Plug` fills it, and `Focus`, `Sound` and `Stepped` say what holds at the hole. In the B+tree,
`levels` lists the nodes of each level from left to right; `Tied` says that the node map with its sibling links spells
out the levels, `Upper` that each level holds exactly one separator per node below, with that node's first key, up to
a single root.

`dafny verify dfyconfig.toml` checks the project.

Findings about the code, each with an input on which it fails and the condition for that, in terms of the state before
the call:

- The snapshot head stores the offset of its checksum in 16 bits. At commit the new head is sure to pass the checksum
  test at mount exactly if it lists at most 3639 chunks (`SnapshotOverlong.CommitAcceptedIff`), and for every larger
  number a run reaches a commit whose head is refused (`SnapshotOverlong.OverlongCommit`). The journal's theorems hold
  for every snapshot area and every run whose commits list at most 3639 chunks each.
- A sync that fails leaves the head on the device and forgets the list of saved chunks. Until the next head is written a
  crash is still recovered to the last sync (`SnapshotFailed.SafeUntilCommit`). The next commit keeps that so if and
  only if the failed sync had not written anything over the pages in use at the last sync (`SnapshotFailed.NextCommit`);
  `SnapshotLost.LosesSync` is a run that loses it. A later sync that is completed makes up for any number of failures
  (`SnapshotFailed.ClearMakesUp`).
- The split reserve of the B+tree counts pages that the tree's file can grow by, also beyond the bitmap of node ids. So
  an insertion can pass the reserve check and run out of ids between two splits (`BtExhausted.RunsOut`): the new half
  of the node just split is then in the chain of its level and under no separator. An insertion runs out exactly if it
  has to split a node and either the reserve check fails or fewer ids are free than splits plus one. Once the check is
  passed, one more free id than the tree has levels always suffices (`BtTree.Btree.Insert`).
- A removal makes no reserve check. The renewal of a separator puts the new one before it takes the old one out, which
  can split nodes and run out of ids; the removal then fails with the record gone and the separators outdated
  (`BtExhausted.FailsLate`).
- `rebalance` stops the system when the parent of a node has no other child, though the record is gone by then and the
  tree is valid. `BtLonely.StopsThere` is such a tree and key. How a removal ends, in success, by this stop or without
  ids, is decided by `BtFate.FateOf` from the shape of the tree before the call and the number of free ids, in all
  cases (`BtTree.Btree.Remove`).
- The catalog tree asks for a 128th of the volume when it grows, and for half as many blocks while that fails. This can
  step over the least number that is needed: the growth fails while that many are to be had (`MapTrees.StepsOver`).
  All other files make one request only. `MapFile.Inode.ExpandFile` says exactly when a growth fails, but for the
  cases named under "Left out".
- The tree of overflow records always grows by a 128th of the volume. On a small volume that can be less than the growth
  that its split reserve asks for: the file still ends before the wanted block, and the block that is returned need not
  be one of the file (`MapTrees.FallsShort`). It is the right one whenever the wanted block lies within the growth.

## Model

| member | source | states |
|---|---|---|
| `FsmTree.Node.constructor` | fsm_btree.c:167-186 | a new node is an empty leaf with room for 2t-1 keys and 2t children |
| `FsmNodes.SplitChild` | fsm_btree.c:209-254 | the nodes in memory, shifted in place, spell out the tree with the full kid split around its middle key |
| `FsmNodes.SplitNodes` | fsm_btree.c:209-254 | which keys and children each of the three nodes holds after the shifts |
| `FsmNodes.MoveKey` | fsm_btree.c:520-569 | one rotation through the parent in either direction: the tree's keys stay in order, one kid is a key longer |
| `FsmNodes.MergeNodes` | fsm_btree.c:579-617 | the new node holds both siblings' keys around the separator, and all their children |
| `FsmNodes.MergeAt` | fsm_btree.c:445-510 | memory spells out the tree with two kids and their separator joined |
| `FsmBtree.Btree.MergeSiblings` | fsm_btree.c:445-510 | merging keeps what the deletion aims for, shrinks a root without keys, and ends at a node that can lose a key |
| `FsmDelete.GetMaxKeyPos` | fsm_btree.c:389-408 | returns the leaf with nothing of the subtree behind it |
| `FsmDelete.GetMinKeyPos` | fsm_btree.c:417-435 | returns the leaf with nothing of the subtree before it |
| `FsmDelete.StepBorrow` | fsm_btree.c:653-833 | borrowing from the right sibling keeps the deletion's goal and gives the kid a key to lose |
| `FsmDelete.StepLend` | fsm_btree.c:653-833 | the same from the left sibling |
| `FsmDelete.StepSwapMax` | fsm_btree.c:653-833 | swapping a key with its predecessor breaks the order of the whole tree and still keeps the deletion's goal |
| `FsmDelete.StepSwapMin` | fsm_btree.c:653-833 | the same with the successor |
| `FsmBtree.Btree.Descend` | fsm_btree.c:653-833 | one level down the search path in all cases: kid long enough, borrow left or right, merge |
| `FsmBtree.Btree.PushDown` | fsm_btree.c:653-833 | a key found in an inner node moves one level down by swap or merge |
| `FsmBtree.Btree.RemoveKeyFromLeaf` | fsm_btree.c:626-645 | the leaf step ends with a valid, sorted tree that has exactly the deletion's goal |
| `FsmBtree.Btree.Delete` | fsm_btree.c:653-833 | for every valid tree and key: a valid tree (sorted, t-1 to 2t-1 keys, equal leaf depth) with the old keys without the key; the same keys if it was absent |
| `FsmBtree.Btree.InsertNonfull` | fsm_btree.c:263-340 | reports a key that is there, and else a valid tree with the key added, splitting full nodes on the way |
| `FsmBtree.Btree.RaiseRoot` | fsm_btree.c:349-380 | a split root has a new root above it and the same keys |
| `FsmBtree.Btree.Insert` | fsm_btree.c:349-380 | found exactly if the key was there; the keys become the old ones with the key in its place |
| `FsmSearch.Advance` | fsm_btree.c:1030-1037 | the chain of `next` links is a breadth-first queue: every link is written before it is followed |
| `FsmSearch.FirstFit` | fsm_btree.c:957-1040 | the search finds the first long enough extent in breadth-first order, finds one exactly if the tree has one, and ends |
| `FsmSearch.ExtentAt` | fsm_btree.c:957-1040 | finds the extent that starts at the hint exactly if it is there and long enough |
| `FsmBtree.Btree.TakeFrom` | fsm_btree.c:957-1040 | an extent loses its first blocks and no other extent changes |
| `FsmBtree.Btree.Lookup` | fsm_btree.c:957-1040 | fails with the tree as it was only if no extent is long enough, takes exactly one free range otherwise: at the hint if a long enough extent starts there, else from the first long enough extent in breadth-first order |
| `FsmExtents.TakeExtents` | fsm_btree.c:957-1040 | trimming keeps extents non-empty and apart, and removes exactly the range from the free blocks |
| `FsmSearch.FindNeighbour` | fsm_btree.c:898-936 | the walk along the right edge of the tree ends at the first key that touches the range, or has passed all of them |
| `FsmBtree.Btree.SwallowNext` | fsm_btree.c:886-944 | joining two touching extents frees nothing and loses nothing, and leaves one in place of two |
| `FsmBtree.Btree.Free` | fsm_btree.c:886-944 | the free blocks grow by exactly the range, extents stay apart, and no extent is broken up; the range is joined to the first extent of the right edge that touches it, and to the key behind that one, and is an extent of its own only if none does; if one does, there are no more extents than before; in a tree of one node extents that do not touch each other stay so |
| `FsmExtents.GiveAlone` | fsm_btree.c:886-944 | a range in use added as an extent of its own is apart from all others |
| `FsmExtents.GiveJoined` | fsm_btree.c:886-944 | a neighbour replaced by the two together covers exactly both |
| `FsmExtents.JoinNext` | fsm_btree.c:886-944 | an extent grown over the next one, which is then deleted, covers the same blocks |
| `FsmExtents.CoalescedJoins` | fsm_btree.c:898-936 | if some extent on the walk touches the range, such an extent and the range are one extent afterwards, and there are no more extents than before |
| `FsmExtents.CoalescedMaximal` | fsm_btree.c:898-936 | if the walk sees all extents and none touched another, none touches another afterwards |
| `FsmSpace.Fsm.MarkBits` | fsm.c:92-101 | the test-and-set and test-and-clear checks never fire, and exactly the range changes |
| `FsmSpace.Fsm.GetFreeBlock` | fsm.c:40-116 | returns 0 exactly if the request is refused, then with nothing changed; else a range that was free, at the hint exactly if a long enough extent starts there, and otherwise from the first long enough extent in breadth-first order; tree, bitmap and counter agree |
| `FsmSpace.Fsm.FreeBlockChunk` | fsm.c:129-188 | exactly the range becomes free and is joined as `Free` does; every extent stays whole; tree, bitmap and counter agree |
| `FsmSpace.TakeMarks` | fsm.c:40-116 | trimming the tree and setting the bits keep the union of extents, the clear bits and the counter equal, and never return block 0 |
| `FsmSpace.AgreeGive` | fsm.c:129-188 | the extents after any branch of the coalescing are exactly the clear bits |
| `FsmSpace.TakenElsewhere` | fsm.c:40-116 | taking blocks leaves the extents that start elsewhere as they are |
| `FsmSpace.StartsStill` | fsm.c:129-188 | an extent behind a block in use still starts there after others are joined |
| `FsmRuns.Do` | fsm.c:40-188 | one request or release moves blocks between the free ones and the users' without a trace elsewhere |
| `FsmRuns.LedgerTake` | fsm.c:40-116 | a range that was free is disjoint from all ranges held |
| `FsmRuns.LedgerGive` | fsm.c:129-188 | giving back the end of a range leaves exactly the other held blocks in use |
| `FsmRuns.Serve` | fsm.c:40-188 | over every run of requests and releases no block is held twice or lost, and free plus held blocks stay constant |
| `FsmSpace.Fsm.InsertRun` | fsm.c:252-271 | the run that ends here joins the tree and the counter |
| `FsmSpace.Fsm.ScanWord` | fsm.c:279-360 | the word-skipping scan reaches the state a bit-by-bit scan would |
| `FsmSpace.ScanEnd` | fsm.c:279-360 | closing a run, also at the very end of the bitmap, leaves exactly the maximal runs so far |
| `FsmSpace.RunsAgree` | fsm.c:279-360 | the maximal runs are non-empty, apart, cover exactly the clear bits and sum up to their number |
| `FsmSpace.Fsm.GetTree` | fsm.c:279-360 | the extents are exactly the maximal runs of clear bits, across words and in the last partial word, each counted once |
| `FsmSpace.Fsm.constructor` | fsm.c:367-441 | after mount the tree holds exactly the maximal runs of the bitmap and agrees with the counter |
| `SnapshotHead.EntryRoundTrip` | snapshot.c:199-254 | a record within its field widths survives encoding |
| `SnapshotHead.HeadRoundTrip` | snapshot.c:605-633 | a committed head reads back as the list it was made from, whatever bytes follow it |
| `SnapshotHead.ChecksumPlace` | snapshot.c:199-254 | the 16-bit field points at the checksum exactly for lists of at most 3639 entries |
| `SnapshotHead.MisplacedChecksum` | snapshot.c:549-660 | for every longer list there is a checksum function under which the head is refused |
| `SnapshotHead.AcceptedIffShort` | snapshot.c:549-660 | a head is accepted under every checksum function exactly if it has at most 3639 entries |
| `SnapshotHead.TreeToSnapshot` | snapshot.c:199-254 | the head filled in place, fields out of order, is the encoded list with the rest of the buffer untouched; an empty list is refused |
| `SnapshotSafety.InsertFacts` | snapshot.c:41-73 | a new chunk goes to its place in address order and no entry is lost |
| `SnapshotSafety.NewEntry` | snapshot.c:671-816 | a chunk that is not saved yet still has the contents of the last sync, and gets slots that its fields can hold |
| `SnapshotSafety.AddInv` | snapshot.c:671-816 | saving a chunk keeps the invariant: slots disjoint, images equal to the last sync's contents or on their way |
| `SnapshotSafety.SubmitInv` | data.c:277-281 | handing body pages to the device keeps the invariant |
| `SnapshotSafety.BodyInv` | data.c:266-281 | a body page reaching the device keeps the invariant and touches no page of the volume |
| `SnapshotSafety.StartInv` | snapshot.c:912-932 | entering a transaction, nested or not, keeps the invariant |
| `SnapshotSafety.StopInv` | snapshot.c:939-956 | leaving a transaction, nested or not, keeps the invariant |
| `SnapshotSafety.HeadFits` | snapshot.c:335-430 | the head to be committed fits the pages set aside for it |
| `SnapshotSafety.NewHeadReads` | snapshot.c:335-430 | with at most 3639 chunks saved, the committed head lists exactly these chunks and passes the checksum test |
| `SnapshotSafety.HeadInv` | snapshot.c:335-430 | with all body pages written and at most 3639 chunks, the head takes over from the volume as the record of the last sync |
| `SnapshotSafety.SyncInv` | inode.c:1274-1326 | writing any dirty page in place keeps the last sync recoverable |
| `SnapshotSafety.ClearInv` | snapshot.c:285-320 | wiping the head makes the new contents the recoverable ones, all at once |
| `SnapshotSafety.CrashInv` | snapshot.c:549-660 | a crash that tears any pages being written keeps the last sync recoverable, also in the midst of a recovery |
| `SnapshotSafety.RestorePageInv` | snapshot.c:439-495 | copying back any page in any order, again and again, keeps the last sync recoverable |
| `SnapshotRecovery.StepInv` | snapshot.c:285-956 | every step of every task, of the device, of commit, sync, clear, crash and recovery keeps the invariant, for every size of the snapshot area; a commit only if it lists at most 3639 chunks |
| `SnapshotRecovery.Recovers` | snapshot.c:549-660 | from every state that meets the invariant recovery yields the contents of the last sync, page by page |
| `SnapshotRecovery.CrashAtomicity` | inode.c:1274-1326 | at every point of every run whose commits so far list at most 3639 chunks, recovery yields exactly what the last completed clear published, a whole page cache with no task inside a transaction |
| `SnapshotRecovery.ClearPublishes` | snapshot.c:285-320 | a clear publishes the page cache as a whole while no task is inside a transaction |
| `SnapshotRecovery.MountReadsBack` | snapshot.c:549-660 | in every such run a mount, after however many interrupted recoveries, reads back the page cache that the last clear published |
| `SnapshotRecovery.RestoreSnapshot` | snapshot.c:549-660 | without a head nothing happens, a head that fails the checksum test is an error, else all listed chunks are copied back in order and the head is gone |
| `SnapshotRecovery.CommitExcludesTasks` | snapshot.c:823-956 | in every run, as long as a task stays inside its outermost transaction it holds the read lock, and no lock, commit, sync, clear or unlock takes place |
| `SnapshotRecovery.NeverRefused` | snapshot.c:549-660 | no run whose commits list at most 3639 chunks leads to a head that recovery refuses |
| `SnapshotRecovery.LayoutApart` | snapshot.c:1043-1057 | in every state of every run whose commits list at most 3639 chunks: head, body slots and history page are apart, the head has its full length, and no two chunks saved between clears share a slot or a volume address |
| `SnapshotSlots.SlotsInUse` | snapshot.c:285-320 | over every run: the slots in use are those of the head and of the chunks saved since the last clear or mount; a clear, a mount and a recovery give all body slots back |
| `SnapshotSlots.RoomForChunk` | snapshot.c:671-816 | over every run: a chunk finds room exactly if it and the chunks saved since the last clear or mount fit the area less the history page and twice the pages of the head |
| `SnapshotSlots.HeadPagesLeast` | snapshot.c:1043-1053 | the pages set aside for a head are the least number that holds a descriptor and a record per chunk |
| `SnapshotSlots.DepthCounts` | snapshot.c:912-956 | over every run: a task is as deep inside transactions as it has entered more often than left since the last crash |
| `SnapshotSlots.VersionCounts` | snapshot.c:335-430 | over every run: the version is the number of heads written since the last crash |
| `SnapshotSlots.Durable` | inode.c:1274-1326 | over every run: a mount, with or without recovery, finds in a page the last value written to it before the last clear |
| `SnapshotProgress.CanSync` | inode.c:1274-1326 | from every state of every run, with tasks inside, writes under way, or an interrupted recovery, steps lead to a clear; while the system is up it publishes the page cache as it is |
| `SnapshotOverlong.CommitAcceptedIff` | snapshot.c:335-430 | in every state that is about to commit: the head to be written passes the mount test under every checksum function exactly if at most 3639 chunks are saved |
| `SnapshotOverlong.OverlongCommit` | snapshot.c:549-660 | for every number of chunks above 3639 and below 2^32 there is a run that commits that many and leaves a head that recovery refuses |
| `SnapshotFailed.FailedInv` | inode.c:1301-1307 | to the tasks, the state after a failed sync is like one without a head in which the pages left dirty were not in use |
| `SnapshotFailed.SafeUntilCommit` | inode.c:1274-1326 | in every run, from a failed sync until the next head is written a crash is recovered to the last sync, whatever the failed sync has written or damaged |
| `SnapshotFailed.NextCommit` | snapshot.c:335-430 | right after the next commit a crash is recovered to the last sync if and only if the failed sync had not written over the pages in use then |
| `SnapshotFailed.ClearMakesUp` | inode.c:1274-1326 | a clear reached after any number of failed syncs, with any work and commits in between, publishes the page cache and leaves a state that meets the invariant |
| `SnapshotLost.LosesSync` | inode.c:1301-1307 | a run in which a page is synced, the sync fails, and the next commit leaves the last sync unrecoverable |
| `BtRecords.FindPos` | btree.c:812-905 | for every comparator monotone along the node: an equal record if there is one, else the last smaller one, else position 0 |
| `BtRecords.Search` | btree.c:812-905 | the last record not above the key, or position 0 |
| `BtSplit.SplitNode` | btree.c:554-603 | if overhead, longest record and a slot fit half a node, a full node splits into two non-empty parts that fit and concatenate to the records with the new one inserted, right behind the record that crosses half the node |
| `BtSplit.FullIff` | btree.c:400-406 | a node counts as full for a record exactly if it does not fit with the record, wherever that is put |
| `BtSplit.MiddleIs` | btree.c:554-603 | the place of division is the only one with at most half a node before its last record and more than half with it |
| `BtSplit.MergeFits` | btree.c:1418-1423 | two nodes that pass the merge test fit one node, and what room is left |
| `BtIds.NodeIds.constructor` | bnode.c:525-559 | the count is the number of clear bits and the hint the lowest one |
| `BtIds.NodeIds.Alloc` | bnode.c:345-390 | hands out the lowest free id, and fails exactly if none is free |
| `BtIds.NodeIds.Destroy` | bnode.c:473-513 | the id is free again; count and hint stay exact |
| `BtTree.Btree.Find` | btree.c:787-919 | the path from the root ends, at every level, at the last record not above the key |
| `BtTree.Btree.FindAny` | btree.c:787-919 | for a comparator that treats a range of keys as equal, the descent through the separators finds such a record exactly if a leaf has one |
| `BtTree.Btree.CheckReserve` | btree.c:950-976 | passes exactly if four free ids per level are there within the file or the file can grow by the rest; with a file within the bitmap and no growth, these ids are free |
| `BtDemand.DemandOf` | btree.c:986-1146 | the number of nodes that an insertion will split, as a function of tree and record, is that of the cascade from the place where the search ends |
| `BtDemand.SplitsRound` | btree.c:1065-1117 | after a split the cascade that remains is one shorter, whatever ids the parts got |
| `BtShape.BareSplit` | btree.c:1065-1117 | a round that splits a node takes the levels one step on the way to the shape that the whole insertion leads to, whatever ids the parts get |
| `BtShape.SplitsBare` | btree.c:986-1146 | the number of splits depends on the shape only |
| `BtShape.PutTop` | btree.c:986-1146 | an insertion at any level takes no record from the root, or puts a new root with two records above it |
| `BtTree.Btree.SetNextPrevLinks` | btree.c:503-542 | the two parts take the node's place in the doubly linked chain |
| `BtNodes.SplitTied` | btree.c:503-542 | after the split all chains are doubly linked in order again |
| `BtTree.Btree.RoundSplit` | btree.c:1065-1117 | after a split below the root, exactly one separator is due one level up and all else is valid |
| `BtTree.Btree.RoundGrow` | btree.c:617-648 | splitting the root ends the insertion with one level more and the root's id unchanged |
| `BtTree.Btree.Round` | btree.c:1043-1128 | a round puts the record or splits; it runs out exactly if it has to split and the reserve check fails at the leaves or fewer than two ids are free; how many splits are left |
| `BtTree.Btree.Redirect` | btree.c:1051-1063 | when a later round runs out, the old separator is redirected to the first half and the tree is left torn: all records there, one node without a separator |
| `BtTree.Btree.TornIsInvalid` | btree.c:1051-1063 | a torn tree does not meet the invariant |
| `BtTree.Btree.InsertAtLevel` | btree.c:986-1146 | at any level: sorted nodes, one separator per node with its first key, equal depth, linked siblings, and the record added in its place; the shape of the tree and the free ids after it; if the node has room, it takes the record and nothing else changes; runs out exactly if the splits it causes plus one exceed the free ids or the reserve check at the leaves fails, and what the tree then is |
| `BtTree.Btree.Insert` | btree.c:1154-1163 | EEXIST exactly if the key is there; ENOSPC exactly if it is not, some node has to split, and the reserve check fails or the free ids are fewer than the splits plus one; if the leaf of the key has room for the record, the result is OK, the leaf takes it, and no other node, no id and not the height changes; after ENOSPC the tree is as it was if the reserve check failed or fewer than two ids were free, and torn otherwise; else the leaf records are sorted and are the old ones and the new one; never ENOSPC if the reserve check passes with more free ids than levels |
| `BtExhausted.RunsOut` | btree.c:986-1146 | on the valid tree of two levels without the key, with two free ids and a file that can grow: the reserve check passes, the insertion fails, and the tree is torn with all records in it |
| `BtExhausted.NewTree` | btree.c:986-1146 | the tree of one-page nodes is valid, lacks key 4 and holds key 5 |
| `BtExhausted.TwoSplits` | btree.c:986-1146 | in that tree the insertion has to split leaf and root |
| `BtExhausted.FailsLate` | btree.c:1440-1599 | on that tree with no free id: the removal of a key that is there fails, the record is gone, all others are in the leaves, and the tree is not valid |
| `BtExhausted.NoRoom` | btree.c:1174-1231 | in that tree the new separator would split the full root |
| `BtRecords.AfterSorted` | btree.c:986-1146 | the record put after the last smaller one keeps the order and adds exactly itself |
| `BtTree.Btree.DeleteFromNode` | btree.c:686-767 | one record leaves its node, and no other node changes |
| `BtTree.Btree.UpdateKey` | btree.c:1174-1231 | the separator becomes the node's first key, through any splits its insertion causes and recursively if it was the first of its own node; whether it runs out of ids, and else the shape of the tree and the free ids, are those of the renewal computed on the shape before; after ENOSPC the levels below are as they were and those from here on are unchanged or not valid |
| `BtTree.Btree.PutNew` | btree.c:1195-1197 | putting the new separator behind the old one: ENOSPC exactly if the splits plus one exceed the free ids |
| `BtShape.RenewBare` | btree.c:1174-1231 | the renewal on the shape goes on with taking out the old separator from the levels that the insertion left |
| `BtTree.Btree.RenewAbove` | btree.c:1440-1599 | a node that lost its first record gets its new separator one level up, and is found under it; without ids the separator is outdated and the levels are not valid |
| `BtTree.Btree.Drop` | btree.c:1494-1536 | the chain closes around an emptied node and its id is free |
| `BtTree.Btree.RemoveOnly` | btree.c:1494-1536 | a node that loses its only record goes, with its separator, up the levels; the outcome is the one foretold |
| `BtTree.Btree.Collapse` | btree.c:1563-1587 | a root with one child gives way to it: the tree is one level lower, the child is the root, and the old root is gone and its id free |
| `BtTree.Btree.AfterRemoval` | btree.c:1546-1587 | ends as computed by `Settle` on the shape: levels, free ids, whether the root is another; a root above other nodes that is left with one record always gives way to its child |
| `BtTree.Btree.Rebalance` | btree.c:1368-1431 | ends as computed by `Settle` on the shape before: the left neighbour under the same parent, else the right one, is merged if both fit one node, recursively up the levels; stops exactly if a node due to merge has a parent with no other child; valid levels with the same records in either case |
| `BtTree.Btree.Merge` | btree.c:1242-1356 | the left node takes the right one's records, chain and separators follow, recursively up the levels, as computed on the shape with the two merged; valid levels with the same records in either case |
| `BtTree.Btree.RemoveAtLevel` | btree.c:1440-1599 | at any level: exactly the record with the key goes, and the levels from there on are valid, perhaps fewer, also if the system stops; without ids the other records are all there and the levels are not valid; outcome, shape of the tree, free ids and root are those foretold from the shape before and the free ids |
| `BtTree.Btree.Remove` | btree.c:1607-1616 | ENOENT exactly if the key is absent, with the tree as it was; OK, BUG or ENOSPC exactly as foretold from the shape before and the free ids, with the shape, the free ids and the root foretold; after OK and BUG a valid tree with exactly the other records; a root that lost records and is still the root above other nodes has at least two; a root that gave way is gone and its id free; after ENOSPC the other records in the leaves and a tree that is not valid |
| `BtFate.SettleMerge` | btree.c:1368-1431 | what `Settle` computes on the shape is the merge with the left neighbour under the same parent, else the right one, if both fit, and one step up; a stop without a neighbour |
| `BtFate.SettleHere` | btree.c:1546-1587 | a node at most a third empty stays; a root with one record gives way to its child |
| `BtFate.FateUp` | btree.c:1494-1541 | the fate of a node's only record is that of its separator, with one free id more |
| `BtFate.FateInner` | btree.c:1440-1599 | taking out a record that is not the first of its node never needs an id; what follows is what `Settle` says of the node without it |
| `BtLonely.StopsThere` | btree.c:1368-1431 | on the valid tree of three levels with the key: its removal stops the system, and the tree is valid |
| `BtLonely.NewTree` | btree.c:1368-1431 | the tree of one-page nodes is valid and holds key 6 |
| `BtLonely.NoNeighbour` | btree.c:1368-1431 | in that tree the leaf is more than a third empty after the removal and is the only child of its parent |
| `PageLayout.RecordAt` | btree.c:238-252 | in a valid page the bytes at a slot's offset are its record, within the page |
| `PageNode.Page.constructor` | btree.c:414-435 | a new node is an empty page whose free space is all between descriptor and table |
| `PageNode.Page.GetRecord` | btree.c:238-252 | the bytes at the offset in the table are the record of that index; the offset check never fails |
| `PageNode.MemMove` | btree.c:686-767 | overlapping moves act as if the bytes were copied out first |
| `PageNode.Page.InsertIntoNode` | btree.c:445-493 | the list of records gains the record at its index; records still tile the area and the free space is the gap to the last slot |
| `PageNode.InsertedPage` | btree.c:445-493 | the byte moves of an insertion give a valid page with the record appended to the area |
| `PageNode.Page.DeleteFromNode` | btree.c:686-767 | the list of records loses the record at its index; the records behind it move down and all offsets follow |
| `PageNode.DeletedPage` | btree.c:686-767 | the byte moves of a deletion give a valid page with the record cut out of the area |
| `PageNode.Page.MergeFrom` | btree.c:1279-1314 | the list of records becomes the concatenation; the merge test suffices for the bytes to fit |
| `PageNode.MergedPage` | btree.c:1279-1314 | the byte moves of a merge give a valid page with both areas and both tables |
| `PageNode.FreeMatches` | btree.c:400-406 | the free-space field of a page is what the fullness and merge tests of the tree model compute from the records |
| `MapExtTree.FindExt` | extents.c:83-96 | the last record not after the block; with the wildcard, a record of the inode exactly if it has one |
| `MapExtTree.OwnAdded` | extents.c:105-137 | a record behind all of its inode's extends exactly that inode's list |
| `MapExtTree.OwnRemoved` | file.c:185-266 | removing a record changes only its inode's list |
| `MapFile.AlignUp` | inode.c:970-973 | a multiple of the granularity, not below the value and less than one step away from it |
| `MapFile.Inode.ExpandFork` | inode.c:836-889 | the map is extended by blocks that were free; ENOSPC exactly if the allocator refuses; EPERM exactly if it does not, nine extents are in use and none long enough starts behind the last; the blocks are then given back and all bits are as before |
| `MapFile.Inode.ExttreeAddBlock` | extents.c:234-311 | the map is extended in the last record or in a new one; fails exactly if the allocator refuses, or the tree is full and no long enough extent starts behind the last record; in the latter case the blocks just taken, and no others, stay in use |
| `MapFile.Inode.FindNewBlock` | inode.c:900-932 | the block returned is as far behind the first new one as the request behind the old end; fails exactly if `Serves` does not hold before, stops exactly for a tenth extent of the tree of overflow records, keeps blocks for nothing exactly if `Loses` holds; what a failed attempt leaves for smaller ones |
| `MapFile.Inode.FullFork` | inode.c:908-926 | nine inline extents: behind the last one, or given back and tried as a first overflow record |
| `MapFile.Inode.Overflow` | extents.c:234-311 | a file with overflow records: a failed attempt, even one that keeps its blocks, does not change which requests succeed later |
| `MapFile.Inode.ExpandFile` | inode.c:982-1059 | succeeds exactly if enough blocks are free and some request of the halving chain would be served, with the largest of those; a file then ends right behind the block asked for, metadata grow by multiples of the erase block, and but for the two trees by the least one that reaches the block; the map grows by blocks that were free and the block returned is the one the map has, if it lies within the growth; after a failure the map is as it was, and blocks are lost exactly if the overflow tree is full and some request would have taken them |
| `MapFile.Inode.ExpandBy` | inode.c:1020-1039 | the halving loop: the same over the requests actually made |
| `MapFile.Inode.OneTry` | inode.c:990-1012 | only the catalog tree makes more than one request |
| `MapFile.Inode.WantedSize` | inode.c:990-1012 | the first request: for a file up to the block asked for; for metadata the least multiple of the erase block that covers it, for the catalog tree and the tree of overflow records also a 128th of the volume |
| `MapFile.Requests` | inode.c:982-1059 | every request of the halving chain lies between the least chunk and the first request |
| `MapFile.Inode.SameServes` | inode.c:982-1059 | which requests are served, stopped or lost depends only on the inode, its records and the free extents |
| `MapTrees.StepsOver` | inode.c:982-1059 | the catalog tree of a volume with 1280 blocks, nine of them free in a row, needs six and asks for ten: the growth fails though six would be served |
| `MapTrees.FallsShort` | inode.c:999-1004 | the tree of overflow records of a volume with 256 blocks grows by two where four are needed: success with a block that is in use and not of the file |
| `MapFile.Inode.FindOldBlock` | inode.c:945-962 | returns the block the map has, and the number of blocks from there to the end of its extent, which follow on the device as in the file |
| `MapFile.Inode.ExttreeGetBlock` | extents.c:181-224 | the same for blocks in the overflow tree; the record found is never another file's |
| `MapFile.Inode.TruncateExttree` | file.c:185-266 | the map is cut and exactly the blocks behind the cut are free, until the size is reached or no record is left |
| `MapFile.Inode.TruncateFork` | file.c:277-330 | the same for the inline extents, down to the size |
| `MapFile.Inode.TruncateBlocks` | file.c:346-385 | the size is the lesser of old and new, mappings below it are kept, and exactly the blocks at or above it are free |
| `MapFile.Inode.FreeRuntimeFork` | file.c:34-67 | exactly the inline blocks are free; the inode is put on the list of orphans exactly if it has overflow records |
| `MapOrphan.DrainRecords` | file.c:79-173 | draining by the wildcard ends with no record of the inode and exactly its blocks free |
| `MapOrphan.FreeExttree` | file.c:79-173 | the orphan's records are gone, then its place in the list; no other inode's records change |
| `MapOrphan.ProcessOrphans` | orphan.c:69-112 | ends with no orphan left; a block is in use exactly if it was and belonged to no orphan |
| `HardLinkIds.PlaceRoundTrip` | inode.c:231-260 | page and offset determine the id; offsets are multiples of the size of a link and stay within the page; no page is a bitmap page |
| `HardLinkIds.PlacesApart` | inode.c:231-260 | the data of two links share no byte |
| `HardLinkIds.HardLinks.Obtain` | inode.c:1876-1931 | returns the lowest free id, which becomes the hint; every id below the hint stays in use |
| `HardLinkIds.HardLinks.Free` | inode.c:302-346 | exactly the id is free; the hint is the lesser of it and the old one; every id below the hint stays in use |

## Left out

- Page cache, buffer heads, bio submission and writeback: only the rule that the head waits for submitted body pages is kept.
- VFS entry points, mount options, superblocks and their copies around commit and clear: kernel glue, and a separate scheme.
- The catalog tree's comparators and the position hint: keys of the B+tree model are integers in comparator order.
- procfs, debug output, the tree checker `emmcfs_verify_btree` and the scripts under `element/`: logging and tooling.
- Out-of-memory paths and page dirtying: they change none of the structures modelled.
- Preallocation in the allocator: dead with `FSM_PREALLOC_DELTA` 0.
- Integer widths: 64-bit block numbers and 32-bit counters do not wrap in the model; the 16-bit fields of the snapshot head and the 32-bit offsets of a page do have their width.
- The free-space tree: with more than one node, that all neighbours are joined is not claimed and not so, because the walk of `fsm_btree_free` follows only the right edge of the tree; what it joins is exact. The shift in `merge_siblings` stops at the last live key instead of one slot behind it.
- The snapshot head is written in one step, and its checksum is an arbitrary function; a torn head is not modelled.
- A snapshot area that overflows, or a page saved while dirty, stops the system in the code; here such a step does not exist. That a task changes only saved pages, or pages not in use at the last sync, is the file system's discipline and is taken as the condition of the step.
- The B+tree keeps a smallest record that is never removed, as mount sets it up; insertion below it and its removal are not modelled.
- The length of the tree's file and whether it can grow are inputs of an insertion, not tied to the block map.
- The overflow tree of the block map is an ordered list of records with the search of the B+tree; that the tree is full is an input, and its removals do not fail.
- The fields of a page descriptor are fields of the class, not bytes; the bytes are those of the records and the offset table.
- The number of hard links per page and the size of one are parameters: their definitions are not part of this model.
- The number of pages of a saved chunk is below 65536, as its field on disk demands.
- Failures of the device while the head is written or cleared; a failed sync is modelled (`SnapshotFailed`), also one that damages the pages it was writing.
- MapFile.Inode.ExpandFile: for the catalog tree with nine inline extents and no overflow record, a failed attempt can change what is free for the next. With a full overflow tree nothing is claimed about success then, because the blocks that are kept may be those behind the file; with a last extent that ends before the free space of the volume starts, it is claimed that a request that would be served is enough, not that it is needed, and not when blocks are lost, because giving blocks back can join free extents. All other cases are exact.
