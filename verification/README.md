# Agamotto, modelled and verified in Dafny

Agamotto is a symbolic execution engine for programs that use persistent
memory. It extends KLEE with a model of which cache lines have reached the
persistent medium, with a cooperative thread scheduler and with a store of
root causes. Its repository also carries repaired versions of programs it
found faults in, among them the B-tree map of PMDK.

This project models the parts of that system whose correctness depends on
several functions at once, and proves what they promise:

- **The persistent B-tree** (`BTreeShape`, `BTreeEdits`, `BTreePool`,
  `BTreeRepair`, `BTreeRemoval`, `BTreeMap`). Objects are nodes with fixed
  arrays of cells in a pool; a mathematical tree is represented by the pool.
  Insertion with preemptive splitting keeps order, height and occupancy and
  adds one item. The three repairs of an underfull node keep the contents,
  except for one case whose exact condition is given. Removal takes out one
  item and keeps order and height; the exact condition under which it leaves
  a node underfull is given.
- **Symbolic memory** (`Exprs`, `ObjectCells`, `ObjectState`, `ObjectRuns`).
  An object keeps concrete bytes, two masks, known symbolic bytes and an
  update log. Under every assignment of the symbolic inputs, any run of reads
  and writes gives what a plain byte array gives.
- **Persistence** (`Persistence`, `PersistentState`). Update lists over cache
  lines are proved against a reference machine in which a line is clean, dirty
  or flushed. Queries, root causes, redundant flushes and unnecessary fences
  are decided exactly.
- **Address spaces, resolution, allocation, merging** (`AddressSpace`,
  `Resolution`, `Allocator`, `StateMerge`). Copy-on-write never lets one state
  see the writes of another; the pruned pointer searches are exact; the
  allocator supplies what they rely on; a merged state stands for exactly the
  two states it came from.
- **Bookkeeping** (`ReturnDistance`, `RootCause`, `CallPath`, `Scheduler`,
  `ProcessTree`). Shortest distances to a return over calls and recursion, the
  masking relation between root causes, statistics summed over call paths,
  fairness of the scheduler, and the random-path choice among live states.

Solver answers are parameters: a query comes with the set of feasible
assignments (or of feasible values), and a contract that uses an answer says
that it is exact for that set. Random numbers, hashes and new object states
are parameters as well. Counters and ids are unbounded. In contracts, `a` of
type `Assignment` ranges over all valuations of the symbolic inputs.

Where the code differs from its documentation or its evident purpose, the model
follows the code:

- `resolveRange` is documented to list all objects a range could overlap; the
  code lists the objects that every feasible range overlaps
  (`PointerResolution.ResolveRange`, `RangeListsAllOverlaps`,
  `RangeMissesPossibleOverlap`).
- A resolution limit of 1 is not enforced
  (`PointerResolution.LimitOfOneIsIgnored`).
- `btree_map_rotate_left` puts the separator at position 0 of a node through a
  routine that takes a key 0 for an empty cell. With a key 0 in front, that
  item is overwritten (`BTreeRepair.ZeroKeyIsOverwritten`,
  `BTreeRepair.RotatedLeftIsGood`, `BTreeRepair.AfterRotateLeft`).
- `btree_map_remove` is meant to leave every node with at least three keys. When
  a key of an inner node is replaced by a successor from two or more levels
  down, only the leaf of the successor is repaired, and its parent may be left
  with two (`BTreeRemoval.Lapses` in the contract of
  `PersistentBTree.BTreeMap.Remove`, `BTreeRemoval.SparseLapses`).
- A non-temporal store flushes the line of its first byte only
  (`Persistence.NonTemporalStoreFlushed`).
- The summary of the root call path is added to at every call and never reset
  (`CallPaths.SumsExact` in the contract of `CallPaths.Summarize`).

## Model

| member | source | states |
|---|---|---|
| `PersistentBTree.BTreeMap.Insert` | case_study/pmdk/btree_map_performance_fixed.c:285-305 | from any well-formed map (sorted, all leaves at one depth, 3 to 7 keys in every node but the root), insertion gives a well-formed map whose in-order contents are the old ones with the item put in at one place; every new object is linked, and only the empty root of an emptied map is lost |
| `PersistentBTree.BTreeMap.FindDest` | case_study/pmdk/btree_map_performance_fixed.c:208-255 | the descent splits every full node on its way, changes no contents, and ends at a leaf with room at a position where the key keeps the order |
| `PersistentBTree.BTreeMap.FindBelow` | case_study/pmdk/btree_map_performance_fixed.c:235-254 | the search among the cells always ends in a child or a leaf position, so the final fall-through call is never reached; contents and heights are kept |
| `PersistentBTree.BTreeMap.MakeRoom` | case_study/pmdk/btree_map_performance_fixed.c:212-233 | after a possible split the chosen half has room, the key belongs there, and the tree lists the same contents |
| `PersistentBTree.BTreeMap.SplitRoot` | case_study/pmdk/btree_map_performance_fixed.c:212-233 | a full root becomes a root with one item and two halves, one level higher, with the same contents |
| `PersistentBTree.BTreeMap.SplitKid` | case_study/pmdk/btree_map_performance_fixed.c:212-220 | after a full kid is split, the half picked by comparing with the median is where the key belongs, and everything outside the tree is untouched |
| `PersistentBTree.BTreeMap.CreateSplitNode` | case_study/pmdk/btree_map_performance_fixed.c:179-202 | the node and one new object hold the two halves around the median; no other object changes |
| `BTreePool.SplitCells` | case_study/pmdk/btree_map_performance_fixed.c:179-202 | the loops over cells leave three items and four slots on each side, the median out, and no stale slot behind |
| `BTreeEdits.SplitKeeps` | case_study/pmdk/btree_map_performance_fixed.c:179-202 | the two halves around the median list the contents of the full node, are balanced and meet the minimum occupancy |
| `BTreeEdits.ChosenHalfFits` | case_study/pmdk/btree_map_performance_fixed.c:217-220 | going right only for keys above the median keeps the order, for keys equal to the median too |
| `BTreePool.NodeWithSplitStores` | case_study/pmdk/btree_map_performance_fixed.c:158-173 | the moved cells are those of the parent tree with the kid replaced by its two halves |
| `BTreePool.InsertAtRepresented` | case_study/pmdk/btree_map_performance_fixed.c:261-270 | changing the one leaf object makes the pool represent the whole tree with the item inserted |
| `BTreeEdits.InsertAtContents` | case_study/pmdk/btree_map_performance_fixed.c:261-270 | an insertion at the end of a path adds the item between what lies left and right of the path, at any depth |
| `BTreeEdits.InsertionKeepsOrder` | case_study/pmdk/btree_map_performance_fixed.c:235-248 | an item between smaller-or-equal and larger-or-equal keys keeps the order |
| `PersistentBTree.BTreeMap.IsEmpty` | case_study/pmdk/btree_map_performance_fixed.c:276-279 | true exactly when nothing is listed |
| `PersistentBTree.BTreeMap.Lookup` | case_study/pmdk/btree_map_performance_fixed.c:584-589 | 1 exactly for the keys in the in-order contents, 0 for all others |
| `PersistentBTree.BTreeMap.LookupInNode` | case_study/pmdk/btree_map_performance_fixed.c:567-578 | the search of one child per level decides membership in the whole subtree |
| `PersistentBTree.BTreeMap.Get` | case_study/pmdk/btree_map_performance_fixed.c:556-561 | a value stored under the key, or null exactly when the key does not occur |
| `PersistentBTree.BTreeMap.GetInNode` | case_study/pmdk/btree_map_performance_fixed.c:540-550 | the same for a subtree |
| `BTreePool.SearchCells` | case_study/pmdk/btree_map_performance_fixed.c:235-248 | the first live position with a larger key, or the end of the live cells |
| `PersistentBTree.BTreeMap.RotateRight` | case_study/pmdk/btree_map_performance_fixed.c:311-335 | exactly three objects change, to the cells named in the contract |
| `BTreeRepair.RotatedRightIsGood` | case_study/pmdk/btree_map_performance_fixed.c:311-335 | taking from the right keeps the contents, the height and the parent's items, and brings both nodes to the minimum |
| `BTreeRepair.AfterRotateRight` | case_study/pmdk/btree_map_performance_fixed.c:311-335 | the changed cells represent the rotated tree; objects outside it are untouched |
| `PersistentBTree.BTreeMap.RotateLeft` | case_study/pmdk/btree_map_performance_fixed.c:341-366 | exactly three objects change, to the cells named in the contract |
| `BTreeRepair.RotatedLeftIsGood` | case_study/pmdk/btree_map_performance_fixed.c:341-366 | taking from the left repairs the shape, and keeps the contents if and only if the items behind the separator are the old ones |
| `BTreeRepair.AfterRotateLeft` | case_study/pmdk/btree_map_performance_fixed.c:341-366 | the changed cells represent the rotated tree; its contents are the old ones exactly when the front key is not 0 or the overwriting makes no difference |
| `BTreeRepair.DistinctKeysNeverClobber` | case_study/pmdk/btree_map_performance_fixed.c:261-270 | with strictly increasing keys the overwriting case does not arise |
| `BTreeRemoval.ZeroOnceNeverClobbers` | case_study/pmdk/btree_map_performance_fixed.c:261-270 | one item with key 0 is not enough for the overwriting case, at any height |
| `BTreeRepair.ZeroKeyIsOverwritten` | case_study/pmdk/btree_map_performance_fixed.c:261-270 | a sorted tree in a pool that meets all that the repair asks for, and whose contents no outcome of the repair has: the item with key 0 in front of the right leaf is lost and a dead cell becomes live |
| `PersistentBTree.BTreeMap.Merge` | case_study/pmdk/btree_map_performance_fixed.c:372-408 | the node takes the separator and its neighbour, which is freed; an emptied root is freed and replaced by the node |
| `BTreeRepair.MergedIsGood` | case_study/pmdk/btree_map_performance_fixed.c:372-408 | merging keeps the contents and the heights, takes one item from the parent, and meets the minimum |
| `BTreeRepair.AfterMerge` | case_study/pmdk/btree_map_performance_fixed.c:372-408 | the changed cells represent the merged tree, or its only kid when the root was emptied |
| `BTreeRepair.MergedOids` | case_study/pmdk/btree_map_performance_fixed.c:372-408 | the merged tree uses all objects but the one of the right neighbour, which is freed |
| `PersistentBTree.BTreeMap.Rebalance` | case_study/pmdk/btree_map_performance_fixed.c:414-430 | for every underfull kid and all sizes of its neighbours, the right neighbour gives an item if it can spare one, else the left one, else the kid is joined with its right neighbour, or with the left one if it is the last; every kid reaches the minimum, heights are kept, exactly the objects no longer used are freed, and the contents are kept exactly when no item with key 0 is overwritten |
| `PersistentBTree.BTreeMap.Remove` | case_study/pmdk/btree_map_performance_fixed.c:524-534 | from any well-formed map with at most one key 0, one item with the key goes and its value is returned, or nothing changes and null is returned if there is none; all other items stay in order and all leaves at one depth; every object that is no longer used is freed and no other; the map stays well-formed if and only if the removal does not lapse, which is a condition on the map before the call |
| `PersistentBTree.BTreeMap.RemoveItem` | case_study/pmdk/btree_map_performance_fixed.c:496-513 | the search finds an item with the key wherever it is, and nothing changes when there is none |
| `PersistentBTree.BTreeMap.RemoveFromKid` | case_study/pmdk/btree_map_performance_fixed.c:507-516 | the same through a kid, which is repaired exactly when it is left one item short |
| `PersistentBTree.BTreeMap.RemoveFromNode` | case_study/pmdk/btree_map_performance_fixed.c:450-484 | an item of a leaf goes, and an item of an inner node gives way to its successor, at any height |
| `PersistentBTree.BTreeMap.RemoveWithLeaf` | case_study/pmdk/btree_map_performance_fixed.c:470-483 | the successor comes from a leaf further down, and only that leaf is repaired |
| `PersistentBTree.BTreeMap.GetLeftmostLeaf` | case_study/pmdk/btree_map_performance_fixed.c:435-445 | the first leaf below a node and the parent of that leaf |
| `PersistentBTree.BTreeMap.RebalanceIfDeficient` | case_study/pmdk/btree_map_performance_fixed.c:514-516 | a node one item short is repaired, any other is left alone, and the contents are kept |
| `BTreeRemoval.CellRemovedStores` | case_study/pmdk/btree_map_performance_fixed.c:455-467 | whatever the branch for the last cell or the shift, the live cells are those without the item |
| `BTreeRemoval.SuccessorMoved` | case_study/pmdk/btree_map_performance_fixed.c:470-479 | replacing an item by the first one of the next kid, and dropping that one there, drops just the item |
| `BTreeRemoval.LeafParentContents` | case_study/pmdk/btree_map_performance_fixed.c:435-445 | dropping the first item at the left edge drops the first item of the whole subtree |
| `BTreeRemoval.FarOutcome` | case_study/pmdk/btree_map_performance_fixed.c:481-483 | balance is kept, and the tree is short of items if and only if the leaf and its parent had the minimum and the next leaf could not spare one |
| `BTreeRemoval.KidDone` | case_study/pmdk/btree_map_performance_fixed.c:507-516 | what holds of the kid after a removal and a repair holds of the parent |
| `BTreeRemoval.WholeTree` | case_study/pmdk/btree_map_performance_fixed.c:402-407 | an emptied root gives way to its only kid, and the rest is as below |
| `BTreeRemoval.SparseLapses` | case_study/pmdk/btree_map_performance_fixed.c:481-483 | a well-formed tree of height 2 and the key of its root, for which the removal lapses |
| `ReturnDistance.ComputeReturnDistances` | lib/Core/StatsTracker.cpp:865-953 | the loop ends, and each value is the number of instructions on a shortest execution from there until its function returns, calls and recursion included, or 0 if there is none |
| `ReturnDistance.Pass` | lib/Core/StatsTracker.cpp:901-953 | a pass keeps every value attained by an execution; without a change all are settled, with a change the values got strictly lower |
| `ReturnDistance.Update` | lib/Core/StatsTracker.cpp:903-952 | the same for one instruction and the function it is the entry of |
| `ReturnDistance.CostOfCall` | lib/Core/StatsTracker.cpp:908-921 | one more than the shortest path of the cheapest callee that returns, or 0 |
| `ReturnDistance.BestFor` | lib/Core/StatsTracker.cpp:923-936 | no worse than before or than going through any successor, and attained |
| `ReturnDistance.ExecutionsAreNoShorter` | lib/Core/StatsTracker.cpp:865-953 | at a fixpoint, an execution that empties a call stack takes at least the sum of the values along the stack |
| `ReturnDistance.ExecutionsAreRuns` | lib/Core/StatsTracker.cpp:865-953 | the executions that are counted are exactly the runs of a machine with a call stack, move by move |
| `ReturnDistance.Exact` | lib/Core/StatsTracker.cpp:865-953 | a consistent, attained and settled table holds exact shortest distances |
| `ReturnDistance.FunctionsExact` | lib/Core/StatsTracker.cpp:941-950 | a function's shortest path is the value of its entry, a declared function that returns counts 1 |
| `Exprs.MakeRoot` | lib/Core/Memory.cpp:200-249 | moving the longest constant prefix of the writes into a base array changes no value at any index under any assignment |
| `Exprs.UpdatesAreReplayed` | lib/Core/Memory.cpp:200-249 | reading newest first is replaying the writes oldest first |
| `Exprs.CreateRead` | lib/Expr/Expr.cpp:534-573 | skipping writes that cannot match and returning a value that must match gives the value of the plain read |
| `Exprs.BytesRoundTrip` | lib/Core/Memory.cpp:517-644 | a number below 256 to the n is its n bytes put together again |
| `Exprs.ByteIsDigit` | lib/Core/Memory.cpp:589-644 | byte i of a number is its digit i to the base 256 |
| `Exprs.DigitsOfBytes` | lib/Core/Memory.cpp:517-560 | the digits of bytes put together are the bytes |
| `ObjectRuns.RunAccesses` | lib/Core/Memory.cpp:416-644 | any run of reads and writes of any width, byte order, constant or symbolic offset gives, under every assignment that stays inside, the memory and the answers of a plain byte array |
| `ObjectRuns.ReadFollows` | lib/Core/Memory.cpp:517-560 | a value read is the bytes of the plain array put together, which does not change |
| `ObjectRuns.WriteFollows` | lib/Core/Memory.cpp:562-644 | a value written replaces exactly its bytes in the plain array |
| `ObjectRuns.PlainWriteLaysOut` | lib/Core/Memory.cpp:562-644 | the plain array after a write holds the digits of the value in the byte order, and is otherwise the same |
| `ObjectRuns.PlainReadDigits` | lib/Core/Memory.cpp:517-560 | digit k of a plain read is the byte that the byte order says |
| `ObjectRuns.PlainReadOneByteMore` | lib/Core/Memory.cpp:517-560 | the byte at the low end has weight 1, and the others are a value in themselves |
| `ObjectRuns.SaveThenLoad` | lib/Core/Memory.cpp:517-644 | a read gives the value last written to the same bytes |
| `ObjectRuns.LoadElsewhere` | lib/Core/Memory.cpp:517-644 | a write to other bytes does not show in a read |
| `SymbolicObject.ObjectState.constructor` | lib/Core/Memory.cpp:110-129 | a concrete object of zeros meets the cache invariants |
| `SymbolicObject.ObjectState.Symbolic` | lib/Core/Memory.cpp:132-146 | a symbolic object reads as its array |
| `SymbolicObject.ObjectState.MakeSymbolic` | lib/Core/Memory.cpp:276-286 | afterwards the log alone gives the contents and the cache invariants hold |
| `SymbolicObject.ObjectState.MakeConcrete` | lib/Core/Memory.cpp:267-274 | afterwards every byte is the concrete one |
| `SymbolicObject.ObjectState.InitializeToZero` | lib/Core/Memory.cpp:288-291 | every byte reads 0 under every assignment |
| `SymbolicObject.ObjectState.GetUpdates` | lib/Core/Memory.cpp:200-249 | gives the log its array and leaves every byte as it was |
| `SymbolicObject.ObjectState.FlushRangeForRead` | lib/Core/Memory.cpp:316-334 | all bytes are in the log afterwards and none changed |
| `SymbolicObject.ObjectState.FlushRangeForWrite` | lib/Core/Memory.cpp:336-364 | all bytes are in the log and in no cache afterwards, and none changed |
| `ObjectCells.FlushedKeepsBytes` | lib/Core/Memory.cpp:316-334 | flushing one byte keeps all bytes and the cache invariants |
| `ObjectCells.DroppedKeepsBytes` | lib/Core/Memory.cpp:336-364 | dropping the cache of a flushed byte keeps all bytes and the cache invariants |
| `SymbolicObject.ObjectState.Read8` | lib/Core/Memory.cpp:416-427 | the byte of the plain array, and no byte changes |
| `SymbolicObject.ObjectState.Read8At` | lib/Core/Memory.cpp:429-444 | the byte at the value of the offset, under every assignment inside, and no byte changes |
| `SymbolicObject.ObjectState.Write8Const` | lib/Core/Memory.cpp:477-484 | one byte of the plain array changes; the cache invariants hold |
| `SymbolicObject.ObjectState.Write8` | lib/Core/Memory.cpp:486-496 | the same for a symbolic value |
| `SymbolicObject.ObjectState.Write8At` | lib/Core/Memory.cpp:498-513 | under every assignment exactly the byte at the value of the offset changes |
| `SymbolicObject.ObjectState.ReadBytes` | lib/Core/Memory.cpp:544-560 | a wide value is its bytes put together, in both byte orders |
| `SymbolicObject.ObjectState.ReadBytesAt` | lib/Core/Memory.cpp:517-542 | the same at a symbolic offset |
| `SymbolicObject.ObjectState.WriteBytes` | lib/Core/Memory.cpp:589-644 | digit k of the value to the base 256 lands k bytes after the start, or (big endian) k bytes before the last byte, and no other byte changes |
| `SymbolicObject.ObjectState.WriteBytesAt` | lib/Core/Memory.cpp:562-587 | the same at a symbolic offset |
| `ObjectCells.WrittenIsLaidOut` | lib/Core/Memory.cpp:589-644 | the bytes written one by one are the digits of the value in the byte order, and the other way round |
| `ObjectCells.ReadDigits` | lib/Core/Memory.cpp:517-560 | digit k of a value that is read is the byte k after the start, or (big endian) k before the last one |
| `ObjectCells.ReadOneByteMore` | lib/Core/Memory.cpp:517-560 | the first byte (little endian) or the last one (big endian) has weight 1, and the others are a value in themselves, whatever the bytes hold |
| `ObjectCells.WriteThenRead` | lib/Core/Memory.cpp:517-644 | reading back a written value gives the value, in both byte orders |
| `PersistenceTracker.PersistentState.constructor` | lib/Core/Memory.cpp:674-736 | a new object is clean and agrees with the reference machine |
| `PersistenceTracker.PersistentState.DirtyCacheLineAtOffset` | lib/Core/Memory.cpp:825-879 | all four lists agree with the reference machine after a store, under all feasible assignments; the write that is skipped when it repeats the newest one changes no answer |
| `PersistenceTracker.PersistentState.PreviousWrites` | lib/Core/Memory.cpp:843-858 | exactly the stores that some feasible assignment has last written to the line without a flush since |
| `PersistenceTracker.PersistentState.PersistCacheLineAtOffset` | lib/Core/Memory.cpp:886-901 | the same after an accepted flush |
| `PersistenceTracker.PersistentState.CommitPendingPersists` | lib/Core/Memory.cpp:903-917 | the same after a fence; true exactly when a flush was recorded since the last one |
| `Persistence.DirtiedAgrees` | lib/Core/Memory.cpp:825-879 | a store makes the line dirty with its writer and touches no other line, in both the pending and the authoritative list |
| `Persistence.PersistedAgrees` | lib/Core/Memory.cpp:886-901 | an accepted flush is seen by the pending list only |
| `Persistence.RedundantFlushAgrees` | lib/Core/Executor.cpp:4089-4115 | leaving out the flush of a line that is not dirty changes no later answer |
| `Persistence.CommittedAgrees` | lib/Core/Memory.cpp:903-917 | a fence makes flushed lines clean and leaves dirty ones dirty |
| `Persistence.SinceLastStore` | lib/Core/Memory.cpp:825-917 | under the reference machine a line is dirty from its last store until it is flushed, and clean from the first fence after that on |
| `Persistence.NeverStored` | lib/Core/Memory.cpp:825-917 | a line that was never stored to is clean |
| `Persistence.WaitingMeans` | lib/Core/Memory.cpp:903-917 | flushes are waiting exactly if one was recorded that no fence follows |
| `Persistence.LastFlushIs` | lib/Core/Memory.cpp:886-901 | the last recorded flush of a line, and the one waiting for a fence, are those of the history |
| `Persistence.HeadsAndLengths` | lib/Core/Memory.cpp:862-917 | the pending list is longer than the authoritative one by the accepted flushes since the last fence |
| `PersistenceTracker.PersistentState.QueryIsExact` | lib/Core/Memory.cpp:919-922 | the query for an offset says clean, or not dirty when pending flushes count, exactly as the reference machine |
| `Persistence.QueryReadsList` | lib/Core/Memory.cpp:1009-1023 | the query expression is true exactly when the list reads 1 for the line |
| `PersistenceTracker.PersistentState.FlushOffset` | lib/Core/Executor.cpp:4089-4115 | a flush is taken for redundant exactly when the line is dirty under no feasible assignment, and only then left out |
| `PersistenceTracker.PersistentState.NonTemporalStore` | lib/Core/Executor.cpp:3912-3922 | every byte of the value dirties its line and then the line of the first byte gets an accepted flush, under all feasible assignments |
| `Persistence.NonTemporalStoreFlushed` | lib/Core/Executor.cpp:3912-3922 | all lines the store touched await a fence if and only if its first and its last byte share a line; a line beyond the first stays dirty |
| `PersistenceTracker.PersistentState.MarkFlushAsBug` | lib/Core/Memory.cpp:936-957 | a redundant flush is one of an unmodified line exactly when no accepted flush of it was ever recorded, under any feasible assignment; else it has earlier flushes to blame |
| `Persistence.LastFlushTells` | lib/Core/Memory.cpp:886-901 | a last flush id of 0 means that no flush of the line was ever accepted |
| `Persistence.GetRootCause` | lib/Core/Memory.cpp:1033-1073 | the enumeration between the least and the largest value finds every feasible id but 0 |
| `PersistenceTracker.PersistentState.LineAnswersMeaning` | lib/Core/Memory.cpp:962-1001 | exact solver answers for a line say whether it is clean everywhere, and which writers left it unpersisted somewhere |
| `PersistenceTracker.PersistentState.GetRootCauses` | lib/Core/Memory.cpp:962-1001 | exactly the last writers of lines that some feasible assignment leaves unpersisted |
| `PersistenceTracker.PersistentState.MarkPersistenceErrors` | lib/Core/Executor.cpp:4235-4257 | root causes are found exactly when some line can be unpersisted, so the assertion on a non-empty set holds |
| `PersistenceTracker.PersistentState.AllPersistedMeaning` | lib/Core/Executor.cpp:4235-4257 | asking about an arbitrary offset inside the object is asking about every line |
| `PersistenceTracker.OffsetInSomeLine` | lib/Core/MemoryManager.cpp:287-291 | the number of lines covers every offset |
| `PersistenceTracker.LineHasOffset` | lib/Core/MemoryManager.cpp:287-291 | no line is beyond the object |
| `PersistenceTracker.ExecuteFence` | lib/Core/Executor.cpp:4210-4233 | commits every persistent object; unnecessary exactly when none had an accepted flush or a non-temporal store waiting |
| `CopyOnWrite.AddressSpaces.Run` | lib/Core/AddressSpace.cpp:22-50 | over every run of forks, binds, unbinds and writes, each space reads what it would if nothing were ever shared |
| `CopyOnWrite.AddressSpaces.ForkSpace` | lib/Core/AddressSpace.h:70-81 | the copy reads the same, and no object is owned by either space any more |
| `CopyOnWrite.AddressSpaces.BindObject` | lib/Core/AddressSpace.cpp:22-26 | the new object is owned by this space alone, and no other space reads differently |
| `CopyOnWrite.AddressSpaces.UnbindObject` | lib/Core/AddressSpace.cpp:28-30 | only this space loses the object |
| `CopyOnWrite.AddressSpaces.GetWriteable` | lib/Core/AddressSpace.cpp:38-50 | gives an object state this space owns alone: the bound one if it is owned, else a new copy; changes no reading |
| `CopyOnWrite.AddressSpaces.WriteObject` | lib/Core/AddressSpace.cpp:38-50 | a write shows in its own space and in no other |
| `CopyOnWrite.ForkIsolated` | lib/Core/AddressSpace.h:70-81 | moving both spaces on to a new key keeps: owner keys are at most the space's key, and an owned object is in no other space |
| `CopyOnWrite.BindIsolated` | lib/Core/AddressSpace.cpp:22-26 | binding an object that no space has bound keeps the isolation |
| `CopyOnWrite.WriteInPlace` | lib/Core/AddressSpace.cpp:38-50 | writing in place to an owned object changes what one space reads |
| `CopyOnWrite.EffectShows` | lib/Core/AddressSpace.cpp:22-50 | what every space finds under every object after a fork, bind, unbind or write of one space |
| `CopyOnWrite.OthersDoNotShow` | lib/Core/AddressSpace.cpp:22-50 | over any run, a space that no bind, unbind or write names keeps all it reads |
| `CopyOnWrite.LastWriteShows` | lib/Core/AddressSpace.cpp:38-50 | an object reads as it was last written in its space, whatever other spaces do in between |
| `PointerResolution.Resolve` | lib/Core/AddressSpace.cpp:197-277 | a complete answer lists exactly the objects some feasible value falls in; an incomplete one has reached a limit of at least 2; no object is listed twice either way |
| `PointerResolution.SearchDown` | lib/Core/AddressSpace.cpp:233-254 | the downward search may stop early without missing an object |
| `PointerResolution.SearchUp` | lib/Core/AddressSpace.cpp:256-273 | the upward search may stop early without missing an object |
| `PointerResolution.CheckPointerInObject` | lib/Core/AddressSpace.cpp:163-195 | adds the object exactly if it can be hit; complete only on a single object that holds all values |
| `PointerResolution.LimitOfOneIsIgnored` | lib/Core/AddressSpace.cpp:180-191 | what is listed keeps within a limit if and only if the limit is 2 or more or at most one object can be hit |
| `PointerResolution.TwoListedDespiteLimit` | lib/Core/AddressSpace.cpp:180-191 | two neighbouring objects that are both listed under a limit of 1 |
| `PointerResolution.ResolveOneSymbolic` | lib/Core/AddressSpace.cpp:73-161 | finds an object that can be hit and fails exactly when there is none; the non-empty object an example lies in is taken at once |
| `PointerResolution.FindDown` | lib/Core/AddressSpace.cpp:108-130 | the downward search may stop early without missing an object |
| `PointerResolution.FindUp` | lib/Core/AddressSpace.cpp:132-156 | the upward search may stop early without missing an object |
| `PointerResolution.ResolveOneIsExact` | lib/Core/AddressSpace.cpp:54-71 | a constant address resolves to the one object that contains it, and fails exactly when there is none |
| `PointerResolution.BoundsCheckIsContains` | lib/Core/Memory.h:127-141 | the subtract-and-compare check on wrapping 64-bit numbers is membership in the object |
| `PointerResolution.ResolveRange` | lib/Core/AddressSpace.cpp:279-369 | lists, once each, exactly the objects that have an address in common with every feasible range (an empty object has to lie strictly inside), despite both early exits |
| `PointerResolution.OverlapsIsMeets` | lib/Core/AddressSpace.cpp:283-288 | the comparison of the ends holds exactly when range and object have an address in common, and for an empty object when it lies strictly inside |
| `PointerResolution.ConstantRangeIsExact` | lib/Core/AddressSpace.cpp:302-369 | with constant bounds exactly the objects that have an address in the range are listed |
| `PointerResolution.RangeListsAllOverlaps` | lib/Core/AddressSpace.h:117-128 | all objects a feasible range could meet are listed if and only if the feasible ranges meet the same objects |
| `PointerResolution.RangeMissesPossibleOverlap` | lib/Core/AddressSpace.h:117-128 | a pointer to one of two cache lines and an object that fills the first: the object is not listed |
| `DeterministicAllocator.MemoryManager.Allocate` | lib/Core/MemoryManager.cpp:103-162 | a new aligned object behind all others with a redzone between, inside the space; fails exactly on a refused empty object, a wrong alignment or lack of space, and then changes nothing |
| `DeterministicAllocator.MemoryManager.AllocateContiguous` | lib/Core/MemoryManager.cpp:183-254 | objects side by side from a page boundary, apart from all others by a redzone, or nothing |
| `DeterministicAllocator.MemoryManager.MarkFreed` | lib/Core/MemoryManager.cpp:259-265 | freeing keeps the others placed and separated, and gives no address out again |
| `DeterministicAllocator.MemoryManager.ObjectsAreOrdered` | lib/Core/MemoryManager.cpp:103-254 | over every run the objects are in order and disjoint, which is what resolution relies on |
| `DeterministicAllocator.AlignToIsLeast` | lib/Core/MemoryManager.cpp:124-127 | rounding up gives the least aligned address |
| `DeterministicAllocator.PowersOfTwo` | lib/Core/MemoryManager.cpp:116-119 | the alignments that are accepted are the powers of two |
| `DeterministicAllocator.RowObject` | lib/Core/MemoryManager.cpp:183-254 | each object of a row has the size asked for and starts where the one before ends |
| `StateMerge.ExecutionState.Merge` | lib/Core/ExecutionState.cpp:169-328 | merges exactly when program counters, symbolics, calls and bound objects agree; then an assignment satisfies the merged constraints iff it satisfies those of either state, and locals and bytes are those of the state it satisfies; registers not bound in both and object states that are shared stay; else nothing changes |
| `StateMerge.ExecutionState.FindMutated` | lib/Core/ExecutionState.cpp:244-270 | finds exactly the positions whose object states differ, if the memory objects agree |
| `StateMerge.ExecutionState.SameCalls` | lib/Core/ExecutionState.cpp:181-193 | true exactly when the stacks have the same callers and functions |
| `StateMerge.MergeFrame` | lib/Core/ExecutionState.cpp:287-302 | each local bound in both states is the one of the state whose condition holds, all others are left alone |
| `StateMerge.MergeBytes` | lib/Core/ExecutionState.cpp:304-319 | each byte is the one of the state whose condition holds |
| `StateMerge.Conjoin` | lib/Core/ExecutionState.cpp:274-281 | the conjunction holds exactly under the assignments that satisfy all constraints |
| `StateMerge.UnionOfPaths` | lib/Core/ExecutionState.cpp:195-207 | the common constraints and one of the two rests hold exactly when one of the two paths does |
| `StateMerge.AddConstraintMeaning` | lib/Expr/Constraints.cpp:128-166 | splitting a conjunction while adding it keeps the meaning |
| `RootCauses.RootCauseManager.GetNewId` | lib/Core/RootCause.cpp:162-175 | the first unused id from the hash on |
| `RootCauses.RootCauseManager.GetRootCauseLocationID` | lib/Core/RootCause.cpp:213-274 | one id per location; a new one masks exactly the given ids and all they mask, with no occurrences; all other ids keep what they mask, their locations and their counts; locations and ids stay inverse, masked sets stay transitive and point to earlier ids, the masking roots stay the exact converse |
| `RootCauses.GetAllMaskedIDs` | lib/Core/RootCause.cpp:199-211 | the recursion ends because masked ids are older, and collects the ids with all they mask |
| `RootCauses.WithRootClosed` | lib/Core/RootCause.cpp:213-274 | a new root over a flattened set keeps the masking relation transitive, well-founded and converse to its inverse |
| `RootCauses.WithRootAdds` | lib/Core/RootCause.cpp:213-274 | an id is masked by the new root if and only if it is given or some given one masks it; nothing else changes |
| `RootCauses.FlattenedIsOneLevel` | lib/Core/RootCause.cpp:199-211 | flattening the masked set of an id gives that set back |
| `RootCauses.RootCauseManager.MarkAsBug` | lib/Core/RootCause.cpp:276-315 | one occurrence for the id and for each id it masks; those with an unpersisted or semantic correctness reason count as correctness and all others as performance; totals equal the sums over ids, and the buggy ids are those with occurrences |
| `RootCauses.OneMoreCounted` | lib/Core/RootCause.cpp:276-315 | the counters of occurrences and of unique bugs stay exact, in total and for each kind, when one id is counted |
| `CallPaths.CallPathManager.GetCallPath` | lib/Core/CallPathManager.cpp:74-89 | the answer is the node with the key on the parent's chain or else a child, a new one exactly when there was neither; keys never repeat on a chain |
| `CallPaths.CallPathManager.ComputeCallPath` | lib/Core/CallPathManager.cpp:61-72 | the node with the key on the chain, or a new child and nothing else |
| `CallPaths.CallPathManager.Record` | lib/Core/StatsTracker.cpp:381-392 | counting a call keeps the shape of the path tree |
| `CallPaths.RecordedShowsBelow` | lib/Core/StatsTracker.cpp:381-392 | an amount shows once in the sum of every path on the chain, and in no other |
| `CallPaths.RecordedShowsInTable` | lib/Core/StatsTracker.cpp:381-392 | calls show in the table for the path's own key, and an amount for every key on its chain |
| `CallPaths.AnswerUnique` | lib/Core/CallPathManager.cpp:74-89 | there is at most one answer, so a remembered one is the one that would be computed |
| `CallPaths.CallPathManager.GetSummaryStatistics` | lib/Core/CallPathManager.cpp:44-59 | every path gets the sum over its subtree; a table entry counts all calls of its key, and every node below that key exactly once |
| `CallPaths.Summarize` | lib/Core/CallPathManager.cpp:44-59 | the single pass from the last path to the first computes both, and adds the whole tree to what the root had |
| `CallPaths.GatheredOneMore` | lib/Core/CallPathManager.cpp:52-54 | adding a path to its parent adds exactly its subtree, which was not there yet |
| `CallPaths.BelowKeyOneMore` | lib/Core/CallPathManager.cpp:56-58 | because no key repeats on a chain, the subtrees of two paths with one key are disjoint |
| `Scheduler.StepKeepsLive` | lib/Core/ExecutionState.cpp:356-415 | from a live state an operation fails an assertion exactly on a reused thread id or a waiting list 0; a thread is disabled exactly when it is in the list it names, and no empty list is kept |
| `Scheduler.RunKeepsLive` | lib/Core/ExecutionState.cpp:356-415 | the same for every state any run reaches |
| `Scheduler.NotifyOneWakes` | lib/Core/SpecialFunctionHandler.cpp:1449-1470 | exactly the thread with the least id in the list is enabled and leaves the list, which goes when it is empty; all else stays, and without such a list everything does |
| `Scheduler.NotifyAllWakes` | lib/Core/ExecutionState.cpp:401-415 | exactly the threads of the list are enabled, the list goes and all else stays |
| `Scheduler.CreateAdds` | lib/Core/ExecutionState.cpp:356-365 | one more thread, enabled, and nothing else |
| `Scheduler.PreemptMovesOn` | lib/Core/Executor.cpp:4303-4332 | the enabled thread with the next larger id goes on, or the one with the least if there is none larger; nothing else changes |
| `Scheduler.SleepWaits` | lib/Core/ExecutionState.cpp:376-383 | exactly the current thread is disabled and goes into the list, and the next enabled one goes on |
| `Scheduler.ExitRemoves` | lib/Core/Executor.cpp:4357-4380 | exactly the current thread goes, and the next enabled one goes on |
| `Scheduler.LastExitEnds` | lib/Core/Executor.cpp:4357-4380 | the state ends exactly when the only thread exits |
| `Scheduler.FirstIsNext` | lib/Core/Executor.cpp:4316-4324 | the first id in cyclic order is the next larger one, or the least |
| `Scheduler.ExitLive` | lib/Core/Executor.cpp:4357-4380 | the assertions on exit hold: the exiting thread is not chosen, is disabled and waits in no list |
| `Scheduler.HangIsDeadlock` | lib/Core/Executor.cpp:4304-4314 | a hang is reported exactly when the current thread sleeps or exits while every other thread is in a waiting list |
| `Scheduler.Fair` | lib/Core/Executor.cpp:4316-4324 | without new threads, an enabled thread is chosen at the latest after one schedule for each thread ahead of it |
| `Scheduler.ChosenInTime` | lib/Core/Executor.cpp:4316-4324 | within as many schedules as there are threads |
| `Scheduler.StepApproaches` | lib/Core/Executor.cpp:4316-4324 | no other thread's operation disables an enabled thread, and each schedule chooses it or passes a thread ahead of it |
| `Scheduler.ExecutionState.constructor` | lib/Core/ExecutionState.cpp:51-57 | one enabled thread, current, and no waiting list |
| `Scheduler.ExecutionState.Schedule` | lib/Core/Executor.cpp:4303-4332 | fails exactly when no thread is enabled, else moves to the first enabled thread after the current one in cyclic order; the search ends |
| `Scheduler.ExecutionState.NextThread` | include/klee/ExecutionState.h:167-173 | no thread lies between, in cyclic order |
| `Scheduler.ExecutionState.GetWaitingList` | include/klee/ExecutionState.h:178-178 | a list id that is positive and was not given out before |
| `Scheduler.ExecutionState.CreateThread` | lib/Core/ExecutionState.cpp:356-365 | adds an enabled thread that waits for nothing |
| `Scheduler.ExecutionState.NotifyAllThreads` | lib/Core/ExecutionState.cpp:401-415 | exactly the threads of the list are enabled, and the list goes |
| `Scheduler.ExecutionState.ExecuteThreadExit` | lib/Core/Executor.cpp:4357-4380 | ends the state for the last thread, reports a hang if no other is enabled, else goes on without the thread |
| `Scheduler.ExecutionState.HandleThreadSleep` | lib/Core/SpecialFunctionHandler.cpp:1422-1435 | sleeping and scheduling in one step |
| `Scheduler.ExecutionState.HandleThreadNotify` | lib/Core/SpecialFunctionHandler.cpp:1437-1474 | one notification wakes the thread with the least id in the list, and an empty list leaves no trace |
| `Scheduler.ExecutionState.Perform` | lib/Core/SpecialFunctionHandler.cpp:1409-1474 | every thread operation does what the step function says, so all that is proved of runs holds of the updated state |
| `ProcessTrees.PTree.constructor` | lib/Core/PTree.cpp:20-22 | one leaf with the initial state |
| `ProcessTrees.PTree.Attach` | lib/Core/PTree.cpp:24-30 | leaves and live states stay in one-to-one correspondence; the two states' words are the old one with true and false appended, all others keep theirs |
| `ProcessTrees.PTree.Remove` | lib/Core/PTree.cpp:32-46 | the upward loop removes this state's leaf and every node left without children; all other nodes stay as they are; the words of the states across its last fork lose that flip and all others stay |
| `ProcessTrees.CutWords` | lib/Core/PTree.cpp:32-46 | cutting a leaf off a fork takes the flip of that fork out of exactly the words that go through it |
| `ProcessTrees.DetachedKeeps` | lib/Core/PTree.cpp:34-45 | one step of that loop leaves at most one node without children and state, the next one to go |
| `ProcessTrees.PTree.SelectState` | lib/Core/Searcher.cpp:274-293 | the descent ends at a live state: the only one whose word is a prefix of the coin flips |
| `ProcessTrees.RightTurn` | lib/Core/Searcher.cpp:277-290 | the flips keep to the way of every state whose word agrees with them |

## Left out

- PersistentBTree.BTreeMap.Remove: asks for at most one key 0, because with two the repair it calls can lose an item, and for a root, which the source dereferences; runs of removals after one that lapsed are not followed.
- B-tree `clear`, `foreach`, and the transactions and undo logging of PMDK.
- The two B-tree shifts that read one cell past the live ones (lines 399-400 and 460-463): the model moves live cells only.
- BTreePool.Represents: objects live in a map from ids to nodes, not in separately allocated heap objects.
- CopyOnWrite.AddressSpaces: object states are entries of a store map, so sharing between spaces is sharing of a key; Dafny object aliasing is not used.
- SymbolicObject.ObjectState.constructor: the option that starts a concrete object from a named array instead of constant arrays is not modelled.
- Reads and writes of the one-bit width, `flushToConcreteStore`, and the printing of objects.
- PersistenceTracker.PersistentState.DirtyCacheLineAtOffset: store and flush ids are non-zero; the call that hands the earlier writes to the root-cause store is not made.
- The ignore-byte stack, `flushAll`, and flushes at symbolic addresses that fork the state.
- StateMerge.AddConstraintMeaning: does not model rewriting of earlier constraints by an added equality, because it depends on the expression simplifier.
- StateMerge.ExecutionState.Merge: one thread and no persistent objects.
- Solver timeouts and failures: every answer is exact.
- PointerResolution.Resolve: the time limit, which makes an answer incomplete, is not modelled.
- PointerResolution.ResolveRange: neither the time limit nor a limit on the number of results is modelled.
- DeterministicAllocator.MemoryManager.Allocate: the space ends at or below 2 to the 64 and sums of addresses and sizes do not wrap around; the branch that calls `malloc` is not modelled.
- RootCauses.RootCauseManager.GetNewId: the hash of the location, time stamps and the recorded largest stack are not modelled.
- Scheduler.Fair: the bound does not hold when threads are created meanwhile, and none is claimed then.
- `minDistToUncovered`, the persistent-memory heuristics and their path searcher, implied values, the instruction interpreter, external calls, seeding, the custom checkers, statistics output and test files: foreign tables, input and output, or thin dispatch.
