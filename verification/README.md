# FrankenFS in Dafny

A model of the parts of FrankenFS whose correctness rests on an argument rather than on one
function body: the multi-version store, the allocation bitmaps, the sandbox's system-call
filter, and the protocols of the measuring and inspection scripts. Each part is modelled in the
form the program has it (loops and in-place updates as methods, objects as classes, pure rules as
functions) and proved against an independent statement of what it is for.

`dafny verify dfyconfig.toml` checks everything. Nothing here runs the original program.

## The parts

| part | files | main results |
|---|---|---|
| Multi-version store | `MvccChain`, `MvccMerge`, `MvccSpec`, `MvccCommit`, `MvccPreflight`, `MvccStore` | no committed update is lost; exactly when a transaction commits, exactly what each merge accepts and exactly which versions pruning and the cap drop; same-block merges are the unique three-way merge and do not depend on order; the class does exactly what the state machine says |
| Readers | `MvccReaders` | snapshot isolation for whoever holds a snapshot; references are conserved; exactly when a commit takes one away and exactly when a view survives a run |
| Serializability | `MvccSsi`, `MvccEffect`, `MvccReplay`, `MvccAnomalies` | a history the two-edge check admits, merged writers included, has a serial order that respects its dependencies if and only if no cycle passes one of two kinds of place the check misses; exactly when a serializable commit goes through; over every run of the store such an order, replayed, shows each transaction the bytes it read and leaves every block as the store has it; for each kind of place, a run that no order explains |
| Device below the store | `MvccDevice`, `MvccMount` | coalesced flushing equals writing block by block, in maximal runs; over every run, flushes cut short included, each block is as some commit since the last completed flush left it, and a completed flush makes the device exactly the history; when a flush disturbs an older reader; no update is lost over evicted chains |
| Allocation bitmaps | `AllocBitmap`, `AllocProperties` | the reference searches are complete exactly up to a saturation bound; claiming conserves free bits; draining hands out every free bit once |
| Word-at-a-time bitmaps | `WordBits`, `AllocFast`, `AllocRuns`, `AllocLargest` | the fast searches return what the reference returns, with the exact exceptions |
| System-call filter | `Bpf`, `Seccomp` | the compiled program, and the bytes emitted for it, decide every call as the policy does |
| Random source | `SplitMix` | the output function is invertible and one period visits every word once |
| Traces | `Trace`, `TraceFlush`, `TraceReads` | totals do not depend on how threads interleave or calls are split; every byte and every read is accounted for |
| Load gates | `LoadGates` | streaming counters are longest runs; the storm rule lies between the two strict rules; when a run is aborted |
| NTFS | `NtfsBytes`, `NtfsFixup`, `NtfsWalk`, `NtfsList` | the fixup and its protection invert each other; exactly which records and lists are accepted |
| Sandbox output | `Capture` | what is kept is a prefix within the budget, and each reason says exactly what was lost |
| Space information | `SpaceInfo` | the retry protocol against any sequence of counts |
| Performance ledger | `Ledger` | rows are exactly those their lines start; appending re-lints no old row; when a span misses a line |

`Wrappers` holds the option type, `Orders` lists without repetitions and sorting by rank.

What a serial order must reproduce is said in bytes (`MvccEffect`): a write staged without a merge
proof sets its block; an in-place proof sets the bits in which the staged bytes differ from the content
at the snapshot; an append puts its tail after what is there. Two writers of a block need not keep their
commit order only if both changed it in place and in different bits.

## Where the code and its description part

These are properties the code's own words suggest and the model shows not to hold in general. In
each case the code is modelled as it is, a lemma gives a concrete instance, and another says
exactly when the property does hold.

- The free-bit search gives up when a word or block read would cross the end of the bitmap, and
  so misses backed bytes behind it (`AllocFast.FastFreeMatchesModelExactlyWhen`,
  `AllocFast.FastFreeMissesABackedByte`).
- The contiguous search's second pass ends at a saturated position, so near the top of the 32-bit
  range it can miss a run (`AllocProperties.SearchIsCompleteExactlyWhen`,
  `AllocProperties.SearchMissesLastRun`), and the fast form's index arithmetic leaves the 32-bit range
  there (`AllocRuns.FastRunsOverflowExactlyWhen`, `AllocRuns.FastRunsOverflow`).
- The base recorded with a staged write reaches only the preflight; the install phase resolves the
  block again without it (`MvccCommit.RecordedBaseIsIgnoredAtInstall`,
  `MvccCommit.PreflightDecidesExactlyWhen`, `MvccCommit.PreflightAndInstallDisagree`).
- The watermark is described as safe for every active reader, but chain pressure, on by default, takes
  references from readers that still hold them (`MvccReaders.ForcedReaderLosesItsView`,
  `MvccReaders.ForcesExactlyWhen`, `MvccReaders.ViewSurvivesExactlyWhen`).
- A reader forced out that way gives back, when it lets go, the reference of another reader of the same
  snapshot (`MvccReaders.LateReleaseUnregistersAnother`, `MvccReaders.ReleaseKeepsOthersExactlyWhen`).
- An empty range sorted just after a non-empty one with the same start passes the overlap test but
  makes the walk slice backwards (`MvccMerge.FaultsExactlyWhen`, `MvccMerge.ReversedExactlyWhen`,
  `MvccMerge.EmptyRangeDefeatsTheWalk`).
- `commit_ssi` is described as serializable snapshot isolation, but only a pivot whose two neighbours
  have already committed is caught, and writers of a shared block are not looked at: a merge over an
  unseen whole-block write, an unseen append, or a merge into bits that were changed and changed back
  can each leave bytes that no serial order explains (`MvccAnomalies.ReadOnlyAnomaly`,
  `MvccAnomalies.MergeSkew`, `MvccAnomalies.AppendSkew`, `MvccAnomalies.RevertSkew`,
  `MvccSsi.SerializableExactlyWhen`, `MvccSsi.PairsCycleExactlyWhen`).
- A flush cut short leaves the device in the state of no commit (`MvccMount.TornFlushIsNoState`,
  `MvccMount.InterruptIsStateExactlyWhen`); the next completed flush repairs it, as the source says
  (`MvccDevice.RetryCompletes`, `MvccMount.FlushSyncs`).
- A run of versions of the wrong size whose bytes add up is written without an error, shifted
  (`MvccDevice.WrongSizesShiftBytes`, `MvccDevice.RunsComeApartExactlyWhen`).
- A flush writes the newest version home whatever older snapshots are registered; a reader whose
  snapshot has no version of the block then reads the newer bytes
  (`MvccMount.FlushKeepsViewExactlyWhen`, `MvccMount.FlushOvertakesAReader`).
- The third value of the read trace is described as every occurrence of the call; it counts
  beginnings only (`TraceReads.SplitReadIsSeenOnce`, `TraceReads.SeenIsEveryLineExactlyWhen`).
- A ledger row's span is described as the lines the row occupies; table rows inside an entry shift
  it (`Ledger.SpanReachesLastLineExactlyWhen`, `Ledger.SpanMissesALine`).
- A quiet start is meant not to make a run more fragile than a mediocre one; it does unless both starts
  end up with the same limit (`LoadGates.QuietStartIsFragile`,
  `LoadGates.LaunchLoadMattersExactlyWhen`).

## Model

| member | source | states |
|---|---|---|
| `MvccChain.NewestVisibleIndex` | crates/ffs-mvcc/src/lib.rs:870-882 | the bisection finds the last version at or below the snapshot, or that there is none |
| `MvccChain.ReadOfExtend` | crates/ffs-mvcc/src/store.rs:1185-1298 | a pushed version, deduplicated or not, is read from its sequence number on and changes no older read |
| `MvccChain.ReadOfTrim` | crates/ffs-mvcc/src/store.rs:1769-1778 | dropping the front of a chain, its new head made full, is invisible to every snapshot that sees the head |
| `MvccChain.PrunePoint` | crates/ffs-mvcc/src/store.rs:2005-2073 | pruning keeps the newest version at or below the watermark and everything after it |
| `MvccChain.CapPoint` | crates/ffs-mvcc/src/store.rs:1728-1748 | capping drops no more than the cap asks for and the watermark allows |
| `MvccMerge.MergeAddsDelta` | crates/ffs-mvcc/src/lib.rs:483-528 | an accepted in-place merge is the latest content plus what the writer changed, bit for bit |
| `MvccMerge.DeltasCommute` | crates/ffs-mvcc/src/lib.rs:483-528 | two such changes, off any bases, add up to the same bytes in either order |
| `MvccMerge.ThreeWayIsUnique` | crates/ffs-mvcc/src/lib.rs:467-528 | at most one result takes each side's change where it changed and the base elsewhere |
| `MvccMerge.OverlayIsThreeWay` | crates/ffs-mvcc/src/lib.rs:818-833 | overlaying the touched ranges is the three-way merge |
| `MvccMerge.DeltaIsThreeWay` | crates/ffs-mvcc/src/lib.rs:622-645 | the bitmap delta merge is the three-way merge bit by bit |
| `MvccMerge.OrIsDelta` | crates/ffs-mvcc/src/lib.rs:670-704 | an accepted bitmap OR gives the delta merge; what is accepted is said by OrAcceptsExactlyWhen |
| `MvccMerge.MergeIsThreeWay` | crates/ffs-mvcc/src/lib.rs:483-528 | every in-place proof the check accepts yields the three-way merge of base, latest and staged bytes |
| `MvccMerge.MergeOrderIsIrrelevant` | crates/ffs-mvcc/src/lib.rs:467-528 | two accepted writers produce the same bytes in either commit order |
| `MvccMerge.AppendKeepsBothTails` | crates/ffs-mvcc/src/lib.rs:534-558 | an append-only merge keeps the base prefix, the other writer's tail and then its own |
| `MvccMerge.DeltaAcceptsExactlyWhen` | crates/ffs-mvcc/src/lib.rs:622-645 | a bitmap delta is accepted if and only if a three-way merge of the three contents exists |
| `MvccMerge.OrByteAcceptsExactlyWhen` | crates/ffs-mvcc/src/lib.rs:670-704 | given the three-way merge of a byte, the OR check passes exactly when it clears no bit of the base |
| `MvccMerge.OrAcceptsExactlyWhen` | crates/ffs-mvcc/src/lib.rs:670-704 | a bitmap OR is accepted if and only if a three-way merge exists that clears no bit of the base |
| `MvccMerge.AppendAcceptsExactlyWhen` | crates/ffs-mvcc/src/lib.rs:534-558 | an append is accepted if and only if both sides start with the first `baseLen` bytes of the base |
| `MvccMerge.OverlayAcceptsExactlyWhen` | crates/ffs-mvcc/src/lib.rs:711-816 | an overlay is accepted if and only if its ranges are disjoint and fit and a three-way merge exists that is the writer's inside them and the latest content outside |
| `MvccMerge.PlainWritesNeverMerge` | crates/ffs-mvcc/src/lib.rs:483-528 | a write without a proof, or with one about other blocks, never merges |
| `MvccMerge.OverlapsExactlyWhen` | crates/ffs-mvcc/src/lib.rs:711-754 | two ranges overlap exactly when they share a position or one is empty and strictly inside the other |
| `MvccMerge.CheckGaps` | crates/ffs-mvcc/src/lib.rs:755-790 | the cursor loop over the sorted ranges computes the specified walk, its slice fault included |
| `MvccMerge.WalkMeans` | crates/ffs-mvcc/src/lib.rs:755-790 | the walk accepts exactly when nothing outside the ranges changed and none is reversed; a rejection means something did, a fault that one is |
| `MvccMerge.RangesValid` | crates/ffs-mvcc/src/lib.rs:711-816 | the whole check, on any arrangement the sort produces, accepts exactly what the declarative form accepts unless a range is reversed |
| `MvccMerge.SliceableIsNeverReversed` | crates/ffs-mvcc/src/lib.rs:711-841 | no arrangement of ranges without such a pair is reversed |
| `MvccMerge.ReversedExactlyWhen` | crates/ffs-mvcc/src/lib.rs:711-841 | sorted ranges that pass the overlap test are reversed exactly when an empty range follows a non-empty one with its start |
| `MvccMerge.FaultsExactlyWhen` | crates/ffs-mvcc/src/lib.rs:711-816 | ranges that pass the overlap test and fit can make the walk fault over an unchanged block, in some order of equal starts, if and only if an empty one shares its start with a non-empty one |
| `MvccMerge.EmptyRangeDefeatsTheWalk` | crates/ffs-mvcc/src/lib.rs:711-816 | two ranges that pass the overlap test, on which the walk faults over a block nobody changed |
| `MvccSpec.InstallKeepsSnapshots` | crates/ffs-mvcc/src/store.rs:1185-1298 | a commit extends the history and leaves every snapshot at or above the watermark reading what it read |
| `MvccSpec.InstallIsValid` | crates/ffs-mvcc/src/store.rs:1185-1298 | after a commit chains are well formed, end at the last write, and the newest snapshot reads the history |
| `MvccSpec.PruneKeepsSnapshots` | crates/ffs-mvcc/src/store.rs:2005-2073 | pruning changes no read at or above its watermark |
| `MvccSpec.PruneIsValid` | crates/ffs-mvcc/src/store.rs:2005-2073 | pruning keeps the store's invariant |
| `MvccSpec.PruneDropsExactly` | crates/ffs-mvcc/src/store.rs:2005-2073 | what pruning leaves is the newest part of the chain, and a version is dropped if and only if its successor is at or below the watermark |
| `MvccSpec.PruneDropsExactlyEverywhere` | crates/ffs-mvcc/src/store.rs:2005-2073 | the same of every chain, and nothing else changes |
| `MvccSpec.CapDropsExactly` | crates/ffs-mvcc/src/store.rs:1728-1778 | capping leaves the newest part: as many as the cap, or more only because the watermark holds up the next |
| `MvccSpec.InstallChainExactly` | crates/ffs-mvcc/src/store.rs:1185-1298 | an installed chain is the old one with the version pushed, marked as unchanged if deduplication finds it so, then capped |
| `MvccSpec.InstallsExactly` | crates/ffs-mvcc/src/store.rs:1185-1298 | an install does so for every block written, leaves every other chain and steps the number |
| `MvccCommit.PreflightKeepsHistory` | crates/ffs-mvcc/src/store.rs:1056-1171 | the preflight changes snapshot references at most |
| `MvccCommit.AbortInstallsNothing` | crates/ffs-mvcc/src/store.rs:847-855 | an aborted commit leaves the history and every chain alone |
| `MvccCommit.InstalledBytesAreMerged` | crates/ffs-mvcc/src/store.rs:1185-1353 | a conflicting write installs the three-way merge of snapshot, latest and staged content, or its own tail after the latest |
| `MvccCommit.CommittedEntry` | crates/ffs-mvcc/src/store.rs:1185-1298 | a commit installs for each block exactly the bytes resolved for it |
| `MvccCommit.CommitLosesNoUpdate` | crates/ffs-mvcc/src/store.rs:847-855 | every committed write, whatever its proof, is a first committer's or is joined with what was committed meanwhile |
| `MvccCommit.CommitAddsItsChange` | crates/ffs-mvcc/src/store.rs:1185-1298 | an in-place write that keeps the block's size adds what it changed to the current content |
| `MvccCommit.StrictMeansFirstCommitter` | crates/ffs-mvcc/src/store.rs:926-964 | under the strict policy nothing written since the snapshot is overwritten |
| `MvccCommit.RecordedBaseIsIgnoredAtInstall` | crates/ffs-mvcc/src/store.rs:880-964 | a write the preflight accepts is installed if and only if the block is not contended, had a version at the snapshot, or the recorded base makes no difference |
| `MvccCommit.PreflightDecidesExactlyWhen` | crates/ffs-mvcc/src/store.rs:1056-1353 | under one policy a transaction that passes its preflight commits if and only if that holds of all its blocks |
| `MvccCommit.PreflightAndInstallDisagree` | crates/ffs-mvcc/src/store.rs:880-964 | an instance the preflight accepts and the install phase refuses |
| `MvccCommit.StepKeeps` | crates/ffs-mvcc/src/store.rs:2082-2240 | every operation keeps the invariant, only extends the history, and keeps registered snapshots intact |
| `MvccPreflight.ForceTakesOldest` | crates/ffs-mvcc/src/store.rs:1547-1563 | a forced advance takes the oldest of all references held, one, and no other |
| `MvccPreflight.BlockedExactlyWhen` | crates/ffs-mvcc/src/store.rs:1571-1665 | a chain cannot be trimmed if and only if some reference held is older than its second version |
| `MvccPreflight.PressureExactlyWhen` | crates/ffs-mvcc/src/store.rs:1571-1665 | one block under pressure: nothing happens if no reference holds up its over-long chain, one is taken if one does, and the commit is refused after taking one if more do |
| `MvccPreflight.PreflightPassesExactlyWhen` | crates/ffs-mvcc/src/store.rs:1056-1171 | the preflight passes if and only if each block in order is compatible and held up by at most one reference more than a block before it; the references it takes are those that held up the worst block; a refusal names the first block that fails and why |
| `MvccPreflight.CommitsExactlyWhen` | crates/ffs-mvcc/src/store.rs:847-855 | said of the history: a transaction commits if and only if its id and the next number are in range, every block is unchanged since its snapshot or can be merged under both policies, and its over-long chains are not held up too much |
| `MvccPreflight.AbortSaysWhy` | crates/ffs-mvcc/src/store.rs:847-855 | the reason given for an abort holds of the block it names |
| `MvccPreflight.PruneKeepsExactlyTheWanted` | crates/ffs-mvcc/src/store.rs:2199-2240 | pruning keeps of every chain exactly the newest version and those whose successor some registered snapshot cannot see |
| `MvccPreflight.CommitCapsExactly` | crates/ffs-mvcc/src/store.rs:1185-1298 | a chain a commit wrote is within its cap, or a registered snapshot cannot see its second version; every version dropped is superseded for every registered snapshot |
| `MvccReaders.ReferencesAreConserved` | crates/ffs-mvcc/src/store.rs:1547-1563 | registering adds one to the holders of a snapshot, releasing takes one, forced advances and everything else none |
| `MvccReaders.ForcesExactlyWhen` | crates/ffs-mvcc/src/store.rs:1571-1665 | a commit, whatever comes of it, takes no reference if and only if none is registered or no block before its first conflict has an over-long chain held up by the oldest snapshot |
| `MvccReaders.SnapshotIsolation` | crates/ffs-mvcc/src/store.rs:1828-1837 | over every run, while registrations outnumber releases and no commit takes a reference away, a snapshot reads every block as it did |
| `MvccReaders.ViewSurvivesExactlyWhen` | crates/ffs-mvcc/src/store.rs:1728-1778 | over any run at all, a snapshot's view survives if and only if no step moves the head of a chain past it |
| `MvccReaders.ForcedReaderLosesItsView` | crates/ffs-mvcc/src/store.rs:1571-1665 | a commit takes a live reader's reference and drops the version it reads |
| `MvccReaders.LateReleaseUnregistersAnother` | crates/ffs-mvcc/src/store.rs:2099-2169 | a forced-out reader's release unregisters another reader of the snapshot |
| `MvccReaders.ReleaseKeepsOthersExactlyWhen` | crates/ffs-mvcc/src/store.rs:2099-2169 | a release leaves other holders registered exactly when more than one active reference was left |
| `MvccStore.VersionStore.constructor` | crates/ffs-mvcc/src/store.rs:64-85 | a new store is valid for the empty history |
| `MvccStore.VersionStore.ReadVisible` | crates/ffs-mvcc/src/store.rs:1828-1837 | returns the content visible at the snapshot |
| `MvccStore.VersionStore.OldestSnapshot` | crates/ffs-mvcc/src/store.rs:2177-2179 | the watermark is the oldest registered snapshot, or the current one |
| `MvccStore.VersionStore.RegisterSnapshot` | crates/ffs-mvcc/src/store.rs:2082-2090 | adds one reference and changes nothing else |
| `MvccStore.VersionStore.ReleaseSnapshot` | crates/ffs-mvcc/src/store.rs:2099-2169 | drops an active reference if there is one, else one owed after a forced advance, and says whether there was either |
| `MvccStore.VersionStore.PruneSafe` | crates/ffs-mvcc/src/store.rs:2199-2240 | prunes every chain at the watermark; what that drops is said by PruneKeepsExactlyTheWanted |
| `MvccStore.VersionStore.AcceptsWrite` | crates/ffs-mvcc/src/store.rs:926-964 | answers the preflight question for one block |
| `MvccStore.VersionStore.ForceAdvanceOldest` | crates/ffs-mvcc/src/store.rs:1547-1563 | takes one reference from the oldest snapshot and records that it was forced |
| `MvccStore.VersionStore.EnforceChainPressure` | crates/ffs-mvcc/src/store.rs:1571-1665 | relieves an over-long blocked chain at the cost of references, or refuses |
| `MvccStore.VersionStore.PreflightFcw` | crates/ffs-mvcc/src/store.rs:1056-1171 | performs the specified preflight; when that passes, what it takes and whom it blames is said by PreflightPassesExactlyWhen |
| `MvccStore.VersionStore.ResolveWrites` | crates/ffs-mvcc/src/store.rs:1315-1353 | resolves every block in order up to the first conflict |
| `MvccStore.VersionStore.WriteBytes` | crates/ffs-mvcc/src/store.rs:1315-1353 | the staged bytes of a first committer, else the merge, else a conflict |
| `MvccStore.VersionStore.CommitFcw` | crates/ffs-mvcc/src/store.rs:847-855 | the class performs exactly the commit the state machine specifies; when that goes through is said by CommitsExactlyWhen |
| `MvccStore.VersionStore.FinishCommit` | crates/ffs-mvcc/src/store.rs:1185-1298 | resolves again, numbers the commit, refuses an exhausted counter, installs |
| `MvccStore.VersionStore.InstallAll` | crates/ffs-mvcc/src/store.rs:1185-1298 | pushes and caps every written chain under the watermark of the new number |
| `MvccSsi.DetectDangerousStructure` | crates/ffs-mvcc/src/lib.rs:1478-1578 | found exactly when the transaction writes and has a concurrent edge in and out in the log; reports the newest record and the least block for each |
| `MvccSsi.PruningTheLogIsHarmless` | crates/ffs-mvcc/src/store.rs:1815-1817 | dropping records at or below a watermark changes no answer for snapshots at or above it |
| `MvccSsi.PivotIsCaught` | crates/ffs-mvcc/src/store.rs:1523-1545 | a pivot between two committed concurrent neighbours is never admitted |
| `MvccSsi.AdmittedIsSerializable` | crates/ffs-mvcc/src/store.rs:1356-1457 | an admitted history, merged writers included, in which nothing is missed has an explicit order that respects its dependencies |
| `MvccSsi.EveryCycleIsMissed` | crates/ffs-mvcc/src/store.rs:1356-1457 | every dependency cycle in an admitted history has, at its earliest commit, a late reader or a writer whose block the pivot shares without seeing it |
| `MvccSsi.AcyclicIsSerializable` | crates/ffs-mvcc/src/store.rs:1356-1457 | a history without dependency cycles has an order that respects them |
| `MvccSsi.SerializableExactlyWhen` | crates/ffs-mvcc/src/store.rs:1356-1457 | an admitted history has an order that respects its dependencies if and only if no cycle passes a place the check misses |
| `MvccSsi.PairsCycleExactlyWhen` | crates/ffs-mvcc/src/lib.rs:6809-6841 | two admitted transactions depend on each other both ways exactly when the later read past the earlier and wrote a block of its unseen, other than in different bits; so write skew is excluded |
| `MvccEffect.IndependentCommute` | crates/ffs-mvcc/src/lib.rs:467-528 | in-place changes of different bits give the same bytes in either order, whatever was there |
| `MvccEffect.CommitPerforms` | crates/ffs-mvcc/src/store.rs:1185-1353 | first committer or merged, a committed write leaves its block as its effect on the current content says |
| `MvccReplay.SerialOrderExplainsRun` | crates/ffs-mvcc/src/store.rs:1356-1457 | replaying an admitted run in any order that respects its dependencies shows every transaction the bytes it read at its snapshot and ends with every block as the run left it |
| `MvccReplay.RankedOrderRespects` | crates/ffs-mvcc/src/store.rs:1356-1457 | every ranking that respects the dependencies gives such an order |
| `MvccReplay.AdmittedRunIsExplained` | crates/ffs-mvcc/src/store.rs:1356-1457 | an admitted run in which no cycle passes a place the check misses is explained by a serial order |
| `MvccReplay.MakeIsSound` | crates/ffs-mvcc/src/store.rs:1356-1457 | each call, an aborted or admitted serializable commit included, keeps the history admitted and the log the effects of its transactions; when one is admitted is said by CommitsSsiExactlyWhen |
| `MvccReplay.DangerousExactlyWhen` | crates/ffs-mvcc/src/lib.rs:1478-1578 | the two-edge check refuses if and only if the transaction writes, somebody it could not see read what it writes, and somebody it could not see wrote what it read |
| `MvccReplay.CommitsSsiExactlyWhen` | crates/ffs-mvcc/src/store.rs:1356-1457 | a serializable commit goes through if and only if the plain one does and the transaction is safe; then the history gains exactly its record and the log exactly its bytes, else at most references change |
| `MvccReplay.SsiCommitDecision` | crates/ffs-mvcc/src/store.rs:1356-1457 | the same decision said of the history alone |
| `MvccReplay.RunIsSerializable` | crates/ffs-mvcc/src/store.rs:1356-1457 | over every run from an empty store, unless a cycle passes such a place, one serial order explains all reads and the content the store now reads |
| `MvccAnomalies.MergeSkew` | crates/ffs-mvcc/src/lib.rs:1544-1578 | three admitted transactions, one merging over a whole-block write it did not see, that no serial order explains |
| `MvccAnomalies.MergeSkewInstalls` | crates/ffs-mvcc/src/lib.rs:483-528 | the store lets that merge through with those bytes |
| `MvccAnomalies.AppendSkew` | crates/ffs-mvcc/src/lib.rs:1544-1578 | two admitted transactions, one appending to what it did not see, that no serial order explains |
| `MvccAnomalies.AppendSkewInstalls` | crates/ffs-mvcc/src/lib.rs:534-558 | the store lets that append through with those bytes |
| `MvccAnomalies.RevertSkew` | crates/ffs-mvcc/src/lib.rs:1544-1578 | four admitted transactions, one setting a bit that was set and cleared unseen, that no serial order explains |
| `MvccAnomalies.RevertSkewInstalls` | crates/ffs-mvcc/src/lib.rs:818-833 | the store lets that merge through with those bytes |
| `MvccAnomalies.ReadOnlyAnomaly` | crates/ffs-mvcc/src/lib.rs:1544-1578 | three admitted transactions, one only reading, that no serial order explains |
| `MvccDevice.BlockDevice.constructor` | crates/ffs-block/src/lib.rs:2468-2472 | a device with its contents, block size and block count |
| `MvccDevice.BlockDevice.WriteContiguous` | crates/ffs-block/src/lib.rs:2435-2466 | refuses a partial block or a range past the device and writes nothing then; otherwise writes the blocks one after another |
| `MvccDevice.WriteRun` | crates/ffs-mvcc/src/store.rs:1931-2003 | a gathered run is written with one ranged write, or is refused and changes nothing |
| `MvccDevice.AddToRun` | crates/ffs-mvcc/src/store.rs:1931-2003 | a block continues the run or starts another after the old one is written; refused exactly when the old one is |
| `MvccDevice.FlushOne` | crates/ffs-mvcc/src/store.rs:1931-2003 | one block of the walk keeps the runs written and the run gathered in step with the blocks handled |
| `MvccDevice.FlushRuns` | crates/ffs-mvcc/src/store.rs:1931-2003 | whatever the sizes of the versions, writes exactly the maximal runs of neighbouring dirty blocks up to the first the device refuses |
| `MvccDevice.FlushAfter` | crates/ffs-mvcc/src/store.rs:1931-2003 | the same of the whole flush; with versions of the block size it succeeds exactly when the device has room, and then holds the newest version of every block committed after the last flush; a refused write leaves the blocks before it flushed |
| `MvccDevice.RunsAreMaximal` | crates/ffs-mvcc/src/store.rs:1931-2003 | the runs of a flush, laid end to end, are the dirty blocks in order with their newest content, and no run could be joined to the next |
| `MvccDevice.SizedFlushCompletes` | crates/ffs-mvcc/src/store.rs:1931-2003 | with versions of the block size, writing the runs is writing each dirty block home, and all are accepted exactly when the device has every one |
| `MvccDevice.FlushedIsBlockwise` | crates/ffs-mvcc/src/store.rs:1931-2003 | flushing block by block gives the specified device, for all blocks and for any part of them |
| `MvccDevice.RetryCompletes` | crates/ffs-mvcc/src/store.rs:1924-2003 | repeating a flush that was cut short gives what the whole flush would have |
| `MvccDevice.RunsComeApartExactlyWhen` | crates/ffs-mvcc/src/store.rs:1931-2003 | a run is written to its own blocks if and only if every version has the block size |
| `MvccDevice.WrongSizesShiftBytes` | crates/ffs-mvcc/src/store.rs:1931-2003 | two versions of wrong size that fill two blocks land in neither |
| `MvccMount.StepIsCoherent` | crates/ffs-mvcc/src/store.rs:309-341 | commits, pruning, evictions and flushes, completed or cut short, keep the mount coherent with its history |
| `MvccMount.FlushSyncs` | crates/ffs-mvcc/src/store.rs:1924-2003 | a completed flush makes the device exactly the history, whatever was cut short before |
| `MvccMount.RunIsCrashConsistent` | crates/ffs-mvcc/src/store.rs:1931-2003 | after every run the newest snapshot reads the whole history and each device block is as some commit since the last completed flush left it, exactly as of that flush if none was cut short since |
| `MvccMount.InterruptIsStateExactlyWhen` | crates/ffs-mvcc/src/store.rs:1931-2003 | a flush cut short leaves the state of a commit exactly when that commit agrees with the newest on the written blocks reached and with the device before it on the rest, however many flushes were cut short before |
| `MvccMount.TornFlushIsNoState` | crates/ffs-mvcc/src/store.rs:1931-2003 | a coherent, synced mount and a flush that leaves the state of no commit |
| `MvccMount.RunsAreTotal` | crates/ffs-mvcc/src/store.rs:1931-2003 | every sequence of steps can be taken from a coherent mount |
| `MvccMount.EvictedReadsTheDevice` | crates/ffs-mvcc/src/store.rs:309-341 | a reader at or above the bound reads the same after eviction |
| `MvccMount.EvictsExactly` | crates/ffs-mvcc/src/store.rs:309-341 | an eviction drops exactly the blocks whose last write is durable and within the bound, and changes nothing else |
| `MvccMount.FlushKeepsViewExactlyWhen` | crates/ffs-mvcc/src/lib.rs:2814-2832 | a flush keeps a snapshot's view if and only if no flushed block's oldest version is newer than the snapshot with different bytes on the device |
| `MvccMount.InterruptKeepsViewExactlyWhen` | crates/ffs-mvcc/src/lib.rs:2814-2832 | the same of a flush cut short, for the blocks it reached |
| `MvccMount.StepKeepsView` | crates/ffs-mvcc/src/lib.rs:2814-2832 | each step that respects a snapshot's watermark keeps what it reads through the device |
| `MvccMount.SnapshotKeepsItsView` | crates/ffs-mvcc/src/lib.rs:2814-2832 | the same over whole runs |
| `MvccMount.FlushOvertakesAReader` | crates/ffs-mvcc/src/store.rs:1931-2003 | one commit and one flush change what an older registered reader sees |
| `MvccMount.EvictionHidesConflictsExactlyWhen` | crates/ffs-mvcc/src/store.rs:309-341 | eviction hides a first-committer conflict exactly from snapshots older than a dropped chain |
| `MvccMount.MountedCommitLosesNoUpdate` | crates/ffs-mvcc/src/store.rs:293-308 | on a mount that evicts, a transaction not older than any eviction bound loses no update |
| `AllocBitmap.GetOfSet` | fuzz/fuzz_targets/fuzz_alloc_bitmap.rs:67-73 | setting a bit sets that bit and no other; outside the bitmap nothing changes |
| `AllocBitmap.GetOfClear` | fuzz/fuzz_targets/fuzz_alloc_bitmap.rs:75-81 | clearing a bit clears that bit and no other |
| `AllocBitmap.BitOrder` | fuzz/fuzz_targets/fuzz_alloc_bitmap.rs:57-65 | bit 0 of a byte is its lowest and bit 7 its highest |
| `AllocBitmap.GetByBytes` | fuzz/fuzz_targets/fuzz_alloc_bitmap.rs:57-65 | bit `8 * i + k` is bit `k` of byte `i`; past the last byte everything counts as allocated |
| `AllocBitmap.Set` | fuzz/fuzz_targets/fuzz_alloc_bitmap.rs:67-73 | updates the byte array in place as specified |
| `AllocBitmap.Clear` | fuzz/fuzz_targets/fuzz_alloc_bitmap.rs:75-81 | updates the byte array in place as specified |
| `AllocBitmap.CountFree` | fuzz/fuzz_targets/fuzz_alloc_bitmap.rs:83-91 | the number of free bits below the count |
| `AllocBitmap.RunIsFree` | fuzz/fuzz_targets/fuzz_alloc_bitmap.rs:93-103 | true exactly for a free run inside the count |
| `AllocBitmap.FindFree` | fuzz/fuzz_targets/fuzz_alloc_bitmap.rs:105-113 | the first free bit from the start on, else the first before it |
| `AllocBitmap.FindContiguous` | fuzz/fuzz_targets/fuzz_alloc_bitmap.rs:115-131 | the first run from the start on, else the first in the second pass |
| `AllocBitmap.LargestFreeRun` | fuzz/fuzz_targets/fuzz_alloc_bitmap.rs:133-145 | the longest run of free bits below the count |
| `AllocProperties.SearchIsComplete` | fuzz/fuzz_targets/fuzz_alloc_bitmap.rs:115-131 | below the bound the search finds the least run from the start on, else the least run of all, else there is none |
| `AllocProperties.SearchMissesLastRun` | fuzz/fuzz_targets/fuzz_alloc_bitmap.rs:115-131 | beyond the bound the search misses the one run of a bitmap given for every such query |
| `AllocProperties.SearchIsCompleteExactlyWhen` | fuzz/fuzz_targets/fuzz_alloc_bitmap.rs:115-131 | it is complete for every bitmap if and only if the saturated second pass still reaches far enough |
| `AllocProperties.LargestRunIsFree` | fuzz/fuzz_targets/fuzz_alloc_bitmap.rs:133-145 | a free run of the reported length exists |
| `AllocProperties.LargestRunIsMaximal` | fuzz/fuzz_targets/fuzz_alloc_bitmap.rs:133-145 | no free run is longer |
| `AllocProperties.FreeBitFound` | fuzz/fuzz_targets/fuzz_alloc_bitmap.rs:105-113 | a free bit is found if and only if there is one: the least from the start on, else the least of all |
| `AllocProperties.FreeBitsIsSize` | fuzz/fuzz_targets/fuzz_alloc_bitmap.rs:83-91 | the number of free bits is the size of the set of free bits |
| `AllocProperties.EmptyRunIsFound` | fuzz/fuzz_targets/fuzz_alloc_bitmap.rs:115-131 | a run of no bits is found at the start of the bitmap |
| `AllocProperties.FoundExactlyWhenItFits` | fuzz/fuzz_targets/fuzz_alloc_bitmap.rs:115-145 | the contiguous search succeeds exactly for lengths up to the largest run |
| `AllocProperties.RunOfOneIsFreeBit` | fuzz/fuzz_targets/fuzz_alloc_bitmap.rs:105-131 | a run of one is the free bit the other search returns |
| `AllocProperties.ClaimedRunIsConserved` | fuzz/fuzz_targets/fuzz_alloc_bitmap.rs:57-131 | claiming a found run uses exactly its bits and releasing it restores the bitmap byte for byte |
| `AllocProperties.DrainHandsOutEveryFreeBitOnce` | fuzz/fuzz_targets/fuzz_alloc_bitmap.rs:57-113 | finding and setting until none is left returns distinct bits, as many as were free |
| `AllocFast.FindFreeRange` | crates/ffs-alloc/src/lib.rs:369-441 | the staged scan returns the first free bit of the part it scans |
| `AllocFast.FindFreeFast` | crates/ffs-alloc/src/lib.rs:360-367 | the wrapped search over both parts |
| `AllocFast.FastFreeMatchesModelExactlyWhen` | crates/ffs-alloc/src/lib.rs:360-441 | it agrees with the reference on every bitmap of a size if and only if no read gives up before a backed byte |
| `AllocFast.WithinSliceScansEverything` | crates/ffs-alloc/src/lib.rs:369-441 | a count within the bitmap is always scanned whole |
| `AllocFast.FastFreeMissesABackedByte` | crates/ffs-alloc/src/lib.rs:369-441 | an instance where a backed free bit is missed |
| `AllocRuns.ZeroRunStartsAtLeast` | crates/ffs-alloc/src/lib.rs:886-895 | the doubling shifts mark exactly the bits that start a long enough stretch |
| `AllocRuns.FindRunLinear` | crates/ffs-alloc/src/lib.rs:732-845 | one pass finds the least run, or overflows at the last byte boundary |
| `AllocRuns.StepWord` | crates/ffs-alloc/src/lib.rs:847-884 | a word extends, completes or breaks the pending run |
| `AllocRuns.FindContiguousFast` | crates/ffs-alloc/src/lib.rs:590-606 | both passes together |
| `AllocRuns.FastRunsMatchModel` | crates/ffs-alloc/src/lib.rs:590-606 | wherever the index arithmetic stays in range it returns what the reference returns |
| `AllocRuns.FastRunsOverflowExactlyWhen` | crates/ffs-alloc/src/lib.rs:732-845 | above that, it overflows exactly when a pass reaches the last byte boundary empty-handed |
| `AllocRuns.FastRunsOverflow` | crates/ffs-alloc/src/lib.rs:732-845 | an instance where the reference finds nothing and the fast search overflows |
| `AllocLargest.LongestZeroRun` | crates/ffs-alloc/src/lib.rs:701-709 | the rounds of shift-and-mask count the longest stretch of zeros in a word |
| `AllocLargest.ApplyWord` | crates/ffs-alloc/src/lib.rs:682-699 | a word updates the trailing and the best run as its bits one by one would |
| `AllocLargest.SummarizeByte` | crates/ffs-alloc/src/lib.rs:61-92 | a table entry is the byte's leading, trailing and longest run of zeros |
| `AllocLargest.ApplyByte` | crates/ffs-alloc/src/lib.rs:711-723 | a byte updates both counters as its bits would |
| `AllocLargest.LargestFreeRunFast` | crates/ffs-alloc/src/lib.rs:620-680 | equals the reference for every bitmap and every count |
| `Bpf.DecodeInvertsEncode` | scripts/ffs_inspect_sandbox.py:195-196 | decoding an encoded program returns it |
| `Bpf.EncodeInvertsDecode` | scripts/ffs_inspect_sandbox.py:195-196 | encoding a decoded byte string returns it |
| `Bpf.OpLayout` | scripts/ffs_inspect_sandbox.py:195-196 | an encoded instruction is code, jump offsets and operand, low byte first |
| `Bpf.OpcodesMean` | scripts/ffs_inspect_sandbox.py:184-212 | what one step does for each of the four operation codes, given as numbers |
| `Seccomp.CompileFilter` | scripts/ffs_inspect_sandbox.py:184-212 | on a supported machine the bytes emitted, decoded and run, decide every call as the verdict written out in numbers does; on another nothing is emitted |
| `Seccomp.RowTestsRun` | scripts/ffs_inspect_sandbox.py:199-206 | running the table's tests denies a listed number and otherwise falls through |
| `Seccomp.FilterEnforcesPolicy` | scripts/ffs_inspect_sandbox.py:184-212 | for every table, architecture and call the program returns kill, deny or allow exactly as the policy does, without leaving the program |
| `Seccomp.PolicyIsVerdict` | scripts/ffs_inspect_sandbox.py:184-212 | the policy is the verdict in numbers: kill a foreign architecture or an x32 call, deny a listed call or one of the two terminal requests, allow the rest |
| `Bpf.StepCount` | scripts/ffs_inspect_sandbox.py:184-212 | every program, from every instruction, ends within the instructions that remain |
| `Seccomp.EmittedBytesEnforcePolicy` | scripts/ffs_inspect_sandbox.py:184-212 | so do the bytes handed to the kernel |
| `Seccomp.ManifestAgrees` | scripts/ffs_inspect_sandbox.py:215-222 | the names in the manifest are those the filter denies, and conversely |
| `Seccomp.InstructionCount` | scripts/ffs_inspect_sandbox.py:215-222 | the emitted bytes hold 4 instructions, 2 more on x86-64, 2 per denied number and 6 at the end |
| `SplitMix.MixIsInvertible` | scripts/fuse_vs_kernel_abba_report.py:47-50 | the output function has an explicit two-sided inverse on words |
| `SplitMix.DrawNumberInvertsDraw` | scripts/fuse_vs_kernel_abba_report.py:41-52 | the position of a draw within a period is determined by its value |
| `SplitMix.DrawInvertsDrawNumber` | scripts/fuse_vs_kernel_abba_report.py:41-52 | every word is drawn at the position computed for it |
| `SplitMix.OnePeriodVisitsEveryWordOnce` | scripts/fuse_vs_kernel_abba_report.py:41-52 | from any seed, the first 2^64 draws are all the words, each once |
| `SplitMix.DrawsRepeatAfterOnePeriod` | scripts/fuse_vs_kernel_abba_report.py:41-52 | the sequence repeats after one period |
| `SplitMix.XorShiftByBits` | scripts/fuse_vs_kernel_abba_report.py:47-50 | each bit of a xor-shift is the bit there, flipped if the one so many places up is set |
| `SplitMix.DrawInNumbers` | scripts/fuse_vs_kernel_abba_report.py:41-52 | a draw is the stepped counter put through the three xor-shifts and two multiplications, all constants given |
| `SplitMix.Generator.constructor` | scripts/fuse_vs_kernel_abba_report.py:41-42 | starts at the seed with no draws made |
| `SplitMix.Generator.Next` | scripts/fuse_vs_kernel_abba_report.py:44-50 | the object's draws are the specified sequence |
| `Trace.InterleavingIsIrrelevant` | scripts/fsync_flush_count.py:136-188 | traces in which every process shows the same lines give the same tally, for any tally |
| `Trace.SplittingIsIrrelevant` | scripts/fsync_flush_count.py:136-188 | a trace interleaved and split in any way gives the tally of its whole calls |
| `Trace.TotalIsSumOfShares` | scripts/fsync_flush_count.py:136-188 | of every trace whatever, a tally is the sum of what each line finishes: itself if whole, with its beginning if a second half that has one |
| `Trace.PendingIsOpen` | scripts/fsync_flush_count.py:145-188 | a process has a call in flight exactly if it showed a first half and no half since, and then with that descriptor |
| `TraceFlush.ParseTrace` | scripts/fsync_flush_count.py:136-188 | call counts, whatever the filter, and bytes to the image are the tallies over finished calls |
| `TraceFlush.Record` | scripts/fsync_flush_count.py:164-168 | one call adds one to its name and its bytes when they count |
| `TraceFlush.BytesAreConserved` | scripts/fsync_flush_count.py:160-188 | of every trace, all bytes are those of each listed descriptor plus those of others or of none known |
| `TraceFlush.TraceMeansItsCalls` | scripts/fsync_flush_count.py:136-188 | counts and bytes of a split, interleaved trace are those of its calls |
| `TraceFlush.TraceInNumbers` | scripts/fsync_flush_count.py:136-188 | of whole calls however split and interleaved: the count of a name is how many have it, and the bytes are the sum of what the write calls to the image moved |
| `TraceReads.ParseTrace` | scripts/btrfs_readdir_node_reads.py:111-156 | both histograms count the image reads, with equal totals, beside the reads seen and the lines not understood |
| `TraceReads.ReadsAreAccountedFor` | scripts/btrfs_readdir_node_reads.py:118-156 | of every trace, each read seen was answered, dropped or is in flight |
| `TraceReads.CountedNeverExceedsSeen` | scripts/btrfs_readdir_node_reads.py:118-156 | image reads and reads in flight never exceed the reads seen |
| `TraceReads.SeenIsEndedAndInFlight` | scripts/btrfs_readdir_node_reads.py:118-156 | in a well-formed trace the reads seen are exactly those ended and those in flight |
| `TraceReads.SeenIsEveryLineExactlyWhen` | scripts/btrfs_readdir_node_reads.py:111-117 | the reads seen are all the lines naming the call exactly when none is a second half or of unknown shape |
| `TraceReads.TraceMeansItsReads` | scripts/btrfs_readdir_node_reads.py:111-156 | the histograms of a split, interleaved trace are those of its whole calls, and the reads seen are its whole calls and those in flight |
| `TraceReads.TraceInNumbers` | scripts/btrfs_readdir_node_reads.py:111-156 | of whole calls however split and interleaved: each histogram entry is how many image reads have that offset, or that size |
| `TraceReads.SplitReadIsSeenOnce` | scripts/btrfs_readdir_node_reads.py:111-117 | two lines of one call, seen once |
| `LoadGates.LongestRun` | scripts/external_load_calibration.py:131-134 | the two counters give the longest run of set samples |
| `LoadGates.StricterGateRefines` | scripts/external_load_calibration.py:128-143 | a rule that flags fewer samples is clean whenever a stricter one is |
| `LoadGates.Verdict` | scripts/external_load_calibration.py:128-143 | clean exactly when at most a tenth of the samples and no three in a row are contended |
| `LoadGates.CleanMeans` | scripts/external_load_calibration.py:128-143 | clean, counted: at most a tenth of the samples above the limit and no three neighbours all above it |
| `LoadGates.VerdictMeans` | scripts/external_load_calibration.py:128-143 | the verdict is clean exactly then |
| `LoadGates.CleanIsMonotone` | scripts/external_load_calibration.py:128-143 | raising the fraction or the limit never refuses a clean window |
| `LoadGates.BusyFraction` | scripts/external_load_calibration.py:119-123 | always between nothing and all, whatever the counters did |
| `LoadGates.BusyFractionMeans` | scripts/external_load_calibration.py:119-123 | the share of the elapsed time not idle, nothing if all of it was idle, all of it if either counter did not advance |
| `LoadGates.Probe` | scripts/iowait_population_probe.py:186-232 | the streaming counters give the storm-scoped verdict |
| `LoadGates.StormMeans` | scripts/iowait_population_probe.py:186-199 | a sample is in a storm exactly when its CPUs waited for the disk more than a tenth of the time on average |
| `LoadGates.ProbeMeans` | scripts/iowait_population_probe.py:186-232 | the verdict in numbers: a sample counts against the window if more than two CPUs are over a quarter busy in a storm, more than four out of one |
| `LoadGates.StormRuleIsSandwiched` | scripts/iowait_population_probe.py:192-199 | clean at two implies clean under the storm rule, which implies clean at four |
| `LoadGates.StormRuleAtItsEnds` | scripts/iowait_population_probe.py:192-199 | without storms it is the rule at four, in a storm throughout the rule at two |
| `LoadGates.Excursion` | scripts/host_stability.py:140-188 | aborts exactly when enough adjacent samples exceed the lower of the two limits |
| `LoadGates.AbortsExactlyWhen` | scripts/host_stability.py:140-188 | aborted if and only if the launch load is positive and as many neighbours as asked each exceed the scaled launch load and the admission limit, or the ceiling |
| `LoadGates.AdmissibleLoadNeverAborts` | scripts/host_stability.py:155-165 | with the default ceiling no run is aborted at a load a new one would be admitted at |
| `LoadGates.QuietStartIsNoSturdier` | scripts/host_stability.py:160-165 | whatever aborts a run launched at a higher load aborts one launched at a lower |
| `LoadGates.LaunchLoadMattersExactlyWhen` | scripts/host_stability.py:160-165 | two starts share every verdict if and only if they end up with the same limit |
| `LoadGates.QuietStartIsFragile` | scripts/host_stability.py:160-165 | samples that abort the quieter start and not the busier |
| `NtfsFixup.Fixup` | scripts/verify_ntfs_read.py:71-80 | accepts exactly the records with a valid head and no torn sector, and puts the displaced bytes back in place |
| `NtfsFixup.FixupSector` | scripts/verify_ntfs_read.py:77-80 | one sector's tail is checked and replaced |
| `NtfsBytes.FieldsByTheirBytes` | scripts/verify_ntfs_read.py:46 | fields are their bytes, the lowest first |
| `NtfsFixup.HeadByBytes` | scripts/verify_ntfs_read.py:70-75 | the head in bytes: whole sectors up to 65536, the magic, a slot per sector and one more, the array between byte 48 and the first sector's end |
| `NtfsFixup.UntornByBytes` | scripts/verify_ntfs_read.py:77-80 | accepted exactly when the last two bytes of every 512 are the sequence number |
| `NtfsFixup.RestoredByBytes` | scripts/verify_ntfs_read.py:77-80 | each of those bytes comes back from its slot and every other byte stays |
| `NtfsFixup.FixupInvertsProtection` | scripts/verify_ntfs_read.py:71-80 | a protected record has a valid head if the plain one has and no torn sector, and gets every byte outside the array back |
| `NtfsFixup.ProtectProtects` | scripts/verify_ntfs_read.py:71-80 | every plain record has a protected form under every sequence number |
| `NtfsFixup.ProtectionInvertsFixup` | scripts/verify_ntfs_read.py:71-80 | every accepted record is the protected form of its fixed-up self |
| `NtfsFixup.ProtectionIsUnique` | scripts/verify_ntfs_read.py:71-80 | the plain record and the sequence number determine the protected record |
| `NtfsWalk.WalkAttributes` | scripts/verify_ntfs_read.py:84-106 | returns the allocation of the first unnamed data attribute reached without a gap, or an error exactly when there is none that qualifies |
| `NtfsWalk.CompressedAllocation` | scripts/verify_ntfs_read.py:81-106 | succeeds exactly within the record's bounds, with the allocated size its first unnamed data attribute records, between nothing and the expected one |
| `NtfsWalk.FirstIsUnique` | scripts/verify_ntfs_read.py:84-106 | there is at most one such attribute |
| `NtfsWalk.AttributeByBytes` | scripts/verify_ntfs_read.py:84-92 | length, end marker and unnamed data of an attribute in bytes |
| `NtfsWalk.CompressedByBytes` | scripts/verify_ntfs_read.py:93-106 | the fields a compressed stream must have, in bytes |
| `NtfsList.WalkMeans` | scripts/verify_ntfs_read.py:42-56 | the walk succeeds exactly on lists tiled by entries in which no stream starts twice, and collects every start |
| `NtfsList.WalkList` | scripts/verify_ntfs_read.py:42-56 | the loop computes that walk |
| `NtfsList.EntryByBytes` | scripts/verify_ntfs_read.py:42-56 | an entry's bounds and the six bytes of its record |
| `NtfsList.StreamByBytes` | scripts/verify_ntfs_read.py:42-56 | a stream starts at an entry of type 0x80 at cluster nought with one of the names |
| `NtfsList.NameByBytes` | scripts/verify_ntfs_read.py:42-56 | the name's units, two bytes each from the name's offset |
| `NtfsList.DecodesExactlyWhenPaired` | scripts/verify_ntfs_read.py:42-56 | a name decodes if and only if every first half of a surrogate pair is followed by a second and every second preceded by a first |
| `NtfsList.ExtensionRecords` | scripts/verify_ntfs_read.py:39-60 | accepted exactly when the list is tiled, starts every stream once and one outside the base; the result is ascending, not empty, and exactly those records |
| `Capture.Supervise` | scripts/ffs_inspect_sandbox.py:309-334 | for every order of events what is kept are prefixes within the budgets; finishing means nothing was lost, a limit means exactly the budget was kept and which event broke it |
| `Capture.Keep` | scripts/ffs_inspect_sandbox.py:320-333 | a chunk is kept as far as the budget allows |
| `Capture.BudgetsSufficeExactlyWhen` | scripts/ffs_inspect_sandbox.py:321-333 | no event overflows exactly when everything produced fits both budgets |
| `SpaceInfo.CommandEncodesSize` | scripts/ffs_space_info.py:37 | the size field decodes to the size and the rest is the legacy command |
| `SpaceInfo.EveryRequestFits` | scripts/ffs_space_info.py:22-37 | every allowed request fits the field, and the empty one is the legacy command |
| `SpaceInfo.Query` | scripts/ffs_space_info.py:31-53 | answers exactly when the reply is complete and sound; a failed call is a system error, any other refusal a bad value |
| `SpaceInfo.SpaceInfoFuse` | scripts/ffs_space_info.py:56-80 | at most four calls, each asking for the count before it; returns an array as long as the last count; gives up exactly when the count grew every time |
| `SpaceInfo.SpaceInfoKernel` | scripts/ffs_space_info.py:56-80 | at most seven calls; returns an array as long as a fresh count; gives up only when none of three arrays matched; an error names the call that was not answered |
| `SpaceInfo.StableCountSuffices` | scripts/ffs_space_info.py:64-70 | an array is whole exactly when its count did not exceed the slots asked for |
| `Ledger.ParseText` | scripts/perf_ledger_preflight.py:890-929 | the loop with its pending entry computes the specified rows |
| `Ledger.RowCount` | scripts/perf_ledger_preflight.py:890-929 | as many rows as table rows and entry headings |
| `Ledger.ParsedRows` | scripts/perf_ledger_preflight.py:890-929 | the rows are exactly those started by table rows and entry headings, with their bodies |
| `Ledger.RowsInOrder` | scripts/perf_ledger_preflight.py:890-929 | rows come in the order in which they are complete: a table row inside an entry before the entry |
| `Ledger.UnlintedIsNoRow` | scripts/perf_ledger_preflight.py:836-858 | no heading reported as filed at the wrong depth is a row's line |
| `Ledger.TrimBlanks` | scripts/perf_ledger_preflight.py:1081-1083 | drops trailing blank lines and keeps the first line |
| `Ledger.TrimmedExactly` | scripts/perf_ledger_preflight.py:1081-1083 | what is dropped is blank, and the line it stops at is not, or is the first |
| `Ledger.AppendKeepsSpans` | scripts/perf_ledger_preflight.py:1070-1084 | appending blank lines and a heading that ends entries changes no old span |
| `Ledger.AppendTouchesNoOldRow` | scripts/perf_ledger_preflight.py:1118-1120 | so no old row is selected for linting |
| `Ledger.SpanReachesLastLineExactlyWhen` | scripts/perf_ledger_preflight.py:1070-1084 | an entry's last line is in its span exactly when no table row stands before it |
| `Ledger.SpanMissesALine` | scripts/perf_ledger_preflight.py:1070-1084 | an instance where it is not |

## Left out

- The on-disk engines (ext4, btrfs, FAT, NTFS and ZFS readers), RAID repair, the write-ahead log and the FUSE layer: outside the parts modelled here.
- The sharded store: only the single-lock store is modelled, so nothing is said about lock order or concurrent publication.
- Copy-on-write remapping, physical version chains and the block compression codecs: versions hold their bytes or a marker for unchanged content.
- Torn blocks: a flush may stop between any two blocks, but the write of one block is atomic.
- The contention metrics behind the adaptive policy: the policies at preflight and at install are two independent inputs.
- Clocks, process launch, mounts and the sandbox's namespaces: time limits appear as events.
- Regular expressions and text decoding of traces and ledgers: lines come classified.
- SHA-256 and JSON output: digests are functions of the bytes the model accounts for.
- Bootstrap intervals, medians and other statistics of the benchmark reports: numeric estimates without a crisp contract.
- The byte-level layout of the seccomp structures beyond the eight-byte instruction, and the table of system-call numbers: the table is a parameter.
- Transactions committed without the serializable check: they are not in its log, so histories are those of transactions that all use it.
- MvccMerge.MergeAddsDelta: a range list with an empty range at the start of a non-empty one is not of the type of evidence, because the walk may fault on it (EmptyRangeDefeatsTheWalk).
- MvccSsi.AdmittedIsSerializable: gives a condition that is easy to test and sufficient; SerializableExactlyWhen is the exact one.
- MvccSsi.SerializableExactlyWhen: is about orders that respect every dependency; an order that happens to give the same bytes against one, because a write was overwritten unread, is not looked for.
- LoadGates.Verdict: compares exact fractions where the script compares rounded ones.
- LoadGates.Excursion: does not model the text naming the limit that was exceeded.
