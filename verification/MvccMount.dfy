/** A mounted filesystem: the version store over its device. Commits, pruning, evictions and flushes,
    completed or cut short, leave the newest snapshot reading every commit and every block of the
    device holding what some commit since the last completed flush gave it. */
module MvccMount {
  import opened MvccChain
  import opened MvccCommit
  import opened MvccDevice
  import opened MvccReaders
  import opened MvccSpec
  import opened Wrappers

  /** `durable` is the last commit the device is flushed through, `evicted` the greatest bound up to
      which chains have been dropped. */
  datatype Mount = Mount(store: Store, device: Blocks, durable: nat, evicted: nat)

  ghost function OnDevice(device: Blocks, b: Block): Option<Bytes> { if b in device then Some(device[b]) else None }

  /** What a reader at snapshot `high` gets: the visible version, else the device. */
  ghost function MountedRead(m: Mount, b: Block, high: nat): Option<Bytes> {
    match Read(m.store.ChainOf(b), high)
    case Some(bytes) => Some(bytes)
    case None => OnDevice(m.device, b)
  }

  /** The reference: the history over the device the mount started from. */
  ghost function Expected(base: Blocks, log: Log, b: Block, high: nat): Option<Bytes> {
    match ValueAt(log, b, high)
    case Some(bytes) => Some(bytes)
    case None => OnDevice(base, b)
  }

  // ----- the state machine -----

  /** `Interrupt` is a flush that fails, or loses power, after writing some of its blocks. */
  datatype Change =
    | Commit(entry: map<Block, Bytes>, settings: Settings, wm: nat)
    | Prune(wm: nat)
    | Flush
    | Interrupt(done: set<Block>)
    | Evict(bound: nat)

  /** Chains whose newest version is at or below the bound. */
  predicate Evictable(chain: Chain, bound: nat) { chain != [] && LatestSeqno(chain) <= bound }

  ghost function EvictChains(store: Store, bound: nat): Store {
    store.(chains := map b | b in store.chains && !Evictable(store.chains[b], bound) :: store.chains[b])
  }

  function Min(a: nat, b: nat): nat { if a < b then a else b }

  function Max(a: nat, b: nat): nat { if a < b then b else a }

  /** An eviction never goes past what is durable. */
  ghost function Step(m: Mount, change: Change): Mount
    requires WellFormedChains(m.store)
  {
    match change
    case Commit(entry, settings, wm) => m.(store := Install(m.store, entry, settings, wm))
    case Prune(wm) => m.(store := MvccSpec.Prune(m.store, wm))
    case Flush => m.(device := Flushed(m.device, m.store.chains, m.durable), durable := Max(m.store.next, 1) - 1)
    case Interrupt(done) => m.(device := FlushedPart(m.device, m.store.chains, m.durable, done))
    case Evict(bound) =>
      var allowed := Min(bound, m.durable);
      m.(store := EvictChains(m.store, allowed), evicted := Max(m.evicted, allowed))
  }

  /** The history after a step. */
  ghost function Logged(log: Log, change: Change): Log {
    if change.Commit? then log + [change.entry] else log
  }

  ghost predicate WellFormedChains(store: Store) { forall b | b in store.chains :: WellFormed(store.chains[b]) }

  // ----- the invariant -----

  /** What a chain still has is what was committed. */
  ghost predicate Truthful(chain: Chain, log: Log, b: Block) {
    forall s: nat | s <= |log| && Read(chain, s).Some? :: Read(chain, s) == ValueAt(log, b, s)
  }

  /** A chain ends at the block's last write, or was dropped with everything it held durable. */
  ghost predicate Tracks(chain: Chain, log: Log, b: Block, evicted: nat) {
    && WellFormed(chain) && Truthful(chain, log, b)
    && if chain == [] then LastWrite(log, b) <= evicted else LatestSeqno(chain) == LastWrite(log, b) <= |log|
  }

  /** The device has the block as of commit `h`. */
  ghost predicate HoldsCommit(device: Blocks, base: Blocks, log: Log, b: Block, h: nat) {
    OnDevice(device, b) == Expected(base, log, b, h)
  }

  /** As of some commit since the last completed flush. */
  ghost predicate HoldsSome(m: Mount, base: Blocks, log: Log, b: Block) {
    exists h: nat :: m.durable <= h <= |log| && HoldsCommit(m.device, base, log, b, h)
  }

  ghost predicate Coherent(m: Mount, base: Blocks, log: Log) {
    && m.store.next == |log| + 1 && m.evicted <= m.durable <= |log|
    && (forall b: Block :: Tracks(m.store.ChainOf(b), log, b, m.evicted))
    && (forall b: Block :: HoldsSome(m, base, log, b))
  }

  /** The device is exactly the history up to the last completed flush. */
  ghost predicate Synced(m: Mount, base: Blocks, log: Log) {
    forall b: Block :: HoldsCommit(m.device, base, log, b, m.durable)
  }

  lemma CoherentIsWellFormed(m: Mount, base: Blocks, log: Log)
    requires Coherent(m, base, log)
    ensures WellFormedChains(m.store)
  {
    forall b | b in m.store.chains ensures WellFormed(m.store.chains[b]) {
      assert Tracks(m.store.ChainOf(b), log, b, m.evicted);
    }
  }

  /** A block not written since the last completed flush is on the device as it is now. */
  lemma SettledOnDevice(m: Mount, base: Blocks, log: Log, b: Block)
    requires Coherent(m, base, log) && LastWrite(log, b) <= m.durable
    ensures HoldsCommit(m.device, base, log, b, |log|)
  {
    assert HoldsSome(m, base, log, b);
    var h: nat :| m.durable <= h <= |log| && HoldsCommit(m.device, base, log, b, h);
    ValueAtSettled(log, b, h);
  }

  /** The newest version of a chain is the block's current content. */
  lemma NewestIsCurrent(chain: Chain, log: Log, b: Block, evicted: nat)
    requires Tracks(chain, log, b, evicted) && chain != []
    ensures ValueAt(log, b, |log|) == Some(Newest(chain)) == Read(chain, |log|)
  {
    VisibleCountIs(chain, |log|, |chain|);
    ResolvesInWellFormed(chain, |chain| - 1);
    assert Read(chain, |log|).Some?;
  }

  // ----- each step keeps it -----

  /** Trimming shows an older snapshot what it saw or nothing. */
  lemma AdvancedIsTruthful(before: Chain, after: Chain, log: Log, b: Block, s: nat)
    requires WellFormed(before) && WellFormed(after) && Advances(before, after, s)
    requires Read(before, s).Some? ==> Read(before, s) == ValueAt(log, b, s)
    ensures Read(after, s).Some? ==> Read(after, s) == ValueAt(log, b, s)
  {
    if DropsPast(before, after, s) {
      VisibleExactlyFromHead(after, s);
    }
  }

  lemma CommittedChainTracks(chain: Chain, log: Log, entry: map<Block, Bytes>, b: Block, evicted: nat,
                             settings: Settings, wm: nat)
    requires Tracks(chain, log, b, evicted) && b in entry && evicted <= |log|
    ensures Tracks(InstallChain(chain, |log| + 1, entry[b], settings, wm), log + [entry], b, evicted)
  {
    var seqno, log' := |log| + 1, log + [entry];
    var after := InstallChain(chain, seqno, entry[b], settings, wm);
    InstalledChain(chain, seqno, entry[b], settings, wm, seqno);
    forall s: nat | s <= |log'| && Read(after, s).Some? ensures Read(after, s) == ValueAt(log', b, s) {
      if s <= |log| {
        InstallAdvances(chain, seqno, entry[b], settings, wm, s);
        AdvancedIsTruthful(chain, after, log, b, s);
        ValueAtOfAppend(log, entry, b, s);
      }
    }
  }

  lemma OtherChainTracks(chain: Chain, log: Log, entry: map<Block, Bytes>, b: Block, evicted: nat)
    requires Tracks(chain, log, b, evicted) && b !in entry
    ensures Tracks(chain, log + [entry], b, evicted)
  {
    var log' := log + [entry];
    assert log'[..|log|] == log;
    forall s: nat | s <= |log'| && Read(chain, s).Some? ensures Read(chain, s) == ValueAt(log', b, s) {
      ValueAtOfAppend(log, entry, b, Min(s, |log|));
      if s > |log| && chain != [] {
        ReadAboveNewest(chain, |log|, s);
      }
    }
  }

  lemma CommitIsCoherent(m: Mount, base: Blocks, log: Log, entry: map<Block, Bytes>, settings: Settings, wm: nat)
    requires Coherent(m, base, log)
    ensures Coherent(m.(store := Install(m.store, entry, settings, wm)), base, log + [entry])
  {
    var after := m.(store := Install(m.store, entry, settings, wm));
    forall b: Block ensures Tracks(after.store.ChainOf(b), log + [entry], b, m.evicted) {
      assert Tracks(m.store.ChainOf(b), log, b, m.evicted);
      if b in entry {
        CommittedChainTracks(m.store.ChainOf(b), log, entry, b, m.evicted, settings, wm);
      } else {
        OtherChainTracks(m.store.ChainOf(b), log, entry, b, m.evicted);
      }
    }
    forall b: Block ensures HoldsSome(after, base, log + [entry], b) {
      assert HoldsSome(m, base, log, b);
      var h: nat :| m.durable <= h <= |log| && HoldsCommit(m.device, base, log, b, h);
      ValueAtOfAppend(log, entry, b, h);
      assert HoldsCommit(after.device, base, log + [entry], b, h);
    }
  }

  lemma PruneIsCoherent(m: Mount, base: Blocks, log: Log, wm: nat)
    requires Coherent(m, base, log)
    ensures Coherent(m.(store := MvccSpec.Prune(m.store, wm)), base, log)
  {
    var after := m.(store := MvccSpec.Prune(m.store, wm));
    forall b: Block ensures Tracks(after.store.ChainOf(b), log, b, m.evicted) {
      var chain := m.store.ChainOf(b);
      assert Tracks(chain, log, b, m.evicted);
      PrunedChain(chain, wm, |log|);
      forall s: nat | s <= |log| && Read(PruneChain(chain, wm), s).Some?
        ensures Read(PruneChain(chain, wm), s) == ValueAt(log, b, s)
      {
        PruneAdvances(chain, wm, s);
        AdvancedIsTruthful(chain, PruneChain(chain, wm), log, b, s);
      }
    }
    forall b: Block ensures HoldsSome(after, base, log, b) {
      assert HoldsSome(m, base, log, b);
    }
  }

  /** A flush, as far as it gets, gives a block its current content. */
  lemma FlushedBlock(m: Mount, base: Blocks, log: Log, done: set<Block>, b: Block)
    requires Coherent(m, base, log) && WellFormedChains(m.store)
    ensures var chain := m.store.ChainOf(b);
            if b in done && Dirty(chain, m.durable)
            then HoldsCommit(FlushedPart(m.device, m.store.chains, m.durable, done), base, log, b, |log|)
            else OnDevice(FlushedPart(m.device, m.store.chains, m.durable, done), b) == OnDevice(m.device, b)
  {
    var chain := m.store.ChainOf(b);
    assert Tracks(chain, log, b, m.evicted);
    if b in done && Dirty(chain, m.durable) {
      NewestIsCurrent(chain, log, b, m.evicted);
    }
  }

  lemma InterruptIsCoherent(m: Mount, base: Blocks, log: Log, done: set<Block>)
    requires Coherent(m, base, log) && WellFormedChains(m.store)
    ensures Coherent(Step(m, Interrupt(done)), base, log)
  {
    var after := Step(m, Interrupt(done));
    forall b: Block ensures HoldsSome(after, base, log, b) {
      FlushedBlock(m, base, log, done, b);
      assert HoldsSome(m, base, log, b);
      var h: nat :| m.durable <= h <= |log| && HoldsCommit(m.device, base, log, b, h);
      assert HoldsCommit(after.device, base, log, b, |log|) || HoldsCommit(after.device, base, log, b, h);
    }
    forall b: Block ensures Tracks(after.store.ChainOf(b), log, b, after.evicted) {
      assert Tracks(m.store.ChainOf(b), log, b, m.evicted);
    }
  }

  /** A completed flush brings the device to the whole history, whatever went before. */
  lemma FlushSyncs(m: Mount, base: Blocks, log: Log)
    requires Coherent(m, base, log) && WellFormedChains(m.store)
    ensures Coherent(Step(m, Flush), base, log) && Synced(Step(m, Flush), base, log)
    ensures Step(m, Flush).durable == |log|
  {
    var after := Step(m, Flush);
    assert after.durable == |log|;
    forall b: Block ensures HoldsCommit(after.device, base, log, b, |log|) {
      FlushedBlock(m, base, log, m.store.chains.Keys, b);
      assert Tracks(m.store.ChainOf(b), log, b, m.evicted);
      if !Dirty(m.store.ChainOf(b), m.durable) {
        SettledOnDevice(m, base, log, b);
      }
    }
    forall b: Block ensures HoldsSome(after, base, log, b) {
      assert HoldsCommit(after.device, base, log, b, |log|);
    }
    forall b: Block ensures Tracks(after.store.ChainOf(b), log, b, after.evicted) {
      assert Tracks(m.store.ChainOf(b), log, b, m.evicted);
    }
  }

  lemma EvictIsCoherent(m: Mount, base: Blocks, log: Log, bound: nat)
    requires Coherent(m, base, log) && bound <= m.durable
    ensures Coherent(m.(store := EvictChains(m.store, bound), evicted := Max(m.evicted, bound)), base, log)
  {
    var after := m.(store := EvictChains(m.store, bound), evicted := Max(m.evicted, bound));
    forall b: Block ensures Tracks(after.store.ChainOf(b), log, b, after.evicted) {
      assert Tracks(m.store.ChainOf(b), log, b, m.evicted);
    }
    forall b: Block ensures HoldsSome(after, base, log, b) {
      assert HoldsSome(m, base, log, b);
    }
  }

  /** An eviction drops the blocks whose last write is durable and within the bound, and nothing else. */
  lemma EvictsExactly(m: Mount, base: Blocks, log: Log, bound: nat, b: Block)
    requires Coherent(m, base, log) && WellFormedChains(m.store)
    ensures var after := Step(m, Evict(bound));
            && after.store.ChainOf(b)
               == (if LastWrite(log, b) <= bound && LastWrite(log, b) <= m.durable then [] else m.store.ChainOf(b))
            && after.device == m.device && after.durable == m.durable && after.store.next == m.store.next
  {
    assert Tracks(m.store.ChainOf(b), log, b, m.evicted);
  }

  lemma StepIsCoherent(m: Mount, base: Blocks, log: Log, change: Change)
    requires Coherent(m, base, log) && WellFormedChains(m.store)
    ensures Coherent(Step(m, change), base, Logged(log, change))
  {
    match change
    case Commit(entry, settings, wm) => CommitIsCoherent(m, base, log, entry, settings, wm);
    case Prune(wm) => PruneIsCoherent(m, base, log, wm);
    case Flush => FlushSyncs(m, base, log);
    case Interrupt(done) => InterruptIsCoherent(m, base, log, done);
    case Evict(bound) => EvictIsCoherent(m, base, log, Min(bound, m.durable));
  }

  lemma StepIsSynced(m: Mount, base: Blocks, log: Log, change: Change)
    requires Coherent(m, base, log) && WellFormedChains(m.store)
    requires change.Flush? || (Synced(m, base, log) && !change.Interrupt?)
    ensures Synced(Step(m, change), base, Logged(log, change))
  {
    if change.Flush? {
      FlushSyncs(m, base, log);
    } else {
      forall b: Block ensures HoldsCommit(m.device, base, Logged(log, change), b, m.durable) {
        assert HoldsCommit(m.device, base, log, b, m.durable);
        if change.Commit? {
          ValueAtOfAppend(log, change.entry, b, m.durable);
        }
      }
    }
  }

  // ----- whole runs -----

  /** The states a run can reach, with the history it has committed. */
  ghost predicate Reaches(m: Mount, log: Log, changes: seq<Change>, m': Mount, log': Log)
    decreases |changes|
  {
    if changes == [] then m' == m && log' == log
    else WellFormedChains(m.store) && Reaches(Step(m, changes[0]), Logged(log, changes[0]), changes[1..], m', log')
  }

  /** No flush was cut short since the last completed one. */
  ghost predicate EndsSynced(changes: seq<Change>) {
    changes == [] || changes[|changes| - 1].Flush?
    || (!changes[|changes| - 1].Interrupt? && EndsSynced(changes[..|changes| - 1]))
  }

  const FRESH := Store(1, map[], map[], map[])

  lemma {:induction false} RunIsCoherent(m: Mount, log: Log, base: Blocks, changes: seq<Change>, m': Mount, log': Log)
    requires Coherent(m, base, log) && Reaches(m, log, changes, m', log')
    ensures Coherent(m', base, log')
    decreases |changes|
  {
    if changes != [] {
      StepIsCoherent(m, base, log, changes[0]);
      RunIsCoherent(Step(m, changes[0]), Logged(log, changes[0]), base, changes[1..], m', log');
    }
  }

  lemma {:induction false} RunIsSynced(m: Mount, log: Log, base: Blocks, changes: seq<Change>, m': Mount, log': Log)
    requires Coherent(m, base, log) && Reaches(m, log, changes, m', log') && EndsSynced(changes)
    requires Synced(m, base, log) || exists i :: 0 <= i < |changes| && changes[i].Flush?
    ensures Synced(m', base, log')
    decreases |changes|
  {
    if changes != [] {
      var next, grown, rest := Step(m, changes[0]), Logged(log, changes[0]), changes[1..];
      StepIsCoherent(m, base, log, changes[0]);
      EndsSyncedTail(changes);
      if changes[0].Flush? || (Synced(m, base, log) && !changes[0].Interrupt?) {
        StepIsSynced(m, base, log, changes[0]);
      }
      RunIsSynced(next, grown, base, rest, m', log');
    }
  }

  /** After an interruption a run that ends synced has a completed flush to come. */
  lemma {:induction false} EndsSyncedTail(changes: seq<Change>)
    requires changes != [] && EndsSynced(changes)
    ensures EndsSynced(changes[1..])
    ensures changes[0].Interrupt? || (!changes[0].Flush? && exists i :: 0 <= i < |changes| && changes[i].Flush?)
            ==> exists i :: 0 <= i < |changes[1..]| && changes[1..][i].Flush?
    decreases |changes|
  {
    var last := |changes| - 1;
    if last > 0 {
      assert changes[1..][last - 1] == changes[last];
      if !changes[last].Flush? {
        assert changes[..last][1..] == changes[1..][..last - 1];
        EndsSyncedTail(changes[..last]);
      }
      if i :| 0 < i < |changes| && changes[i].Flush? {
        assert changes[1..][i - 1].Flush?;
      }
      if changes[0].Interrupt? && !changes[last].Flush? {
        var i :| 0 <= i < |changes[..last][1..]| && changes[..last][1..][i].Flush?;
        assert changes[1..][i].Flush?;
      }
    }
  }

  /** After any run from a fresh mount, flushes cut short included: a reader of the newest snapshot
      sees every commit; each block of the device is as some commit since the last completed flush
      left it; and if no flush was cut short since, the device is exactly the history up to it. */
  lemma RunIsCrashConsistent(base: Blocks, changes: seq<Change>, m: Mount, log: Log, b: Block)
    requires Reaches(Mount(FRESH, base, 0, 0), [], changes, m, log)
    ensures m.durable <= |log| && MountedRead(m, b, |log|) == Expected(base, log, b, |log|)
    ensures exists h: nat :: m.durable <= h <= |log| && HoldsCommit(m.device, base, log, b, h)
    ensures EndsSynced(changes) ==> HoldsCommit(m.device, base, log, b, m.durable)
  {
    FreshIsCoherent(base);
    RunIsCoherent(Mount(FRESH, base, 0, 0), [], base, changes, m, log);
    if EndsSynced(changes) {
      RunIsSynced(Mount(FRESH, base, 0, 0), [], base, changes, m, log);
    }
    NewestReadsEverything(m, base, log, b);
    assert HoldsSome(m, base, log, b);
  }

  lemma FreshIsCoherent(base: Blocks)
    ensures Coherent(Mount(FRESH, base, 0, 0), base, []) && Synced(Mount(FRESH, base, 0, 0), base, [])
  {
    var m := Mount(FRESH, base, 0, 0);
    forall b: Block ensures Tracks(m.store.ChainOf(b), [], b, 0) && HoldsSome(m, base, [], b) {
      assert HoldsCommit(base, base, [], b, 0);
    }
  }

  lemma NewestReadsEverything(m: Mount, base: Blocks, log: Log, b: Block)
    requires Coherent(m, base, log)
    ensures MountedRead(m, b, |log|) == Expected(base, log, b, |log|)
  {
    var chain := m.store.ChainOf(b);
    assert Tracks(chain, log, b, m.evicted);
    if chain == [] {
      SettledOnDevice(m, base, log, b);
    } else {
      NewestIsCurrent(chain, log, b, m.evicted);
    }
  }

  /** No run gets stuck: every sequence of changes reaches some state. */
  lemma {:induction false} RunsAreTotal(m: Mount, log: Log, base: Blocks, changes: seq<Change>)
    returns (m': Mount, log': Log)
    requires Coherent(m, base, log)
    ensures Reaches(m, log, changes, m', log')
    decreases |changes|
  {
    if changes == [] {
      return m, log;
    }
    CoherentIsWellFormed(m, base, log);
    StepIsCoherent(m, base, log, changes[0]);
    m', log' := RunsAreTotal(Step(m, changes[0]), Logged(log, changes[0]), base, changes[1..]);
  }

  // ----- flushes cut short -----

  /** What a flush cut short leaves on the device: the current content of the written blocks it reached,
      and what was there before on the rest. */
  ghost function LeftBehind(m: Mount, base: Blocks, log: Log, done: set<Block>, b: Block): Option<Bytes> {
    if b in done && LastWrite(log, b) > m.durable then Expected(base, log, b, |log|) else OnDevice(m.device, b)
  }

  /** The device is the state some commit left behind. */
  ghost predicate IsState(device: Blocks, base: Blocks, log: Log, h: nat) {
    forall b: Block :: HoldsCommit(device, base, log, b, h)
  }

  lemma InterruptLeaves(m: Mount, base: Blocks, log: Log, done: set<Block>, b: Block)
    requires Coherent(m, base, log) && WellFormedChains(m.store)
    ensures OnDevice(Step(m, Interrupt(done)).device, b) == LeftBehind(m, base, log, done, b)
  {
    FlushedBlock(m, base, log, done, b);
    assert Tracks(m.store.ChainOf(b), log, b, m.evicted);
  }

  /** A flush cut short, the first or one of several, leaves the state of commit `h` if and only if `h`
      agrees with the newest commit on every written block it reached and with the device before it on
      the rest. If no flush was cut short before, that device is the state of the last flush. */
  lemma InterruptIsStateExactlyWhen(m: Mount, base: Blocks, log: Log, done: set<Block>, h: nat)
    requires Coherent(m, base, log) && WellFormedChains(m.store)
    ensures IsState(Step(m, Interrupt(done)).device, base, log, h)
            <==> forall b: Block :: Expected(base, log, b, h) == LeftBehind(m, base, log, done, b)
    ensures Synced(m, base, log) ==> IsState(m.device, base, log, m.durable)
  {
    var after := Step(m, Interrupt(done));
    forall b: Block
      ensures HoldsCommit(after.device, base, log, b, h)
              <==> Expected(base, log, b, h) == LeftBehind(m, base, log, done, b)
    {
      InterruptLeaves(m, base, log, done, b);
    }
    if IsState(after.device, base, log, h) {
      forall b: Block ensures Expected(base, log, b, h) == LeftBehind(m, base, log, done, b) {
        assert HoldsCommit(after.device, base, log, b, h);
      }
    }
  }

  const EMPTY_PAIR: Blocks := map[0 := [0], 1 := [0]]
  const ONE_COMMIT: Log := [map[0 := [1], 1 := [1]]]
  const ONE_VERSION: Chain := [Version(1, Full([1]))]
  const UNFLUSHED := Mount(Store(2, map[0 := ONE_VERSION, 1 := ONE_VERSION], map[], map[]), EMPTY_PAIR, 0, 0)

  lemma OneVersionTracks(log: Log, b: Block)
    requires |log| == 1 && b in log[0] && log[0][b] == [1]
    ensures Tracks(ONE_VERSION, log, b, 0)
  {
    VisibleCountIs(ONE_VERSION, 0, 0);
    VisibleCountIs(ONE_VERSION, 1, 1);
    forall s: nat | s <= 1 && Read(ONE_VERSION, s).Some? ensures Read(ONE_VERSION, s) == ValueAt(log, b, s) {
      assert s == 0 || s == 1;
    }
  }

  lemma NeverWrittenTracks(log: Log, b: Block)
    requires |log| == 1 && b !in log[0]
    ensures Tracks([], log, b, 0)
  {
    assert log[..0] == [];
  }

  lemma UnflushedIsCoherent()
    ensures Coherent(UNFLUSHED, EMPTY_PAIR, ONE_COMMIT) && Synced(UNFLUSHED, EMPTY_PAIR, ONE_COMMIT)
  {
    forall b: Block
      ensures Tracks(UNFLUSHED.store.ChainOf(b), ONE_COMMIT, b, 0)
      ensures HoldsCommit(EMPTY_PAIR, EMPTY_PAIR, ONE_COMMIT, b, 0)
    {
      if b in ONE_COMMIT[0] {
        OneVersionTracks(ONE_COMMIT, b);
      } else {
        NeverWrittenTracks(ONE_COMMIT, b);
      }
    }
    forall b: Block ensures HoldsSome(UNFLUSHED, EMPTY_PAIR, ONE_COMMIT, b) {
      assert HoldsCommit(EMPTY_PAIR, EMPTY_PAIR, ONE_COMMIT, b, 0);
    }
  }

  /** One commit of two blocks over a synced device, and a flush that reaches one of them: the device is
      then the state of no commit at all. */
  lemma TornFlushIsNoState()
    ensures Coherent(UNFLUSHED, EMPTY_PAIR, ONE_COMMIT) && Synced(UNFLUSHED, EMPTY_PAIR, ONE_COMMIT)
    ensures WellFormedChains(UNFLUSHED.store)
    ensures forall h: nat :: !IsState(Step(UNFLUSHED, Interrupt({0})).device, EMPTY_PAIR, ONE_COMMIT, h)
  {
    UnflushedIsCoherent();
    var torn := Step(UNFLUSHED, Interrupt({0})).device;
    assert torn[0] == [1] && torn[1] == [0];
    forall h: nat ensures !IsState(torn, EMPTY_PAIR, ONE_COMMIT, h) {
      if h == 0 {
        assert !HoldsCommit(torn, EMPTY_PAIR, ONE_COMMIT, 0, h);
      } else {
        assert ValueAt(ONE_COMMIT, 1, h) == Some([1]);
        assert !HoldsCommit(torn, EMPTY_PAIR, ONE_COMMIT, 1, h);
      }
    }
  }

  // ----- older snapshots -----

  /** The snapshot reads what it read when it was taken. */
  ghost predicate Sees(m: Mount, base: Blocks, log: Log, s: nat) {
    forall b: Block :: MountedRead(m, b, s) == Expected(base, log, b, s)
  }

  /** A flush must not overwrite a block for a snapshot that reads it from the device. */
  ghost predicate Overtakes(m: Mount, s: nat, b: Block)
    requires WellFormedChains(m.store)
  {
    var chain := m.store.ChainOf(b);
    && Dirty(chain, m.durable) && chain[0].seqno > s
    && OnDevice(m.device, b) != Some(Newest(chain))
  }

  lemma FlushedRead(m: Mount, done: set<Block>, s: nat, b: Block)
    requires WellFormedChains(m.store)
    ensures MountedRead(Step(m, Interrupt(done)), b, s) == MountedRead(m, b, s) <==> !(b in done && Overtakes(m, s, b))
  {
    VisibleExactlyFromHead(m.store.ChainOf(b), s);
  }

  /** A flush, as far as it gets, keeps a snapshot's view exactly when it overtakes it nowhere. */
  lemma InterruptKeepsViewExactlyWhen(m: Mount, base: Blocks, log: Log, done: set<Block>, s: nat)
    requires WellFormedChains(m.store) && Sees(m, base, log, s)
    ensures Sees(Step(m, Interrupt(done)), base, log, s) <==> forall b | b in done :: !Overtakes(m, s, b)
  {
    var after := Step(m, Interrupt(done));
    forall b: Block
      ensures MountedRead(after, b, s) == Expected(base, log, b, s) <==> !(b in done && Overtakes(m, s, b))
    {
      FlushedRead(m, done, s, b);
      assert MountedRead(m, b, s) == Expected(base, log, b, s);
    }
    if !Sees(after, base, log, s) {
      var b: Block :| MountedRead(after, b, s) != Expected(base, log, b, s);
    } else {
      forall b | b in done ensures !Overtakes(m, s, b) {
        assert MountedRead(after, b, s) == Expected(base, log, b, s);
      }
    }
  }

  lemma FlushKeepsViewExactlyWhen(m: Mount, base: Blocks, log: Log, s: nat)
    requires WellFormedChains(m.store) && Sees(m, base, log, s)
    ensures Sees(Step(m, Flush), base, log, s) <==> forall b: Block :: !Overtakes(m, s, b)
  {
    var all := Step(m, Interrupt(m.store.chains.Keys));
    InterruptKeepsViewExactlyWhen(m, base, log, m.store.chains.Keys, s);
    assert forall b: Block :: MountedRead(Step(m, Flush), b, s) == MountedRead(all, b, s);
    assert forall b: Block :: Overtakes(m, s, b) ==> b in m.store.chains.Keys;
  }

  /** What a registered snapshot needs of a step: watermarks at or below it, and flushes that do
      not overtake it. */
  ghost predicate Protects(m: Mount, change: Change, s: nat)
    requires WellFormedChains(m.store)
  {
    match change
    case Commit(_, _, wm) => wm <= s
    case Prune(wm) => wm <= s
    case Evict(bound) => bound <= s
    case Flush => forall b: Block :: !Overtakes(m, s, b)
    case Interrupt(done) => forall b | b in done :: !Overtakes(m, s, b)
  }

  lemma StepKeepsView(m: Mount, base: Blocks, log: Log, change: Change, s: nat)
    requires Coherent(m, base, log) && WellFormedChains(m.store) && Sees(m, base, log, s) && s <= |log|
    requires Protects(m, change, s)
    ensures Sees(Step(m, change), base, Logged(log, change), s)
  {
    match change
    case Flush => FlushKeepsViewExactlyWhen(m, base, log, s);
    case Interrupt(done) => InterruptKeepsViewExactlyWhen(m, base, log, done, s);
    case _ => StoreStepKeepsView(m, base, log, change, s);
  }

  lemma StoreStepKeepsView(m: Mount, base: Blocks, log: Log, change: Change, s: nat)
    requires Coherent(m, base, log) && WellFormedChains(m.store) && Sees(m, base, log, s) && s <= |log|
    requires !change.Flush? && !change.Interrupt? && Protects(m, change, s)
    ensures Sees(Step(m, change), base, Logged(log, change), s)
  {
    var after, log' := Step(m, change), Logged(log, change);
    forall b: Block ensures MountedRead(after, b, s) == Expected(base, log', b, s) {
      var chain := m.store.ChainOf(b);
      assert Tracks(chain, log, b, m.evicted);
      assert MountedRead(m, b, s) == Expected(base, log, b, s);
      match change
      case Commit(entry, settings, wm) =>
        ValueAtOfAppend(log, entry, b, s);
        if b in entry {
          InstalledChain(chain, m.store.next, entry[b], settings, wm, s);
        }
      case Prune(wm) => PrunedChain(chain, wm, s);
      case Evict(bound) => EvictedReadsTheDevice(m, base, log, b, Min(bound, m.durable), s);
    }
  }

  /** The device holds exactly the newest version of an evicted chain. */
  lemma EvictedReadsTheDevice(m: Mount, base: Blocks, log: Log, b: Block, bound: nat, s: nat)
    requires Coherent(m, base, log) && bound <= m.durable && bound <= s <= |log|
    ensures MountedRead(m.(store := EvictChains(m.store, bound), evicted := Max(m.evicted, bound)), b, s)
            == MountedRead(m, b, s)
  {
    var chain := m.store.ChainOf(b);
    assert Tracks(chain, log, b, m.evicted);
    if Evictable(chain, bound) {
      ReadAboveNewest(chain, s, |log|);
      NewestIsCurrent(chain, log, b, m.evicted);
      SettledOnDevice(m, base, log, b);
    }
  }

  ghost predicate ProtectsRun(m: Mount, changes: seq<Change>, s: nat)
    decreases |changes|
  {
    changes == []
    || (WellFormedChains(m.store) && Protects(m, changes[0], s) && ProtectsRun(Step(m, changes[0]), changes[1..], s))
  }

  /** Over a run that protects it at every step, a snapshot reads the same content throughout. */
  lemma {:induction false} SnapshotKeepsItsView(m: Mount, base: Blocks, log: Log, changes: seq<Change>, m': Mount,
                                                log': Log,
                                                s: nat)
    requires Coherent(m, base, log) && Sees(m, base, log, s) && s <= |log|
    requires Reaches(m, log, changes, m', log') && ProtectsRun(m, changes, s)
    ensures Sees(m', base, log', s)
    ensures forall b: Block :: MountedRead(m', b, s) == MountedRead(m, b, s)
    decreases |changes|
  {
    if changes != [] {
      var next, grown := Step(m, changes[0]), Logged(log, changes[0]);
      StepIsCoherent(m, base, log, changes[0]);
      StepKeepsView(m, base, log, changes[0], s);
      SnapshotKeepsItsView(next, base, grown, changes[1..], m', log', s);
      forall b: Block ensures MountedRead(next, b, s) == MountedRead(m, b, s) {
        if changes[0].Commit? {
          ValueAtOfAppend(log, changes[0].entry, b, s);
        }
        assert MountedRead(next, b, s) == Expected(base, grown, b, s);
        assert MountedRead(m, b, s) == Expected(base, log, b, s);
      }
    }
  }

  /** One block, one commit: a reader registered before it sees its own past overwritten as
      soon as the commit is flushed. */
  lemma FlushOvertakesAReader()
    ensures var m := Mount(Store(2, map[0 := ONE_VERSION], map[0 := 1], map[]), map[0 := [0]], 0, 0);
            && Coherent(m, map[0 := [0]], [map[0 := [1]]])
            && WellFormedChains(m.store)
            && MountedRead(m, 0, 0) == Some([0])
            && MountedRead(Step(m, Flush), 0, 0) == Some([1])
  {
    var base: Blocks, log: Log := map[0 := [0]], [map[0 := [1]]];
    var m := Mount(Store(2, map[0 := ONE_VERSION], map[0 := 1], map[]), base, 0, 0);
    VisibleCountIs(ONE_VERSION, 0, 0);
    forall b: Block ensures Tracks(m.store.ChainOf(b), log, b, 0) && HoldsSome(m, base, log, b) {
      assert HoldsCommit(base, base, log, b, 0);
      if b in log[0] {
        OneVersionTracks(log, b);
      } else {
        NeverWrittenTracks(log, b);
      }
    }
  }

  // ----- committing over evicted chains -----

  /** First-committer-wins asks whether a block has a version newer than the snapshot. */
  predicate Conflicts(store: Store, b: Block, snapshot: nat) { LatestSeqno(store.ChainOf(b)) > snapshot }

  /** Eviction hides a conflict exactly from the snapshots older than a chain it dropped. */
  lemma EvictionHidesConflictsExactlyWhen(store: Store, bound: nat, snapshot: nat)
    ensures (forall b: Block :: Conflicts(EvictChains(store, bound), b, snapshot) == Conflicts(store, b, snapshot))
            <==> forall b | b in store.chains && Evictable(store.chains[b], bound) ::
                   LatestSeqno(store.chains[b]) <= snapshot
  {
    var after := EvictChains(store, bound);
    forall b: Block
      ensures Conflicts(after, b, snapshot) != Conflicts(store, b, snapshot)
              <==> b in store.chains && Evictable(store.chains[b], bound) && LatestSeqno(store.chains[b]) > snapshot
    {
    }
  }

  /** What a chain still has of the block at the snapshot: its content then, or nothing. */
  ghost function Kept(m: Mount, b: Block, snapshot: nat): Option<Bytes> { Read(m.store.ChainOf(b), snapshot) }

  lemma MountedInstall(m: Mount, base: Blocks, log: Log, txn: Transaction, policy: ConflictPolicy, b: Block)
    requires Coherent(m, base, log) && m.evicted <= txn.snapshot && b in txn.writes
    requires InstallBytes(m.store, txn, b, policy).Some?
    ensures var installed, write := InstallBytes(m.store, txn, b, policy).value, txn.writes[b];
            if LastWrite(log, b) <= txn.snapshot then installed == write.bytes
            else policy == SafeMerge
                 && Joined(write.proof, Kept(m, b, txn.snapshot).GetOr([]), ValueAt(log, b, |log|).GetOr([]),
                           write.bytes, installed)
  {
    var chain := m.store.ChainOf(b);
    assert Tracks(chain, log, b, m.evicted);
    if LastWrite(log, b) > txn.snapshot {
      NewestIsCurrent(chain, log, b, m.evicted);
      ReadAboveNewest(chain, LatestSeqno(chain), |log|);
      JoinedOverChain(m.store, txn, b, policy);
    }
  }

  /** On a mount that evicts, a transaction whose snapshot is not older than any eviction bound loses
      no update either: each of its writes is the first since its snapshot, or is joined with what was
      committed meanwhile, starting from the content at the snapshot if a chain still has it. */
  lemma MountedCommitLosesNoUpdate(m: Mount, base: Blocks, log: Log, txn: Transaction, order: seq<Block>,
                                   settings: Settings,
                                   b: Block)
    requires Coherent(m, base, log) && m.evicted <= txn.snapshot <= |log| && ListsWrites(order, txn) && b in txn.writes
    requires MvccCommit.Commit(m.store, txn, order, settings).Committed?
    ensures b in MvccCommit.Commit(m.store, txn, order, settings).entry
    ensures Kept(m, b, txn.snapshot).Some? ==> Kept(m, b, txn.snapshot) == ValueAt(log, b, txn.snapshot)
    ensures var installed, write := MvccCommit.Commit(m.store, txn, order, settings).entry[b], txn.writes[b];
            if LastWrite(log, b) <= txn.snapshot then installed == write.bytes
            else settings.installPolicy == SafeMerge
                 && Joined(write.proof, Kept(m, b, txn.snapshot).GetOr([]), ValueAt(log, b, |log|).GetOr([]),
                           write.bytes, installed)
  {
    assert Tracks(m.store.ChainOf(b), log, b, m.evicted);
    CommittedEntry(m.store, txn, order, settings, b);
    MountedInstall(m, base, log, txn, settings.installPolicy, b);
  }
}
