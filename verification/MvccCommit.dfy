/** Committing against the multi-version store: conflict checks, same-block merges, chain
    pressure, and what holds over every run of the store. */
module MvccCommit {
  import opened MvccChain
  import opened MvccMerge
  import opened MvccSpec
  import opened Wrappers

  // ----- what a write installs -----

  /** Nobody has committed the block since the transaction's snapshot. */
  predicate FirstCommitter(store: Store, txn: Transaction, b: Block) {
    LatestSeqno(store.ChainOf(b)) <= txn.snapshot
  }

  /** The bytes the install phase writes, or `None` for a conflict. */
  ghost function InstallBytes(store: Store, txn: Transaction, b: Block, policy: ConflictPolicy): Option<Bytes>
    requires b in txn.writes
  {
    var chain, write := store.ChainOf(b), txn.writes[b];
    if FirstCommitter(store, txn, b) then Some(write.bytes)
    else if policy == Strict then None
    else MergeBytes(write.proof, Read(chain, txn.snapshot).GetOr([]), Read(chain, LatestSeqno(chain)).GetOr([]),
                    write.bytes)
  }

  /** The preflight question for one block. Unlike the install phase it falls back on the
      base recorded with the write when the chain has no version at the snapshot. */
  ghost predicate PreflightAccepts(store: Store, txn: Transaction, b: Block, policy: ConflictPolicy)
    requires b in txn.writes
  {
    var chain, write := store.ChainOf(b), txn.writes[b];
    var atSnapshot := Read(chain, txn.snapshot);
    var base := if atSnapshot.Some? then atSnapshot.value else write.base.GetOr([]);
    || FirstCommitter(store, txn, b)
    || (policy != Strict && MergeValid(write.proof, base, Read(chain, LatestSeqno(chain)).GetOr([]), write.bytes))
  }

  // ----- chain pressure -----

  ghost function Oldest(snapshots: set<nat>): (least: nat)
    requires snapshots != {}
    ensures least in snapshots && forall s | s in snapshots :: least <= s
  {
    var any :| any in snapshots;
    OldestExists(snapshots, any);
    var least :| least in snapshots && forall s | s in snapshots :: least <= s;
    least
  }

  lemma {:induction false} OldestExists(snapshots: set<nat>, any: nat)
    requires any in snapshots
    ensures exists least :: least in snapshots && forall s | s in snapshots :: least <= s
    decreases any
  {
    if younger :| younger in snapshots && younger < any {
      OldestExists(snapshots, younger);
    }
  }

  /** The oldest registered snapshot, or the current one when none is registered. */
  ghost function Watermark(store: Store): int {
    if store.active.Keys == {} then store.Current() else Oldest(store.active.Keys)
  }

  /** Takes one reference away from the oldest registered snapshot. */
  ghost function ForceAdvance(store: Store): Store
    requires store.active.Keys != {}
  {
    var oldest := Watermark(store);
    var refs := store.active[oldest];
    var owed := if oldest in store.forced then store.forced[oldest] else 0;
    store.(active := if refs > 1 then store.active[oldest := refs - 1] else store.active - {oldest},
           forced := store.forced[oldest := owed + 1])
  }

  function CriticalLength(cap: nat): nat { 4 * if cap == 0 then 1 else cap }

  ghost predicate TrimBlocked(store: Store, b: Block, wm: int) {
    |store.ChainOf(b)| > 1 && store.ChainOf(b)[1].seqno > wm
  }

  datatype Relief = Relieved(store: Store) | StillBlocked(store: Store)

  /** An over-long chain that a snapshot keeps from being trimmed costs that snapshot a
      reference; if that does not help, the commit is refused. */
  ghost function RelievePressure(store: Store, b: Block, cap: nat): Relief {
    if |store.ChainOf(b)| == 0 || |store.ChainOf(b)| < CriticalLength(cap)
       || !TrimBlocked(store, b, Watermark(store)) then Relieved(store)
    else if store.active.Keys == {} then StillBlocked(store)
    else
      var advanced := ForceAdvance(store);
      if TrimBlocked(advanced, b, Watermark(advanced)) then StillBlocked(advanced) else Relieved(advanced)
  }

  // ----- commit -----

  datatype Failure = InvalidId | Conflict(block: Block) | Backpressure(block: Block) | SequenceExhausted

  datatype Outcome = Committed(store: Store, entry: map<Block, Bytes>) | Aborted(store: Store, why: Failure)

  datatype Checked = Passed(store: Store) | Refused(store: Store, why: Failure)

  /** Checks the write set block by block; only snapshot references may change. */
  ghost function Preflight(store: Store, txn: Transaction, order: seq<Block>, settings: Settings): Checked
    requires forall b | b in order :: b in txn.writes
    decreases |order|
  {
    if order == [] then Passed(store)
    else
      var b := order[0];
      if !PreflightAccepts(store, txn, b, settings.policy) then Refused(store, Conflict(b))
      else
        match settings.cap
        case None => Preflight(store, txn, order[1..], settings)
        case Some(cap) =>
          match RelievePressure(store, b, cap)
          case StillBlocked(after) => Refused(after, Backpressure(b))
          case Relieved(after) => Preflight(after, txn, order[1..], settings)
  }

  datatype Resolution = Clash(block: Block) | Entry(bytes: map<Block, Bytes>)

  /** The bytes for every block in turn, up to the first conflict. */
  ghost function ResolveAll(store: Store, txn: Transaction, order: seq<Block>, policy: ConflictPolicy,
                            done: map<Block, Bytes>): Resolution
    requires forall b | b in order :: b in txn.writes
    decreases |order|
  {
    if order == [] then Entry(done)
    else
      match InstallBytes(store, txn, order[0], policy)
      case None => Clash(order[0])
      case Some(bytes) => ResolveAll(store, txn, order[1..], policy, done[order[0] := bytes])
  }

  lemma {:induction false} ResolvedEntry(store: Store, txn: Transaction, order: seq<Block>, policy: ConflictPolicy,
                                         done: map<Block, Bytes>)
    requires forall b | b in order :: b in txn.writes
    requires forall b | b in done :: b in txn.writes && InstallBytes(store, txn, b, policy) == Some(done[b])
    ensures var r := ResolveAll(store, txn, order, policy, done);
            r.Entry? ==> forall b | b in done || b in order ::
                           b in r.bytes && b in txn.writes && InstallBytes(store, txn, b, policy) == Some(r.bytes[b])
    decreases |order|
  {
    if order != [] {
      var bytes := InstallBytes(store, txn, order[0], policy);
      if bytes.Some? {
        ResolvedEntry(store, txn, order[1..], policy, done[order[0] := bytes.value]);
        assert order == [order[0]] + order[1..];
      }
    }
  }

  /** `order` is the ascending list of the staged blocks. */
  ghost predicate ListsWrites(order: seq<Block>, txn: Transaction) {
    forall b :: b in order <==> b in txn.writes
  }

  ghost function Commit(store: Store, txn: Transaction, order: seq<Block>, settings: Settings): Outcome
    requires ListsWrites(order, txn)
  {
    if txn.id == 0 || txn.id == U64_MAX then Aborted(store, InvalidId)
    else
      match Preflight(store, txn, order, settings)
      case Refused(after, why) => Aborted(after, why)
      case Passed(after) => Finish(after, txn, order, settings)
  }

  /** The install phase: resolve every block again, number the commit, install it. */
  ghost function Finish(store: Store, txn: Transaction, order: seq<Block>, settings: Settings): Outcome
    requires ListsWrites(order, txn)
  {
    match ResolveAll(store, txn, order, settings.installPolicy, map[])
    case Clash(b) => Aborted(store, Conflict(b))
    case Entry(entry) =>
      if store.next >= U64_MAX then Aborted(store, SequenceExhausted)
      else Committed(Install(store, entry, settings, InstallWatermark(store)), entry)
  }

  /** The watermark once the commit has its number. */
  ghost function InstallWatermark(store: Store): nat { Watermark(store.(next := store.next + 1)) }

  // ----- preflight touches only references -----

  /** Same history, and only registered snapshots that were registered before. */
  ghost predicate OnlyReferencesChanged(before: Store, after: Store) {
    after.next == before.next && after.chains == before.chains && after.active.Keys <= before.active.Keys
  }

  lemma RelievePressureKeepsHistory(store: Store, b: Block, cap: nat)
    ensures OnlyReferencesChanged(store, RelievePressure(store, b, cap).store)
  {
  }

  lemma {:induction false} PreflightKeepsHistory(store: Store, txn: Transaction, order: seq<Block>, settings: Settings)
    requires forall b | b in order :: b in txn.writes
    ensures OnlyReferencesChanged(store, Preflight(store, txn, order, settings).store)
    decreases |order|
  {
    if order != [] && PreflightAccepts(store, txn, order[0], settings.policy) {
      if settings.cap.None? {
        PreflightKeepsHistory(store, txn, order[1..], settings);
      } else {
        RelievePressureKeepsHistory(store, order[0], settings.cap.value);
        var relief := RelievePressure(store, order[0], settings.cap.value);
        if relief.Relieved? {
          PreflightKeepsHistory(relief.store, txn, order[1..], settings);
        }
      }
    }
  }

  /** An aborted commit installs nothing. */
  lemma AbortInstallsNothing(store: Store, txn: Transaction, order: seq<Block>, settings: Settings)
    requires ListsWrites(order, txn)
    ensures var outcome := Commit(store, txn, order, settings);
            outcome.Aborted? ==> OnlyReferencesChanged(store, outcome.store)
  {
    PreflightKeepsHistory(store, txn, order, settings);
  }

  lemma WatermarkIsOldest(store: Store, s: nat)
    requires s in store.active
    ensures Watermark(store) <= s
  {
  }

  // ----- what a commit installs -----

  /** What a write installs over content committed since its snapshot: its own change added to that
      content in place, or its own tail after it. */
  ghost predicate Joined(proof: Proof, base: Bytes, current: Bytes, staged: Bytes, installed: Bytes) {
    if proof.AppendOnly? then
      && proof.baseLen <= |current| && proof.baseLen <= |staged|
      && current[..proof.baseLen] == staged[..proof.baseLen] && installed == current + staged[proof.baseLen..]
    else
      ThreeWay(base, current, staged, installed) && installed == XorBytes(base, current, staged)
  }

  lemma JoinedOverChain(store: Store, txn: Transaction, b: Block, policy: ConflictPolicy)
    requires b in txn.writes && !FirstCommitter(store, txn, b) && InstallBytes(store, txn, b, policy).Some?
    ensures policy == SafeMerge
    ensures var chain := store.ChainOf(b);
            Joined(txn.writes[b].proof, Read(chain, txn.snapshot).GetOr([]), Read(chain, LatestSeqno(chain)).GetOr([]),
                   txn.writes[b].bytes, InstallBytes(store, txn, b, policy).value)
  {
    var chain, write := store.ChainOf(b), txn.writes[b];
    var base, latest := Read(chain, txn.snapshot).GetOr([]), Read(chain, LatestSeqno(chain)).GetOr([]);
    if !write.proof.AppendOnly? {
      MergeIsThreeWay(write.proof, base, latest, write.bytes);
      MergeAddsDelta(write.proof, base, latest, write.bytes);
    }
  }

  lemma InstalledBytesAreMerged(store: Store, log: Log, txn: Transaction, b: Block, policy: ConflictPolicy)
    requires Valid(store, log) && Intact(store, log, txn.snapshot) && b in txn.writes
    requires LastWrite(log, b) > txn.snapshot && InstallBytes(store, txn, b, policy).Some?
    ensures policy == SafeMerge
    ensures Joined(txn.writes[b].proof, ValueAt(log, b, txn.snapshot).GetOr([]), ValueAt(log, b, |log|).GetOr([]),
                   txn.writes[b].bytes, InstallBytes(store, txn, b, policy).value)
  {
    var chain := store.ChainOf(b);
    ReadAboveNewest(chain, LatestSeqno(chain), |log|);
    JoinedOverChain(store, txn, b, policy);
  }

  lemma CommittedEntry(store: Store, txn: Transaction, order: seq<Block>, settings: Settings, b: Block)
    requires ListsWrites(order, txn) && b in txn.writes && Commit(store, txn, order, settings).Committed?
    ensures b in Commit(store, txn, order, settings).entry
    ensures Some(Commit(store, txn, order, settings).entry[b]) == InstallBytes(store, txn, b, settings.installPolicy)
  {
    PreflightKeepsHistory(store, txn, order, settings);
    var after := Preflight(store, txn, order, settings).store;
    assert after.ChainOf(b) == store.ChainOf(b);
    ResolvedEntry(after, txn, order, settings.installPolicy, map[]);
  }

  /** Every write of a committed transaction is either the first since its snapshot, and then
      installed as staged, or joined with what was committed meanwhile: nothing committed since the
      snapshot is lost. */
  lemma CommitLosesNoUpdate(store: Store, log: Log, txn: Transaction, order: seq<Block>, settings: Settings, b: Block)
    requires Valid(store, log) && Intact(store, log, txn.snapshot) && ListsWrites(order, txn)
    requires b in txn.writes && Commit(store, txn, order, settings).Committed?
    ensures b in Commit(store, txn, order, settings).entry
    ensures var installed, write := Commit(store, txn, order, settings).entry[b], txn.writes[b];
            var base, current := ValueAt(log, b, txn.snapshot).GetOr([]), ValueAt(log, b, |log|).GetOr([]);
            if LastWrite(log, b) <= txn.snapshot then installed == write.bytes
            else settings.installPolicy == SafeMerge && Joined(write.proof, base, current, write.bytes, installed)
  {
    CommittedEntry(store, txn, order, settings, b);
    if LastWrite(log, b) > txn.snapshot {
      InstalledBytesAreMerged(store, log, txn, b, settings.installPolicy);
    }
  }

  /** First committer or not, an in-place write that keeps the block's size adds its change to the
      current content: what it differs by from the content it started from. */
  lemma CommitAddsItsChange(store: Store, log: Log, txn: Transaction, order: seq<Block>, settings: Settings, b: Block)
    requires Valid(store, log) && Intact(store, log, txn.snapshot) && ListsWrites(order, txn) && txn.snapshot <= |log|
    requires b in txn.writes && Commit(store, txn, order, settings).Committed? && !txn.writes[b].proof.AppendOnly?
    requires |txn.writes[b].bytes| == |ValueAt(log, b, |log|).GetOr([])|
    ensures b in Commit(store, txn, order, settings).entry
    ensures var base, current := ValueAt(log, b, txn.snapshot).GetOr([]), ValueAt(log, b, |log|).GetOr([]);
            && |base| == |current|
            && Commit(store, txn, order, settings).entry[b] == XorBytes(base, current, txn.writes[b].bytes)
  {
    CommitLosesNoUpdate(store, log, txn, order, settings, b);
    if LastWrite(log, b) <= txn.snapshot {
      ValueAtSettled(log, b, txn.snapshot);
      UnchangedBase(ValueAt(log, b, |log|).GetOr([]), txn.writes[b].bytes);
    }
  }

  lemma UnchangedBase(base: Bytes, staged: Bytes)
    requires |base| == |staged|
    ensures XorBytes(base, base, staged) == staged
  {
    forall i | 0 <= i < |base| ensures XorBytes(base, base, staged)[i] == staged[i] {
      XorWithItself(base[i], staged[i]);
    }
  }

  lemma XorWithItself(a: bv8, b: bv8)
    ensures a ^ a ^ b == b
  {
  }

  /** Under the strict policy only first committers get through. */
  lemma StrictMeansFirstCommitter(store: Store, log: Log, txn: Transaction, order: seq<Block>, settings: Settings)
    requires Valid(store, log) && ListsWrites(order, txn) && settings.installPolicy == Strict
    requires Commit(store, txn, order, settings).Committed?
    ensures forall b | b in txn.writes :: LastWrite(log, b) <= txn.snapshot
  {
    forall b | b in txn.writes ensures LastWrite(log, b) <= txn.snapshot {
      CommittedEntry(store, txn, order, settings, b);
    }
  }

  // ----- what the preflight accepts and the install phase does not -----

  /** The install phase sees the base the preflight saw, or does not need one: the block is not
      contended, had a version at the snapshot, or the recorded base says nothing. */
  ghost predicate BaseSurvives(store: Store, txn: Transaction, b: Block)
    requires b in txn.writes
  {
    var write := txn.writes[b];
    || FirstCommitter(store, txn, b) || Read(store.ChainOf(b), txn.snapshot).Some?
    || write.base.GetOr([]) == [] || write.proof == AppendOnly(0)
  }

  /** The base recorded with a write reaches only the preflight. A write the preflight accepts is
      installed if and only if that base makes no difference. */
  lemma RecordedBaseIsIgnoredAtInstall(store: Store, txn: Transaction, b: Block, policy: ConflictPolicy)
    requires b in txn.writes && PreflightAccepts(store, txn, b, policy)
    ensures InstallBytes(store, txn, b, policy).Some? <==> BaseSurvives(store, txn, b)
  {
  }

  lemma {:induction false} PassedAccepts(store: Store, txn: Transaction, order: seq<Block>, settings: Settings)
    requires (forall b | b in order :: b in txn.writes) && Preflight(store, txn, order, settings).Passed?
    ensures forall b | b in order :: PreflightAccepts(store, txn, b, settings.policy)
    decreases |order|
  {
    if order != [] {
      assert order == [order[0]] + order[1..];
      if settings.cap.None? {
        PassedAccepts(store, txn, order[1..], settings);
      } else {
        RelievePressureKeepsHistory(store, order[0], settings.cap.value);
        var after := RelievePressure(store, order[0], settings.cap.value).store;
        PassedAccepts(after, txn, order[1..], settings);
        forall b | b in order[1..] ensures PreflightAccepts(store, txn, b, settings.policy) {
          assert PreflightAccepts(after, txn, b, settings.policy) && after.ChainOf(b) == store.ChainOf(b);
        }
      }
    }
  }

  lemma {:induction false} ResolvesExactlyWhen(store: Store, txn: Transaction, order: seq<Block>,
                                               policy: ConflictPolicy,
                                               done: map<Block, Bytes>)
    requires forall b | b in order :: b in txn.writes
    ensures ResolveAll(store, txn, order, policy, done).Entry?
            <==> forall b | b in order :: InstallBytes(store, txn, b, policy).Some?
    decreases |order|
  {
    if order != [] {
      assert order == [order[0]] + order[1..];
      var bytes := InstallBytes(store, txn, order[0], policy);
      if bytes.Some? {
        ResolvesExactlyWhen(store, txn, order[1..], policy, done[order[0] := bytes.value]);
      }
    }
  }

  /** Under one policy, a transaction that passes its preflight commits if and only if the recorded
      base makes no difference to any of its blocks. */
  lemma PreflightDecidesExactlyWhen(store: Store, txn: Transaction, order: seq<Block>, settings: Settings)
    requires ListsWrites(order, txn) && 0 < txn.id < U64_MAX && store.next < U64_MAX
    requires settings.policy == settings.installPolicy && Preflight(store, txn, order, settings).Passed?
    ensures Commit(store, txn, order, settings).Committed?
            <==> forall b | b in txn.writes :: BaseSurvives(store, txn, b)
  {
    PassedAccepts(store, txn, order, settings);
    PreflightKeepsHistory(store, txn, order, settings);
    var after := Preflight(store, txn, order, settings).store;
    ResolvesExactlyWhen(after, txn, order, settings.installPolicy, map[]);
    forall b | b in order
      ensures InstallBytes(after, txn, b, settings.installPolicy).Some? <==> BaseSurvives(store, txn, b)
    {
      assert after.ChainOf(b) == store.ChainOf(b) && PreflightAccepts(store, txn, b, settings.policy);
      RecordedBaseIsIgnoredAtInstall(store, txn, b, settings.policy);
    }
  }

  /** Two transactions write disjoint ranges of a block that has no version yet. The
      preflight lets the second through; the install phase refuses it. */
  lemma PreflightAndInstallDisagree()
    ensures var store := Store(2, map[7 := [Version(1, Full([1, 0]))]], map[], map[]);
            var write := StagedWrite([0, 1], RangeOverlay([Range(1, 1)]), Some([0, 0]));
            var txn := Transaction(2, 0, map[7 := write]);
            && PreflightAccepts(store, txn, 7, SafeMerge)
            && Commit(store, txn, [7], Settings(true, None, SafeMerge, SafeMerge)) == Aborted(store, Conflict(7))
  {
    var store := Store(2, map[7 := [Version(1, Full([1, 0]))]], map[], map[]);
    var write := StagedWrite([0, 1], RangeOverlay([Range(1, 1)]), Some([0, 0]));
    var txn := Transaction(2, 0, map[7 := write]);
    var settings := Settings(true, None, SafeMerge, SafeMerge);
    var chain := store.ChainOf(7);
    VisibleCountIs(chain, 0, 0);
    VisibleCountIs(chain, 1, 1);
    OneRangeMerges();
    assert PreflightAccepts(store, txn, 7, SafeMerge);
    RecordedBaseIsIgnoredAtInstall(store, txn, 7, SafeMerge);
    assert [7][1..] == [];
    assert Preflight(store, txn, [], settings) == Passed(store);
  }

  lemma OneRangeMerges()
    ensures OverlayValid([Range(1, 1)], [0, 0], [1, 0], [0, 1])
  {
    var ranges := [Range(1, 1)];
    assert ranges[0].Contains(1) && !Covered(ranges, 0);
  }

  // ----- whole runs -----

  datatype Action =
    | DoCommit(txn: Transaction, order: seq<Block>, settings: Settings)
    | DoRegister(snapshot: nat)
    | DoRelease(snapshot: nat)
    | DoPrune

  ghost predicate Allowed(action: Action) { action.DoCommit? ==> ListsWrites(action.order, action.txn) }

  ghost function Register(store: Store, snapshot: nat): Store {
    store.(active := store.active[snapshot := 1 + if snapshot in store.active then store.active[snapshot] else 0])
  }

  ghost function Release(store: Store, snapshot: nat): Store {
    if snapshot in store.active then
      if store.active[snapshot] > 1 then store.(active := store.active[snapshot := store.active[snapshot] - 1])
      else store.(active := store.active - {snapshot})
    else if snapshot in store.forced then
      if store.forced[snapshot] > 1 then store.(forced := store.forced[snapshot := store.forced[snapshot] - 1])
      else store.(forced := store.forced - {snapshot})
    else store
  }

  datatype World = World(store: Store, log: Log)

  ghost function Apply(w: World, action: Action): World
    requires Allowed(action)
  {
    match action
    case DoCommit(txn, order, settings) =>
      (match Commit(w.store, txn, order, settings)
       case Committed(store, entry) => World(store, w.log + [entry])
       case Aborted(store, _) => World(store, w.log))
    case DoRegister(s) => World(Register(w.store, s), w.log)
    case DoRelease(s) => World(Release(w.store, s), w.log)
    case DoPrune => var wm := Watermark(w.store); World(Prune(w.store, if wm < 0 then 0 else wm), w.log)
  }

  ghost function RunAll(w: World, actions: seq<Action>): World
    requires forall a | a in actions :: Allowed(a)
    decreases |actions|
  {
    if actions == [] then w else RunAll(Apply(w, actions[0]), actions[1..])
  }

  /** The snapshot is registered now and after every action. */
  ghost predicate StaysRegistered(w: World, actions: seq<Action>, s: nat)
    requires forall a | a in actions :: Allowed(a)
    decreases |actions|
  {
    s in w.store.active && (actions == [] || StaysRegistered(Apply(w, actions[0]), actions[1..], s))
  }

  lemma ReferencesDoNotMatter(before: Store, after: Store, log: Log, s: nat)
    requires after.next == before.next && after.chains == before.chains
    ensures Valid(before, log) ==> Valid(after, log)
    ensures Intact(before, log, s) ==> Intact(after, log, s)
  {
    assert forall b :: after.ChainOf(b) == before.ChainOf(b);
  }

  lemma CommitKeeps(w: World, txn: Transaction, order: seq<Block>, settings: Settings, s: nat)
    requires Valid(w.store, w.log) && ListsWrites(order, txn)
    ensures var next := Apply(w, DoCommit(txn, order, settings));
            && Valid(next.store, next.log) && w.log <= next.log
            && (s <= |w.log| && Intact(w.store, w.log, s) && s in next.store.active ==> Intact(next.store, next.log, s))
  {
    PreflightKeepsHistory(w.store, txn, order, settings);
    AbortInstallsNothing(w.store, txn, order, settings);
    var outcome := Commit(w.store, txn, order, settings);
    if outcome.Committed? {
      var after := Preflight(w.store, txn, order, settings).store;
      ReferencesDoNotMatter(w.store, after, w.log, s);
      var wm := InstallWatermark(after);
      InstallIsValid(after, w.log, outcome.entry, settings, wm);
      if s <= |w.log| && Intact(w.store, w.log, s) && s in outcome.store.active {
        WatermarkIsOldest(after.(next := after.next + 1), s);
        InstallKeepsSnapshots(after, w.log, outcome.entry, settings, wm, s);
      }
    } else {
      ReferencesDoNotMatter(w.store, outcome.store, w.log, s);
    }
  }

  lemma StepKeeps(w: World, action: Action, s: nat)
    requires Valid(w.store, w.log) && Allowed(action)
    ensures var next := Apply(w, action);
            && Valid(next.store, next.log) && w.log <= next.log
            && (s <= |w.log| && Intact(w.store, w.log, s) && s in w.store.active && s in next.store.active
            ==> Intact(next.store, next.log, s))
  {
    match action
    case DoCommit(txn, order, settings) => CommitKeeps(w, txn, order, settings, s);
    case DoRegister(r) => ReferencesDoNotMatter(w.store, Register(w.store, r), w.log, s);
    case DoRelease(r) => ReferencesDoNotMatter(w.store, Release(w.store, r), w.log, s);
    case DoPrune =>
      var wm := Watermark(w.store);
      PruneIsValid(w.store, w.log, wm);
      if Intact(w.store, w.log, s) && s in w.store.active {
        WatermarkIsOldest(w.store, s);
        PruneKeepsSnapshots(w.store, w.log, wm, s);
      }
  }

  lemma {:induction false} ValueIsStable(log: Log, longer: Log, b: Block, s: nat)
    requires log <= longer && s <= |log|
    ensures ValueAt(longer, b, s) == ValueAt(log, b, s)
  {
    if s > 0 {
      ValueIsStable(log, longer, b, s - 1);
    }
  }

  /** Snapshot isolation over every run: whatever commits, aborts, prunes, registrations and
      releases happen, a snapshot that was intact when last looked at and has stayed
      registered still reads every block exactly as it did then, which is the block's last
      committed content at or below the snapshot. */
  lemma {:induction false} RegisteredReadsAreStable(w: World, actions: seq<Action>, s: nat)
    requires Valid(w.store, w.log) && s <= |w.log| && Intact(w.store, w.log, s)
    requires (forall a | a in actions :: Allowed(a)) && StaysRegistered(w, actions, s)
    ensures var end := RunAll(w, actions);
            && Valid(end.store, end.log) && w.log <= end.log
            && forall b: Block :: Read(end.store.ChainOf(b), s) == Read(w.store.ChainOf(b), s) == ValueAt(w.log, b, s)
    decreases |actions|
  {
    if actions != [] {
      var next := Apply(w, actions[0]);
      StepKeeps(w, actions[0], s);
      RegisteredReadsAreStable(next, actions[1..], s);
      forall b: Block ensures ValueAt(next.log, b, s) == ValueAt(w.log, b, s) {
        ValueIsStable(w.log, next.log, b, s);
      }
    }
  }
}
