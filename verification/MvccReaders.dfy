/** What a reader that holds a snapshot can rely on. The store counts the references to every
    registered snapshot; under chain pressure a commit takes references away from readers that
    still hold them. */
module MvccReaders {
  import opened MvccChain
  import opened MvccCommit
  import opened MvccMerge
  import opened MvccSpec
  import opened Wrappers

  // ----- references -----

  function Count(refs: map<nat, nat>, s: nat): nat { if s in refs then refs[s] else 0 }

  /** The references to `s`, whether they still protect it or were taken away. */
  function References(store: Store, s: nat): nat { Count(store.active, s) + Count(store.forced, s) }

  /** No snapshot is listed without a reference. */
  ghost predicate Counted(store: Store) {
    (forall s | s in store.active :: store.active[s] > 0) && (forall s | s in store.forced :: store.forced[s] > 0)
  }

  /** How many hold `s` after a call, counting registrations and releases as the callers make them. */
  function Holders(n: nat, action: Action, s: nat): nat {
    match action
    case DoRegister(r) => if r == s then n + 1 else n
    case DoRelease(r) => if r == s && n > 0 then n - 1 else n
    case _ => n
  }

  lemma RegisterCounts(store: Store, r: nat, s: nat)
    requires Counted(store)
    ensures Counted(Register(store, r))
            && References(Register(store, r), s) == Holders(References(store, s), DoRegister(r), s)
  {
  }

  lemma ReleaseCounts(store: Store, r: nat, s: nat)
    requires Counted(store)
    ensures Counted(Release(store, r))
            && References(Release(store, r), s) == Holders(References(store, s), DoRelease(r), s)
  {
  }

  /** A forced advance takes no reference away from the count, it only stops one from protecting. */
  lemma ForceMoves(store: Store, s: nat)
    requires Counted(store) && store.active.Keys != {}
    ensures Counted(ForceAdvance(store)) && References(ForceAdvance(store), s) == References(store, s)
    ensures Count(ForceAdvance(store).forced, s) == Count(store.forced, s) + if s == Watermark(store) then 1 else 0
  {
  }

  lemma ReliefConserves(store: Store, b: Block, cap: nat, s: nat)
    requires Counted(store)
    ensures var after := RelievePressure(store, b, cap).store;
            && Counted(after) && References(after, s) == References(store, s)
            && Count(after.forced, s) >= Count(store.forced, s)
  {
    if store.active.Keys != {} {
      ForceMoves(store, s);
    }
  }

  lemma {:induction false} PreflightConserves(store: Store, txn: Transaction, order: seq<Block>, settings: Settings,
                                              s: nat)
    requires (forall b | b in order :: b in txn.writes) && Counted(store)
    ensures var after := Preflight(store, txn, order, settings).store;
            && Counted(after) && References(after, s) == References(store, s)
            && Count(after.forced, s) >= Count(store.forced, s)
    decreases |order|
  {
    if order != [] && PreflightAccepts(store, txn, order[0], settings.policy) {
      if settings.cap.None? {
        PreflightConserves(store, txn, order[1..], settings, s);
      } else {
        ReliefConserves(store, order[0], settings.cap.value, s);
        var relief := RelievePressure(store, order[0], settings.cap.value);
        if relief.Relieved? {
          PreflightConserves(relief.store, txn, order[1..], settings, s);
        }
      }
    }
  }

  /** Every operation keeps the count of holders: registering adds one, releasing takes one, and
      nothing else changes it. */
  lemma ReferencesAreConserved(w: World, action: Action, s: nat)
    requires Counted(w.store) && Allowed(action)
    ensures var after := Apply(w, action).store;
            Counted(after) && References(after, s) == Holders(References(w.store, s), action, s)
  {
    match action
    case DoCommit(txn, order, settings) => PreflightConserves(w.store, txn, order, settings, s);
    case DoRegister(r) => RegisterCounts(w.store, r, s);
    case DoRelease(r) => ReleaseCounts(w.store, r, s);
    case DoPrune =>
  }

  // ----- when a commit takes references away -----

  ghost predicate Pressed(store: Store, b: Block, cap: nat) {
    0 < |store.ChainOf(b)| && CriticalLength(cap) <= |store.ChainOf(b)| && TrimBlocked(store, b, Watermark(store))
  }

  ghost predicate NonePressed(store: Store, order: seq<Block>, settings: Settings) {
    settings.cap.None? || forall b | b in order :: !Pressed(store, b, settings.cap.value)
  }

  /** The blocks whose pressure a commit looks at: those before the first conflict. */
  ghost function Looked(store: Store, txn: Transaction, order: seq<Block>, policy: ConflictPolicy): seq<Block>
    requires forall b | b in order :: b in txn.writes
  {
    if order == [] || !PreflightAccepts(store, txn, order[0], policy) then []
    else [order[0]] + Looked(store, txn, order[1..], policy)
  }

  /** Without an over-long chain that a snapshot keeps from being trimmed, nothing is taken. */
  lemma {:induction false} UnpressedForcesNobody(store: Store, txn: Transaction, order: seq<Block>, settings: Settings)
    requires forall b | b in order :: b in txn.writes
    requires NonePressed(store, Looked(store, txn, order, settings.policy), settings)
    ensures Preflight(store, txn, order, settings).store == store
    decreases |order|
  {
    if order != [] && PreflightAccepts(store, txn, order[0], settings.policy) {
      var looked := Looked(store, txn, order, settings.policy);
      assert looked == [order[0]] + looked[1..];
      if settings.cap.Some? {
        assert !Pressed(store, order[0], settings.cap.value);
        assert RelievePressure(store, order[0], settings.cap.value) == Relieved(store);
      }
      UnpressedForcesNobody(store, txn, order[1..], settings);
    }
  }

  /** With one, a commit takes a reference from whoever is oldest, whether it goes ahead or not. */
  lemma {:induction false} PressedForcesSomebody(store: Store, txn: Transaction, order: seq<Block>, settings: Settings)
    requires (forall b | b in order :: b in txn.writes) && Counted(store) && store.active.Keys != {}
    requires !NonePressed(store, Looked(store, txn, order, settings.policy), settings)
    ensures Count(Preflight(store, txn, order, settings).store.forced, Oldest(store.active.Keys))
            > Count(store.forced, Oldest(store.active.Keys))
    decreases |order|
  {
    var first, cap, looked := order[0], settings.cap.value, Looked(store, txn, order, settings.policy);
    assert looked == [first] + looked[1..];
    if Pressed(store, first, cap) {
      var oldest := Oldest(store.active.Keys);
      ForceMoves(store, oldest);
      if RelievePressure(store, first, cap).Relieved? {
        PreflightConserves(ForceAdvance(store), txn, order[1..], settings, oldest);
      }
    } else {
      assert RelievePressure(store, first, cap) == Relieved(store);
      PressedForcesSomebody(store, txn, order[1..], settings);
    }
  }

  lemma {:induction false} NobodyToForce(store: Store, txn: Transaction, order: seq<Block>, settings: Settings)
    requires (forall b | b in order :: b in txn.writes) && store.active.Keys == {}
    ensures Preflight(store, txn, order, settings).store == store
    decreases |order|
  {
    if order != [] && PreflightAccepts(store, txn, order[0], settings.policy) {
      if settings.cap.Some? {
        assert RelievePressure(store, order[0], settings.cap.value).store == store;
      }
      NobodyToForce(store, txn, order[1..], settings);
    }
  }

  /** A commit, whatever comes of it, leaves all readers alone if and only if there are none or none of
      the blocks before its first conflict is under pressure when it starts. */
  lemma ForcesExactlyWhen(store: Store, txn: Transaction, order: seq<Block>, settings: Settings)
    requires (forall b | b in order :: b in txn.writes) && Counted(store)
    ensures Preflight(store, txn, order, settings).store == store
            <==> store.active.Keys == {} || NonePressed(store, Looked(store, txn, order, settings.policy), settings)
  {
    if store.active.Keys == {} {
      NobodyToForce(store, txn, order, settings);
    } else if NonePressed(store, Looked(store, txn, order, settings.policy), settings) {
      UnpressedForcesNobody(store, txn, order, settings);
    } else {
      PressedForcesSomebody(store, txn, order, settings);
    }
  }

  // ----- isolation for whoever holds a snapshot -----

  /** Counting what the callers do, somebody holds the snapshot throughout. */
  ghost predicate HeldThroughout(n: nat, actions: seq<Action>, s: nat)
    decreases |actions|
  {
    n > 0 && (actions == [] || HeldThroughout(Holders(n, actions[0], s), actions[1..], s))
  }

  ghost predicate Forces(w: World, action: Action, s: nat)
    requires Allowed(action)
  {
    Count(Apply(w, action).store.forced, s) > Count(w.store.forced, s)
  }

  ghost predicate NeverForced(w: World, actions: seq<Action>, s: nat)
    requires forall a | a in actions :: Allowed(a)
    decreases |actions|
  {
    actions == [] || (!Forces(w, actions[0], s) && NeverForced(Apply(w, actions[0]), actions[1..], s))
  }

  lemma {:induction false} HeldStaysRegistered(w: World, actions: seq<Action>, s: nat)
    requires Counted(w.store) && (forall a | a in actions :: Allowed(a))
    requires HeldThroughout(Count(w.store.active, s), actions, s) && NeverForced(w, actions, s)
    ensures StaysRegistered(w, actions, s)
    decreases |actions|
  {
    if actions != [] {
      HeldCountsOn(w, actions[0], s);
      HeldStaysRegistered(Apply(w, actions[0]), actions[1..], s);
    }
  }

  /** A step that does not force `s` changes its active references as the callers do. */
  lemma HeldCountsOn(w: World, action: Action, s: nat)
    requires Counted(w.store) && Allowed(action) && Count(w.store.active, s) > 0 && !Forces(w, action, s)
    ensures Counted(Apply(w, action).store)
    ensures Count(Apply(w, action).store.active, s) == Holders(Count(w.store.active, s), action, s)
  {
    ReferencesAreConserved(w, action, s);
    if action.DoCommit? {
      PreflightConserves(w.store, action.txn, action.order, action.settings, s);
    }
  }

  /** Snapshot isolation over every run, in terms of what callers do: while registrations of `s`,
      counted from its active references, outnumber releases, and no commit takes a reference to it
      away, every block reads at `s` as it did at the start, which is its last committed content at or
      below `s`. */
  lemma SnapshotIsolation(w: World, actions: seq<Action>, s: nat)
    requires Valid(w.store, w.log) && Counted(w.store) && s <= |w.log| && Intact(w.store, w.log, s)
    requires forall a | a in actions :: Allowed(a)
    requires HeldThroughout(Count(w.store.active, s), actions, s) && NeverForced(w, actions, s)
    ensures var end := RunAll(w, actions);
            && Valid(end.store, end.log) && w.log <= end.log
            && forall b: Block :: Read(end.store.ChainOf(b), s) == Read(w.store.ChainOf(b), s) == ValueAt(w.log, b, s)
  {
    HeldStaysRegistered(w, actions, s);
    RegisteredReadsAreStable(w, actions, s);
  }

  // ----- exactly when a view survives, whoever holds it -----

  /** The version `s` reads was the old head's or later, and the new head is past it. */
  ghost predicate DropsPast(before: Chain, after: Chain, s: nat) {
    before != [] && after != [] && before[0].seqno <= s < after[0].seqno
  }

  ghost predicate Drops(w: World, action: Action, s: nat)
    requires Allowed(action)
  {
    exists b: Block :: DropsPast(w.store.ChainOf(b), Apply(w, action).store.ChainOf(b), s)
  }

  ghost predicate NeverDrops(w: World, actions: seq<Action>, s: nat)
    requires forall a | a in actions :: Allowed(a)
    decreases |actions|
  {
    actions == [] || (!Drops(w, actions[0], s) && NeverDrops(Apply(w, actions[0]), actions[1..], s))
  }

  /** What a step does to one chain: it keeps it, trims it, or extends and caps it. In every case the
      head only moves forward, and reads change exactly when it moves past the snapshot. */
  ghost predicate Advances(before: Chain, after: Chain, s: nat) {
    && (before != [] ==> after != [] && before[0].seqno <= after[0].seqno)
    && (Read(after, s) == Read(before, s) <==> !DropsPast(before, after, s))
  }

  lemma PruneAdvances(chain: Chain, wm: nat, s: nat)
    requires WellFormed(chain)
    ensures Advances(chain, PruneChain(chain, wm), s)
  {
    if |chain| > 1 {
      TrimKeepsReadExactlyWhen(chain, PruneFrom(chain, wm), s);
      TrimIsWellFormed(chain, PruneFrom(chain, wm));
    }
  }

  lemma InstallAdvances(chain: Chain, seqno: nat, bytes: Bytes, settings: Settings, wm: nat, s: nat)
    requires WellFormed(chain) && LatestSeqno(chain) < seqno && s < seqno
    ensures Advances(chain, InstallChain(chain, seqno, bytes, settings, wm), s)
  {
    var extended := Extend(chain, seqno, bytes, settings.dedup);
    ExtendIsWellFormed(chain, seqno, bytes, settings.dedup);
    ReadOfExtend(chain, seqno, bytes, settings.dedup, s);
    assert chain != [] ==> extended[0] == chain[0];
    CapAdvances(extended, settings.cap, wm, s);
  }

  lemma CapAdvances(chain: Chain, cap: Option<nat>, wm: nat, s: nat)
    requires WellFormed(chain) && chain != []
    ensures Advances(chain, CapChain(chain, cap, wm), s) && CapChain(chain, cap, wm) != []
  {
    if cap.Some? {
      var keepFrom := CapFrom(chain, if cap.value == 0 then 1 else cap.value, wm);
      TrimKeepsReadExactlyWhen(chain, keepFrom, s);
      TrimIsWellFormed(chain, keepFrom);
    }
  }

  lemma StepAdvances(w: World, action: Action, s: nat, b: Block)
    requires Valid(w.store, w.log) && Allowed(action) && s <= |w.log|
    ensures Advances(w.store.ChainOf(b), Apply(w, action).store.ChainOf(b), s)
  {
    var chain := w.store.ChainOf(b);
    match action
    case DoCommit(txn, order, settings) => CommitAdvances(w, txn, order, settings, s, b);
    case DoRegister(_) =>
    case DoRelease(_) =>
    case DoPrune =>
      var wm := Watermark(w.store);
      PruneAdvances(chain, wm, s);
  }

  lemma CommitAdvances(w: World, txn: Transaction, order: seq<Block>, settings: Settings, s: nat, b: Block)
    requires Valid(w.store, w.log) && ListsWrites(order, txn) && s <= |w.log|
    ensures Advances(w.store.ChainOf(b), Apply(w, DoCommit(txn, order, settings)).store.ChainOf(b), s)
  {
    var chain, outcome := w.store.ChainOf(b), Commit(w.store, txn, order, settings);
    CommittedChain(w.store, txn, order, settings, b);
    if outcome.Committed? && b in outcome.entry {
      var wm := InstallWatermark(Preflight(w.store, txn, order, settings).store);
      InstallAdvances(chain, w.store.next, outcome.entry[b], settings, wm, s);
    }
  }

  /** What a commit does to one chain. */
  lemma CommittedChain(store: Store, txn: Transaction, order: seq<Block>, settings: Settings, b: Block)
    requires ListsWrites(order, txn)
    ensures var outcome := Commit(store, txn, order, settings);
            outcome.store.ChainOf(b)
            == if outcome.Committed? && b in outcome.entry
               then InstallChain(store.ChainOf(b), store.next, outcome.entry[b], settings,
                                 InstallWatermark(Preflight(store, txn, order, settings).store))
               else store.ChainOf(b)
  {
    PreflightKeepsHistory(store, txn, order, settings);
    AbortInstallsNothing(store, txn, order, settings);
  }

  /** A block whose content at `s` is gone from the store for good. */
  ghost predicate Lost(w: World, s: nat) {
    exists b: Block :: LostAt(w, s, b)
  }

  ghost predicate LostAt(w: World, s: nat, b: Block) {
    w.store.ChainOf(b) != [] && s < w.store.ChainOf(b)[0].seqno && ValueAt(w.log, b, s).Some?
  }

  lemma LostIsNotIntact(w: World, s: nat)
    requires Valid(w.store, w.log) && Lost(w, s)
    ensures !Intact(w.store, w.log, s)
  {
    var b: Block :| LostAt(w, s, b);
    assert WellFormed(w.store.ChainOf(b));
    VisibleExactlyFromHead(w.store.ChainOf(b), s);
    assert Read(w.store.ChainOf(b), s) != ValueAt(w.log, b, s);
  }

  /** One step keeps the view exactly when no head moves past the snapshot; once it has, it is lost. */
  lemma StepKeepsViewExactlyWhen(w: World, action: Action, s: nat)
    requires Valid(w.store, w.log) && Allowed(action) && s <= |w.log| && Intact(w.store, w.log, s)
    ensures !Drops(w, action, s) ==> Intact(Apply(w, action).store, Apply(w, action).log, s)
    ensures Drops(w, action, s) ==> Lost(Apply(w, action), s)
  {
    var next := Apply(w, action);
    StepKeeps(w, action, s);
    if !Drops(w, action, s) {
      forall b: Block ensures Read(next.store.ChainOf(b), s) == ValueAt(next.log, b, s) {
        StepAdvances(w, action, s, b);
        ValueIsStable(w.log, next.log, b, s);
        assert !DropsPast(w.store.ChainOf(b), next.store.ChainOf(b), s);
        assert Read(w.store.ChainOf(b), s) == ValueAt(w.log, b, s);
      }
    } else {
      var b: Block :| DropsPast(w.store.ChainOf(b), next.store.ChainOf(b), s);
      assert WellFormed(w.store.ChainOf(b));
      VisibleExactlyFromHead(w.store.ChainOf(b), s);
      assert Read(w.store.ChainOf(b), s) == ValueAt(w.log, b, s);
      ValueIsStable(w.log, next.log, b, s);
      assert LostAt(next, s, b);
    }
  }

  lemma LostStaysLost(w: World, action: Action, s: nat)
    requires Valid(w.store, w.log) && Allowed(action) && s <= |w.log| && Lost(w, s)
    ensures Lost(Apply(w, action), s)
  {
    var b: Block :| LostAt(w, s, b);
    var next := Apply(w, action);
    StepKeeps(w, action, s);
    StepAdvances(w, action, s, b);
    ValueIsStable(w.log, next.log, b, s);
    assert LostAt(next, s, b);
  }

  lemma {:induction false} LostForGood(w: World, actions: seq<Action>, s: nat)
    requires Valid(w.store, w.log) && (forall a | a in actions :: Allowed(a)) && s <= |w.log| && Lost(w, s)
    ensures Valid(RunAll(w, actions).store, RunAll(w, actions).log) && Lost(RunAll(w, actions), s)
    decreases |actions|
  {
    if actions != [] {
      StepKeeps(w, actions[0], s);
      LostStaysLost(w, actions[0], s);
      LostForGood(Apply(w, actions[0]), actions[1..], s);
    }
  }

  /** Over any run at all, registered or not, a snapshot that was intact is intact at the end if and
      only if no step moved the head of a chain past it. */
  lemma {:induction false} ViewSurvivesExactlyWhen(w: World, actions: seq<Action>, s: nat)
    requires Valid(w.store, w.log) && (forall a | a in actions :: Allowed(a))
    requires s <= |w.log| && Intact(w.store, w.log, s)
    ensures Intact(RunAll(w, actions).store, RunAll(w, actions).log, s) <==> NeverDrops(w, actions, s)
    decreases |actions|
  {
    if actions != [] {
      var next := Apply(w, actions[0]);
      StepKeeps(w, actions[0], s);
      StepKeepsViewExactlyWhen(w, actions[0], s);
      if Drops(w, actions[0], s) {
        LostForGood(next, actions[1..], s);
        LostIsNotIntact(RunAll(next, actions[1..]), s);
      } else {
        ViewSurvivesExactlyWhen(next, actions[1..], s);
      }
    }
  }

  // ----- instances -----

  const CHAIN: Chain := [Version(1, Full([1])), Version(2, Full([2])), Version(3, Full([3])), Version(4, Full([4]))]
  const CAPPED := Settings(false, Some(1), Strict, Strict)
  const WRITER := Transaction(9, 4, map[0 := StagedWrite([5], Unsafe, None)])

  lemma LoneReaderIsForced(store: Store, chains: map<Block, Chain>)
    requires store == Store(5, chains, map[1 := 1], map[]) && store.active.Keys != {}
    ensures ForceAdvance(store) == Store(5, chains, map[], map[1 := 1])
  {
    assert Watermark(store) == 1;
    assert store.active - {1} == map[];
  }

  lemma WriterPassesByForce()
    ensures Preflight(Store(5, map[0 := CHAIN], map[1 := 1], map[]), WRITER, [0], CAPPED)
            == Passed(Store(5, map[0 := CHAIN], map[], map[1 := 1]))
  {
    var store, forced := Store(5, map[0 := CHAIN], map[1 := 1], map[]), Store(5, map[0 := CHAIN], map[], map[1 := 1]);
    assert store.ChainOf(0) == forced.ChainOf(0) == CHAIN;
    assert 1 in store.active.Keys;
    assert Watermark(store) == 1 && Watermark(forced) == 4;
    LoneReaderIsForced(store, map[0 := CHAIN]);
    assert RelievePressure(store, 0, 1) == Relieved(forced);
    assert [0][1..] == [];
    assert Preflight(forced, WRITER, [], CAPPED) == Passed(forced);
  }

  lemma WriterTrimsToItself()
    ensures Read(InstallChain(CHAIN, 5, [5], CAPPED, 5), 1) == None
  {
    var extended := Extend(CHAIN, 5, [5], false);
    assert extended == CHAIN + [Version(5, Full([5]))];
    VisibleCountIs(extended, 5, 5);
    var trimmed := Trim(extended, 4);
    TrimIsWellFormed(extended, 4);
    VisibleExactlyFromHead(trimmed, 1);
  }

  lemma WriterResolves(store: Store)
    requires store.ChainOf(0) == CHAIN
    ensures ResolveAll(store, WRITER, [0], Strict, map[]) == Entry(map[0 := [5]])
  {
    assert [0][1..] == [];
    assert InstallBytes(store, WRITER, 0, Strict) == Some([5]);
    assert ResolveAll(store, WRITER, [], Strict, map[0 := [5]]) == Entry(map[0 := [5]]);
  }

  /** Four versions, a cap of one, and a reader at the first: the next commit goes ahead, takes the
      reader's reference and drops the version it reads. The reader has released nothing. */
  lemma ForcedReaderLosesItsView()
    ensures var store := Store(5, map[0 := CHAIN], map[1 := 1], map[]);
            var outcome := Commit(store, WRITER, [0], CAPPED);
            && outcome.Committed? && References(outcome.store, 1) == 1 && 1 !in outcome.store.active
            && Read(store.ChainOf(0), 1) == Some([1]) && Read(outcome.store.ChainOf(0), 1) == None
  {
    var forced := Store(5, map[0 := CHAIN], map[], map[1 := 1]);
    VisibleCountIs(CHAIN, 1, 1);
    WriterPassesByForce();
    WriterResolves(forced);
    assert InstallWatermark(forced) == 5;
    WriterTrimsToItself();
  }

  /** Two readers of one snapshot, one of them forced out: when that one lets go, the reference it
      gives back is the other's, who then holds the snapshot without protecting it. */
  lemma LateReleaseUnregistersAnother()
    ensures var store := Store(5, map[], map[1 := 1], map[1 := 1]);
            Counted(store) && References(Release(store, 1), 1) == 1 && 1 !in Release(store, 1).active
  {
  }

  /** A release leaves the other holders registered if and only if more than one active reference was
      left; without forced advances that is whenever there are other holders. */
  lemma ReleaseKeepsOthersExactlyWhen(store: Store, s: nat)
    requires Counted(store) && References(store, s) > 1
    ensures s in Release(store, s).active <==> Count(store.active, s) > 1
    ensures Count(store.forced, s) == 0 ==> s in Release(store, s).active
  {
  }
}
