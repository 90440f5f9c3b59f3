/** When a commit goes ahead, said of the transaction and the store before it: which blocks conflict, and
    how many references to old snapshots may hold up its over-long chains. */
module MvccPreflight {
  import opened MvccChain
  import opened MvccCommit
  import opened MvccMerge
  import opened MvccReaders
  import opened MvccSpec
  import opened Wrappers

  // ----- references below a commit -----

  /** The active references to snapshots older than `below`. */
  ghost function Holding(active: map<nat, nat>, below: nat): nat {
    if below == 0 then 0 else Holding(active, below - 1) + Count(active, below - 1)
  }

  lemma {:induction false} NobodyHolds(active: map<nat, nat>, below: nat)
    requires forall s | s in active :: below <= s
    ensures Holding(active, below) == 0
  {
    if below > 0 {
      NobodyHolds(active, below - 1);
    }
  }

  lemma {:induction false} SomebodyHolds(active: map<nat, nat>, below: nat, s: nat)
    requires s in active && active[s] > 0 && s < below
    ensures Holding(active, below) > 0
  {
    if s < below - 1 {
      SomebodyHolds(active, below - 1, s);
    }
  }

  lemma HeldBySomebody(active: map<nat, nat>, below: nat)
    requires Holding(active, below) > 0
    ensures active.Keys != {}
  {
    if active.Keys == {} {
      NobodyHolds(active, below);
    }
  }

  function Less(n: nat, k: nat): nat { if n <= k then 0 else n - k }

  /** The `k` oldest references are gone. */
  ghost predicate Taken(before: map<nat, nat>, after: map<nat, nat>, k: nat) {
    forall t: nat :: Holding(after, t) == Less(Holding(before, t), k)
  }

  /** A forced advance takes the oldest reference. */
  lemma ForceTakesOldest(store: Store)
    requires Counted(store) && store.active.Keys != {}
    ensures Taken(store.active, ForceAdvance(store).active, 1)
  {
    forall t: nat ensures Holding(ForceAdvance(store).active, t) == Less(Holding(store.active, t), 1) {
      ForceTakesOne(store, t);
    }
  }

  lemma {:induction false} ForceTakesOne(store: Store, t: nat)
    requires Counted(store) && store.active.Keys != {}
    ensures Holding(ForceAdvance(store).active, t) == Less(Holding(store.active, t), 1)
    ensures t > Oldest(store.active.Keys) ==> Holding(store.active, t) > 0
  {
    var oldest := Oldest(store.active.Keys);
    if t <= oldest {
      NobodyHolds(store.active, t);
      NobodyHolds(ForceAdvance(store).active, t);
    } else {
      ForceTakesOne(store, t - 1);
      SomebodyHolds(store.active, t, oldest);
      if t - 1 <= oldest {
        NobodyHolds(store.active, t - 1);
      }
    }
  }

  // ----- one block -----

  /** A chain of four times the cap is over-long. */
  predicate OverLong(chain: Chain, cap: nat) { |chain| >= 4 * if cap == 0 then 1 else cap }

  /** The references that keep a block's over-long chain from being trimmed: those to snapshots older than
      its second version. */
  ghost function HeldUp(active: map<nat, nat>, chain: Chain, cap: nat): nat {
    if OverLong(chain, cap) && |chain| > 1 then Holding(active, chain[1].seqno) else 0
  }

  lemma BlockedExactlyWhen(store: Store, b: Block)
    requires Ordered(store) && Counted(store)
    ensures TrimBlocked(store, b, Watermark(store))
            <==> |store.ChainOf(b)| > 1 && Holding(store.active, store.ChainOf(b)[1].seqno) > 0
  {
    var chain := store.ChainOf(b);
    if |chain| > 1 {
      assert OrderedChain(chain, store.next);
      if store.active.Keys == {} {
        NobodyHolds(store.active, chain[1].seqno);
      } else if Oldest(store.active.Keys) < chain[1].seqno {
        SomebodyHolds(store.active, chain[1].seqno, Oldest(store.active.Keys));
      } else {
        NobodyHolds(store.active, chain[1].seqno);
      }
    }
  }

  /** One block under pressure: held up by nobody, nothing happens; by one reference, it is taken; by more,
      the oldest is taken and the commit refused. */
  lemma PressureExactlyWhen(store: Store, b: Block, cap: nat)
    requires Ordered(store) && Counted(store)
    ensures var held, relief := HeldUp(store.active, store.ChainOf(b), cap), RelievePressure(store, b, cap);
            && (relief.Relieved? <==> held <= 1)
            && Taken(store.active, relief.store.active, if held == 0 then 0 else 1)
            && Ordered(relief.store) && Counted(relief.store)
            && relief.store.chains == store.chains && relief.store.next == store.next
  {
    BlockedExactlyWhen(store, b);
    if HeldUp(store.active, store.ChainOf(b), cap) > 0 {
      HeldBySomebody(store.active, store.ChainOf(b)[1].seqno);
      var advanced := ForceAdvance(store);
      ForceMoves(store, 0);
      ForceTakesOldest(store);
      assert advanced.ChainOf(b) == store.ChainOf(b);
      BlockedExactlyWhen(advanced, b);
    }
  }

  // ----- the whole write set -----

  /** Nobody has committed the block since the snapshot, or the policy merges and the proof accepts the
      content at the snapshot (or the recorded one) and the latest content. */
  ghost predicate Compatible(store: Store, txn: Transaction, b: Block, policy: ConflictPolicy)
    requires b in txn.writes
  {
    var chain, write := store.ChainOf(b), txn.writes[b];
    var base := match Read(chain, txn.snapshot)
                case Some(bytes) => bytes
                case None => write.base.GetOr([]);
    || LatestSeqno(chain) <= txn.snapshot
    || (policy == SafeMerge
        && MergeBytes(write.proof, base, Read(chain, LatestSeqno(chain)).GetOr([]), write.bytes).Some?)
  }

  function Larger(a: nat, b: nat): nat { if a < b then b else a }

  /** The most references that hold up one of the blocks, and at least `k`. */
  ghost function Peak(store: Store, blocks: seq<Block>, cap: nat, k: nat): nat {
    if blocks == [] then k
    else Larger(Peak(store, blocks[..|blocks| - 1], cap, k),
                HeldUp(store.active, store.ChainOf(blocks[|blocks| - 1]), cap))
  }

  /** A block is held up by at most one reference more than the blocks before it. */
  ghost predicate Relievable(store: Store, order: seq<Block>, i: nat, settings: Settings, k: nat)
    requires i < |order|
  {
    settings.cap.Some? ==>
      HeldUp(store.active, store.ChainOf(order[i]), settings.cap.value)
      <= 1 + Peak(store, order[..i], settings.cap.value, k)
  }

  ghost predicate Passes(store: Store, txn: Transaction, order: seq<Block>, i: nat, settings: Settings, k: nat)
    requires i < |order|
  {
    && order[i] in txn.writes && Compatible(store, txn, order[i], settings.policy)
    && Relievable(store, order, i, settings, k)
  }

  /** `now` is the store once the `k` oldest references are gone. */
  ghost predicate Underway(store: Store, now: Store, k: nat) {
    && now.next == store.next && now.chains == store.chains && Taken(store.active, now.active, k)
    && Ordered(now) && Counted(now)
  }

  lemma HeldUpUnderway(store: Store, now: Store, k: nat, b: Block, cap: nat)
    requires Underway(store, now, k)
    ensures HeldUp(now.active, now.ChainOf(b), cap) == Less(HeldUp(store.active, store.ChainOf(b), cap), k)
    ensures forall t: nat :: Holding(now.active, t) == Less(Holding(store.active, t), k)
  {
  }

  lemma {:induction false} PeakOfCons(store: Store, b: Block, rest: seq<Block>, cap: nat, k: nat)
    ensures Peak(store, [b] + rest, cap, k)
            == Peak(store, rest, cap, Larger(k, HeldUp(store.active, store.ChainOf(b), cap)))
  {
    if rest == [] {
      assert ([b] + rest)[..0] == [] && Peak(store, [], cap, k) == k;
    } else {
      assert ([b] + rest)[..|rest|] == [b] + rest[..|rest| - 1];
      PeakOfCons(store, b, rest[..|rest| - 1], cap, k);
    }
  }

  /** The `k` for the rest of the blocks. */
  ghost function Onward(store: Store, b: Block, settings: Settings, k: nat): nat {
    if settings.cap.Some? then Larger(k, HeldUp(store.active, store.ChainOf(b), settings.cap.value)) else k
  }

  ghost function TakenBy(store: Store, blocks: seq<Block>, settings: Settings, k: nat): nat {
    if settings.cap.Some? then Peak(store, blocks, settings.cap.value, k) else k
  }

  lemma PassesOfCons(store: Store, txn: Transaction, order: seq<Block>, i: nat, settings: Settings, k: nat)
    requires i + 1 < |order|
    ensures Passes(store, txn, order[1..], i, settings, Onward(store, order[0], settings, k))
            <==> Passes(store, txn, order, i + 1, settings, k)
    ensures TakenBy(store, order[1..][..i], settings, Onward(store, order[0], settings, k))
            == TakenBy(store, order[..i + 1], settings, k)
  {
    assert order[..i + 1] == [order[0]] + order[1..][..i];
    if settings.cap.Some? {
      PeakOfCons(store, order[0], order[1..][..i], settings.cap.value, k);
    }
  }

  ghost predicate PassUpTo(store: Store, txn: Transaction, order: seq<Block>, n: nat, settings: Settings, k: nat)
    requires n <= |order|
  {
    forall i: nat | i < n :: Passes(store, txn, order, i, settings, k)
  }

  lemma PassUpToOfCons(store: Store, txn: Transaction, order: seq<Block>, n: nat, settings: Settings, k: nat)
    requires n < |order| && Passes(store, txn, order, 0, settings, k)
    requires PassUpTo(store, txn, order[1..], n, settings, Onward(store, order[0], settings, k))
    ensures PassUpTo(store, txn, order, n + 1, settings, k)
  {
    forall i: nat | i < n + 1 ensures Passes(store, txn, order, i, settings, k) {
      if i > 0 {
        assert Passes(store, txn, order[1..], i - 1, settings, Onward(store, order[0], settings, k));
        PassesOfCons(store, txn, order, i - 1, settings, k);
      }
    }
  }

  /** The commit was refused at block `i`, the first that does not pass, for the reason that applies. */
  ghost predicate RefusedAt(store: Store, txn: Transaction, order: seq<Block>, i: nat, settings: Settings, k: nat,
                            after: Store, why: Failure)
  {
    && i < |order| && PassUpTo(store, txn, order, i, settings, k)
    && Explained(store, txn, order, i, settings, k, after, why)
  }

  ghost predicate Explained(store: Store, txn: Transaction, order: seq<Block>, i: nat, settings: Settings, k: nat,
                            after: Store, why: Failure)
    requires i < |order|
  {
    && order[i] in txn.writes
    && if !Compatible(store, txn, order[i], settings.policy)
       then why == Conflict(order[i]) && Underway(store, after, TakenBy(store, order[..i], settings, k))
       else !Relievable(store, order, i, settings, k) && why == Backpressure(order[i])
            && Underway(store, after, TakenBy(store, order[..i], settings, k) + 1)
  }

  lemma ExplainedOfCons(store: Store, txn: Transaction, order: seq<Block>, i: nat, settings: Settings, k: nat,
                        after: Store, why: Failure)
    requires i + 1 < |order|
    requires Explained(store, txn, order[1..], i, settings, Onward(store, order[0], settings, k), after, why)
    ensures Explained(store, txn, order, i + 1, settings, k, after, why)
  {
    PassesOfCons(store, txn, order, i, settings, k);
  }

  /** What the preflight makes of the blocks, once the `k` oldest references are gone. */
  ghost predicate Decides(store: Store, txn: Transaction, order: seq<Block>, settings: Settings, k: nat, r: Checked)
  {
    match r
    case Passed(after) =>
      && PassUpTo(store, txn, order, |order|, settings, k)
      && Underway(store, after, TakenBy(store, order, settings, k))
    case Refused(after, why) => exists i: nat :: RefusedAt(store, txn, order, i, settings, k, after, why)
  }

  lemma PassedOfCons(store: Store, txn: Transaction, order: seq<Block>, settings: Settings, k: nat, after: Store)
    requires order != [] && Passes(store, txn, order, 0, settings, k)
    requires Decides(store, txn, order[1..], settings, Onward(store, order[0], settings, k), Passed(after))
    ensures Decides(store, txn, order, settings, k, Passed(after))
  {
    PassUpToOfCons(store, txn, order, |order| - 1, settings, k);
    TakenByOfCons(store, order, settings, k);
  }

  lemma TakenByOfCons(store: Store, order: seq<Block>, settings: Settings, k: nat)
    requires order != []
    ensures TakenBy(store, order[1..], settings, Onward(store, order[0], settings, k))
            == TakenBy(store, order, settings, k)
  {
    assert order == [order[0]] + order[1..];
    if settings.cap.Some? {
      PeakOfCons(store, order[0], order[1..], settings.cap.value, k);
    }
  }

  lemma RefusedOfCons(store: Store, txn: Transaction, order: seq<Block>, i: nat, settings: Settings, k: nat,
                      after: Store, why: Failure)
    requires order != [] && Passes(store, txn, order, 0, settings, k)
    requires RefusedAt(store, txn, order[1..], i, settings, Onward(store, order[0], settings, k), after, why)
    ensures RefusedAt(store, txn, order, i + 1, settings, k, after, why)
  {
    ExplainedOfCons(store, txn, order, i, settings, k, after, why);
    PassUpToOfCons(store, txn, order, i, settings, k);
  }

  lemma DecidesOfCons(store: Store, txn: Transaction, order: seq<Block>, settings: Settings, k: nat, r: Checked)
    requires order != [] && Passes(store, txn, order, 0, settings, k)
    requires Decides(store, txn, order[1..], settings, Onward(store, order[0], settings, k), r)
    ensures Decides(store, txn, order, settings, k, r)
  {
    match r
    case Passed(after) => PassedOfCons(store, txn, order, settings, k, after);
    case Refused(after, why) =>
      var i: nat :| RefusedAt(store, txn, order[1..], i, settings, Onward(store, order[0], settings, k), after, why);
      RefusedOfCons(store, txn, order, i, settings, k, after, why);
  }

  lemma TakenTwice(a: map<nat, nat>, b: map<nat, nat>, c: map<nat, nat>, k: nat, j: nat)
    requires Taken(a, b, k) && Taken(b, c, j)
    ensures Taken(a, c, k + j)
  {
  }

  lemma {:induction false} PreflightFrom(store: Store, now: Store, k: nat, txn: Transaction, order: seq<Block>,
                                         settings: Settings)
    requires Underway(store, now, k) && forall b | b in order :: b in txn.writes
    ensures Decides(store, txn, order, settings, k, Preflight(now, txn, order, settings))
    decreases |order|
  {
    if order != [] {
      var b, r := order[0], Preflight(now, txn, order, settings);
      assert now.ChainOf(b) == store.ChainOf(b) && order[..0] == [];
      if !Compatible(store, txn, b, settings.policy) {
        RefusedAtOnce(store, txn, order, settings, k, now, Conflict(b));
      } else if settings.cap.None? {
        PreflightFrom(store, now, k, txn, order[1..], settings);
        DecidesOfCons(store, txn, order, settings, k, r);
      } else {
        PreflightUnderPressure(store, now, k, txn, order, settings);
      }
    }
  }

  lemma {:induction false} PreflightUnderPressure(store: Store, now: Store, k: nat, txn: Transaction,
                                                  order: seq<Block>, settings: Settings)
    requires Underway(store, now, k) && order != [] && (forall b | b in order :: b in txn.writes)
    requires Compatible(store, txn, order[0], settings.policy) && settings.cap.Some?
    ensures Decides(store, txn, order, settings, k, Preflight(now, txn, order, settings))
    decreases |order|, 0
  {
    var b, cap := order[0], settings.cap.value;
    assert order[..0] == [];
    ReliefUnderway(store, now, k, b, cap);
    UnfoldPreflight(store, now, txn, order, settings);
    var relief := RelievePressure(now, b, cap);
    if relief.Relieved? {
      PreflightFrom(store, relief.store, Onward(store, b, settings, k), txn, order[1..], settings);
      DecidesOfCons(store, txn, order, settings, k, Preflight(now, txn, order, settings));
    } else {
      assert !Relievable(store, order, 0, settings, k);
      RefusedAtOnce(store, txn, order, settings, k, relief.store, Backpressure(b));
    }
  }

  lemma UnfoldPreflight(store: Store, now: Store, txn: Transaction, order: seq<Block>, settings: Settings)
    requires now.chains == store.chains && order != [] && (forall b | b in order :: b in txn.writes)
    requires Compatible(store, txn, order[0], settings.policy) && settings.cap.Some?
    ensures Preflight(now, txn, order, settings)
            == match RelievePressure(now, order[0], settings.cap.value)
               case StillBlocked(after) => Refused(after, Backpressure(order[0]))
               case Relieved(after) => Preflight(after, txn, order[1..], settings)
  {
    assert now.ChainOf(order[0]) == store.ChainOf(order[0]);
  }

  lemma RefusedAtOnce(store: Store, txn: Transaction, order: seq<Block>, settings: Settings, k: nat, after: Store,
                      why: Failure)
    requires order != []
    requires Explained(store, txn, order, 0, settings, k, after, why)
    ensures Decides(store, txn, order, settings, k, Refused(after, why))
  {
    assert RefusedAt(store, txn, order, 0, settings, k, after, why);
  }

  lemma ReliefUnderway(store: Store, now: Store, k: nat, b: Block, cap: nat)
    requires Underway(store, now, k)
    ensures var held, relief := HeldUp(store.active, store.ChainOf(b), cap), RelievePressure(now, b, cap);
            && (relief.Relieved? <==> held <= k + 1)
            && Underway(store, relief.store, if relief.Relieved? then Larger(k, held) else k + 1)
  {
    var held := HeldUp(store.active, store.ChainOf(b), cap);
    HeldUpUnderway(store, now, k, b, cap);
    PressureExactlyWhen(now, b, cap);
    TakenTwice(store.active, now.active, RelievePressure(now, b, cap).store.active, k,
               if Less(held, k) == 0 then 0 else 1);
  }

  /** The preflight passes if and only if every block, in order, is compatible and is held up by at most one
      reference more than any block before it. It then has taken as many of the oldest references as hold
      up the worst block; a refusal names the first block that does not pass and says why. */
  lemma PreflightPassesExactlyWhen(store: Store, txn: Transaction, order: seq<Block>, settings: Settings)
    requires Ordered(store) && Counted(store) && forall b | b in order :: b in txn.writes
    ensures Preflight(store, txn, order, settings).Passed?
            <==> forall i: nat | i < |order| :: Passes(store, txn, order, i, settings, 0)
    ensures Decides(store, txn, order, settings, 0, Preflight(store, txn, order, settings))
  {
    PreflightFrom(store, store, 0, txn, order, settings);
    DecidesMeans(store, txn, order, settings, Preflight(store, txn, order, settings));
  }

  lemma DecidesMeans(store: Store, txn: Transaction, order: seq<Block>, settings: Settings, r: Checked)
    requires Decides(store, txn, order, settings, 0, r)
    ensures r.Passed? <==> forall i: nat | i < |order| :: Passes(store, txn, order, i, settings, 0)
  {
    if r.Refused? {
      var i: nat :| RefusedAt(store, txn, order, i, settings, 0, r.store, r.why);
      assert !Passes(store, txn, order, i, settings, 0);
    }
  }

  // ----- the whole commit, said of the history -----

  lemma ValidIsOrdered(store: Store, log: Log)
    requires Valid(store, log)
    ensures Ordered(store)
  {
    forall b | b in store.chains ensures OrderedChain(store.chains[b], store.next) {
      assert store.ChainOf(b) == store.chains[b];
    }
  }

  /** Nobody has committed the block since the snapshot, or its current content can be merged both with
      the base the preflight takes and with the content at the snapshot, which the install phase takes. */
  ghost predicate Mergeable(log: Log, txn: Transaction, b: Block, settings: Settings)
    requires b in txn.writes
  {
    var write, current := txn.writes[b], ValueAt(log, b, |log|).GetOr([]);
    var atSnapshot := ValueAt(log, b, txn.snapshot);
    || LastWrite(log, b) <= txn.snapshot
    || (settings.policy == settings.installPolicy == SafeMerge
        && MergeBytes(write.proof, atSnapshot.GetOr(write.base.GetOr([])), current, write.bytes).Some?
        && MergeBytes(write.proof, atSnapshot.GetOr([]), current, write.bytes).Some?)
  }

  /** No over-long chain is held up by more than one reference more than those before it. */
  ghost predicate Unpressed(store: Store, order: seq<Block>, cap: nat) {
    forall i: nat | i < |order| ::
      HeldUp(store.active, store.ChainOf(order[i]), cap) <= 1 + Peak(store, order[..i], cap, 0)
  }

  lemma MergeableMeans(store: Store, log: Log, txn: Transaction, b: Block, settings: Settings)
    requires Valid(store, log) && Intact(store, log, txn.snapshot) && b in txn.writes
    ensures Mergeable(log, txn, b, settings)
            <==> Compatible(store, txn, b, settings.policy) && InstallBytes(store, txn, b, settings.installPolicy).Some?
  {
    var chain := store.ChainOf(b);
    ReadAboveNewest(chain, LatestSeqno(chain), |log|);
  }

  ghost predicate AllMergeable(log: Log, txn: Transaction, settings: Settings) {
    forall b | b in txn.writes :: Mergeable(log, txn, b, settings)
  }

  /** A transaction commits if and only if its id and the next number are in range, each of its blocks is
      unchanged since its snapshot or can be merged, and its over-long chains are not held up too much. */
  lemma CommitsExactlyWhen(store: Store, log: Log, txn: Transaction, order: seq<Block>, settings: Settings)
    requires Valid(store, log) && Intact(store, log, txn.snapshot) && Counted(store) && ListsWrites(order, txn)
    ensures Commit(store, txn, order, settings).Committed?
            <==> && txn.id != 0 && txn.id != 0xFFFF_FFFF_FFFF_FFFF && |log| + 1 < 0xFFFF_FFFF_FFFF_FFFF
                 && AllMergeable(log, txn, settings)
                 && (settings.cap.Some? ==> Unpressed(store, order, settings.cap.value))
  {
    CommitSplits(store, txn, order, settings);
    PassedSplits(store, log, txn, order, settings);
    AllMergeableSplits(store, log, txn, settings);
  }

  ghost predicate AllInstall(store: Store, txn: Transaction, policy: ConflictPolicy) {
    forall b | b in txn.writes :: InstallBytes(store, txn, b, policy).Some?
  }

  ghost predicate AllCompatible(store: Store, txn: Transaction, policy: ConflictPolicy) {
    forall b | b in txn.writes :: Compatible(store, txn, b, policy)
  }

  lemma CommitSplits(store: Store, txn: Transaction, order: seq<Block>, settings: Settings)
    requires ListsWrites(order, txn)
    ensures Commit(store, txn, order, settings).Committed?
            <==> && txn.id != 0 && txn.id != 0xFFFF_FFFF_FFFF_FFFF && store.next < 0xFFFF_FFFF_FFFF_FFFF
                 && Preflight(store, txn, order, settings).Passed? && AllInstall(store, txn, settings.installPolicy)
  {
    PreflightKeepsHistory(store, txn, order, settings);
    var after := Preflight(store, txn, order, settings).store;
    ResolvesExactlyWhen(after, txn, order, settings.installPolicy, map[]);
    forall b | b in txn.writes
      ensures InstallBytes(after, txn, b, settings.installPolicy) == InstallBytes(store, txn, b, settings.installPolicy)
    {
      assert after.ChainOf(b) == store.ChainOf(b);
    }
  }

  lemma PassedSplits(store: Store, log: Log, txn: Transaction, order: seq<Block>, settings: Settings)
    requires Valid(store, log) && Counted(store) && ListsWrites(order, txn)
    ensures Preflight(store, txn, order, settings).Passed?
            <==> && AllCompatible(store, txn, settings.policy)
                 && (settings.cap.Some? ==> Unpressed(store, order, settings.cap.value))
  {
    ValidIsOrdered(store, log);
    PreflightPassesExactlyWhen(store, txn, order, settings);
    AllPassExactlyWhen(store, txn, order, settings);
  }

  lemma AllMergeableSplits(store: Store, log: Log, txn: Transaction, settings: Settings)
    requires Valid(store, log) && Intact(store, log, txn.snapshot)
    ensures AllMergeable(log, txn, settings)
            <==> AllCompatible(store, txn, settings.policy) && AllInstall(store, txn, settings.installPolicy)
  {
    forall b | b in txn.writes
      ensures Mergeable(log, txn, b, settings)
              <==> Compatible(store, txn, b, settings.policy)
                   && InstallBytes(store, txn, b, settings.installPolicy).Some?
    {
      MergeableMeans(store, log, txn, b, settings);
    }
  }

  lemma AllPassExactlyWhen(store: Store, txn: Transaction, order: seq<Block>, settings: Settings)
    requires ListsWrites(order, txn)
    ensures (forall i: nat | i < |order| :: Passes(store, txn, order, i, settings, 0))
            <==> && AllCompatible(store, txn, settings.policy)
                 && (settings.cap.Some? ==> Unpressed(store, order, settings.cap.value))
  {
    if forall i: nat | i < |order| :: Passes(store, txn, order, i, settings, 0) {
      forall b | b in txn.writes ensures Compatible(store, txn, b, settings.policy) {
        assert b in order;
        var i: nat :| i < |order| && order[i] == b;
        assert Passes(store, txn, order, i, settings, 0);
      }
      forall i: nat | i < |order| && settings.cap.Some?
        ensures HeldUp(store.active, store.ChainOf(order[i]), settings.cap.value)
                <= 1 + Peak(store, order[..i], settings.cap.value, 0)
      {
        assert Passes(store, txn, order, i, settings, 0);
      }
    }
  }

  /** What each reason means. */
  ghost predicate Justified(store: Store, log: Log, txn: Transaction, settings: Settings, why: Failure) {
    match why
    case InvalidId => txn.id == 0 || txn.id == 0xFFFF_FFFF_FFFF_FFFF
    case Conflict(b) => b in txn.writes && !Mergeable(log, txn, b, settings)
    case Backpressure(b) =>
      b in txn.writes && settings.cap.Some? && HeldUp(store.active, store.ChainOf(b), settings.cap.value) >= 2
    case SequenceExhausted => |log| + 1 >= 0xFFFF_FFFF_FFFF_FFFF
  }

  /** An aborted commit says why, and the reason holds. */
  lemma AbortSaysWhy(store: Store, log: Log, txn: Transaction, order: seq<Block>, settings: Settings)
    requires Valid(store, log) && Intact(store, log, txn.snapshot) && Counted(store) && ListsWrites(order, txn)
    requires Commit(store, txn, order, settings).Aborted?
    ensures Justified(store, log, txn, settings, Commit(store, txn, order, settings).why)
  {
    var checked := Preflight(store, txn, order, settings);
    PreflightKeepsHistory(store, txn, order, settings);
    if checked.Refused? {
      RefusalSaysWhy(store, log, txn, order, settings);
    } else {
      var resolution := ResolveAll(checked.store, txn, order, settings.installPolicy, map[]);
      if resolution.Clash? {
        ClashSaysWhy(checked.store, txn, order, settings.installPolicy, map[]);
        assert checked.store.ChainOf(resolution.block) == store.ChainOf(resolution.block);
        MergeableMeans(store, log, txn, resolution.block, settings);
      }
    }
  }

  lemma RefusalSaysWhy(store: Store, log: Log, txn: Transaction, order: seq<Block>, settings: Settings)
    requires Valid(store, log) && Intact(store, log, txn.snapshot) && Counted(store) && ListsWrites(order, txn)
    requires Preflight(store, txn, order, settings).Refused?
    ensures Justified(store, log, txn, settings, Preflight(store, txn, order, settings).why)
  {
    var r := Preflight(store, txn, order, settings);
    ValidIsOrdered(store, log);
    PreflightPassesExactlyWhen(store, txn, order, settings);
    var i: nat :| RefusedAt(store, txn, order, i, settings, 0, r.store, r.why);
    ExplainedIsJustified(store, log, txn, order, i, settings, r.store, r.why);
  }

  lemma ExplainedIsJustified(store: Store, log: Log, txn: Transaction, order: seq<Block>, i: nat, settings: Settings,
                             after: Store, why: Failure)
    requires Valid(store, log) && Intact(store, log, txn.snapshot)
    requires i < |order|
    requires Explained(store, txn, order, i, settings, 0, after, why)
    ensures Justified(store, log, txn, settings, why)
  {
    MergeableMeans(store, log, txn, order[i], settings);
  }

  lemma {:induction false} ClashSaysWhy(store: Store, txn: Transaction, order: seq<Block>, policy: ConflictPolicy,
                                        done: map<Block, Bytes>)
    requires (forall b | b in order :: b in txn.writes) && ResolveAll(store, txn, order, policy, done).Clash?
    ensures var b := ResolveAll(store, txn, order, policy, done).block;
            b in order && InstallBytes(store, txn, b, policy) == None
    decreases |order|
  {
    var bytes := InstallBytes(store, txn, order[0], policy);
    if bytes.Some? {
      ClashSaysWhy(store, txn, order[1..], policy, done[order[0] := bytes.value]);
    }
  }

  // ----- what pruning and capping leave, said of the readers -----

  /** Some registered snapshot cannot see version `i + 1` of the chain, or there is none. */
  ghost predicate Wanted(active: map<nat, nat>, chain: Chain, i: nat) {
    i < |chain| && (i + 1 == |chain| || exists s :: s in active && s < chain[i + 1].seqno)
  }

  /** Pruning keeps, of every chain, exactly the versions whose successor some registered snapshot cannot
      see, and the newest. */
  lemma PruneKeepsExactlyTheWanted(w: World, b: Block)
    requires Valid(w.store, w.log) && b in w.store.chains
    ensures var kept, chain := Apply(w, DoPrune).store.ChainOf(b), w.store.chains[b];
            NewestPart(kept, chain) && forall i: nat | i < |chain| ::
              Wanted(w.store.active, chain, i) <==> i >= |chain| - |kept|
  {
    ValidIsOrdered(w.store, w.log);
    var wm, chain := Watermark(w.store), w.store.chains[b];
    assert OrderedChain(chain, w.store.next) && wm >= 0;
    PruneDropsExactlyEverywhere(w.store, wm);
    forall i: nat | i < |chain| ensures Wanted(w.store.active, chain, i) <==> Needed(chain, i, wm) {
      WantedMeans(w.store, chain, i);
    }
  }

  lemma WantedMeans(store: Store, chain: Chain, i: nat)
    requires OrderedChain(chain, store.next) && 1 <= store.next && i < |chain|
    ensures Wanted(store.active, chain, i) <==> Needed(chain, i, Watermark(store))
  {
    if store.active.Keys != {} && i + 1 < |chain| {
      var oldest := Oldest(store.active.Keys);
      if s :| s in store.active && s < chain[i + 1].seqno {
        assert oldest <= s;
      }
    }
  }

  /** After a commit each chain it wrote is within the cap, or some snapshot still registered cannot see its
      second version; what it dropped, every registered snapshot has a newer version of. */
  lemma CommitCapsExactly(store: Store, log: Log, txn: Transaction, order: seq<Block>, settings: Settings, b: Block)
    requires Valid(store, log) && ListsWrites(order, txn) && settings.cap.Some?
    requires Commit(store, txn, order, settings).Committed? && b in Commit(store, txn, order, settings).entry
    ensures var outcome := Commit(store, txn, order, settings);
            CappedFor(outcome.store.active, outcome.store.ChainOf(b), |store.ChainOf(b)|,
                      AtLeastOne(settings.cap.value))
  {
    ValidIsOrdered(store, log);
    PreflightIsOrdered(store, txn, order, settings, b);
    CommittedStore(store, txn, order, settings);
    InstallCapsExactly(Preflight(store, txn, order, settings).store, Commit(store, txn, order, settings).entry,
                       settings, b);
  }

  lemma CommittedStore(store: Store, txn: Transaction, order: seq<Block>, settings: Settings)
    requires ListsWrites(order, txn) && Commit(store, txn, order, settings).Committed?
    ensures var outcome, after := Commit(store, txn, order, settings), Preflight(store, txn, order, settings).store;
            && outcome.store == Install(after, outcome.entry, settings, InstallWatermark(after))
            && outcome.store.active == after.active
  {
  }

  lemma PreflightIsOrdered(store: Store, txn: Transaction, order: seq<Block>, settings: Settings, b: Block)
    requires Ordered(store) && forall b | b in order :: b in txn.writes
    ensures var after := Preflight(store, txn, order, settings).store;
            Ordered(after) && after.ChainOf(b) == store.ChainOf(b)
  {
    PreflightKeepsHistory(store, txn, order, settings);
  }

  /** A chain that had `before` versions and got one more. */
  ghost predicate CappedFor(active: map<nat, nat>, kept: Chain, before: nat, cap: nat) {
    && (|kept| <= cap || (|kept| > 1 && exists s :: s in active && s < kept[1].seqno))
    && (0 < |kept| <= before ==> |kept| >= cap && forall s | s in active :: kept[0].seqno <= s)
  }

  lemma InstallCapsExactly(store: Store, entry: map<Block, Bytes>, settings: Settings, b: Block)
    requires Ordered(store) && settings.cap.Some? && b in entry
    ensures CappedFor(store.active, Install(store, entry, settings, InstallWatermark(store)).ChainOf(b),
                      |store.ChainOf(b)|, AtLeastOne(settings.cap.value))
  {
    var wm, chain := InstallWatermark(store), store.ChainOf(b);
    var kept := Install(store, entry, settings, wm).ChainOf(b);
    InstallsExactly(store, entry, settings, wm);
    assert PushedAndCapped(kept, chain, store.next, entry[b], settings, wm);
    assert b in store.chains ==> OrderedChain(store.chains[b], store.next);
    var longer :| && Pushed(longer, chain, store.next, entry[b], settings.dedup)
                  && Capped(kept, longer, settings.cap, wm);
    LastIsNewest(chain, longer, kept, store.next, entry[b], settings);
    CappedIsFor(store, kept, longer, settings.cap.value);
  }

  lemma CappedIsFor(store: Store, kept: Chain, longer: Chain, cap: nat)
    requires 1 <= store.next && Capped(kept, longer, Some(cap), InstallWatermark(store)) && longer != []
    requires forall k | 0 <= k < |kept| :: kept[k].seqno <= store.next
    ensures CappedFor(store.active, kept, |longer| - 1, AtLeastOne(cap))
  {
    if store.active.Keys != {} {
      assert Oldest(store.active.Keys) in store.active;
    }
  }

  lemma LastIsNewest(chain: Chain, longer: Chain, kept: Chain, seqno: nat, bytes: Bytes, settings: Settings)
    requires Pushed(longer, chain, seqno, bytes, settings.dedup) && WellFormed(chain) && LatestSeqno(chain) < seqno
    requires NewestPart(kept, longer)
    ensures forall k | 0 <= k < |kept| :: kept[k].seqno <= seqno
  {
    forall k | 0 <= k < |kept| ensures kept[k].seqno <= seqno {
      var i := |longer| - |kept| + k;
      assert i < |chain| ==> longer[i] == longer[..|chain|][i];
    }
  }
}
