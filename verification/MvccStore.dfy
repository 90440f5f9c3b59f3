/** The store object: the in-place operations of `MvccStore`, each proved to take the state
    the specification says. */
module MvccStore {
  import opened MvccChain
  import opened MvccMerge
  import opened MvccSpec
  import opened MvccCommit
  import opened Wrappers

  datatype CommitResult = Sequence(n: nat) | Failed(why: Failure)

  ghost predicate PrunesTo(chain: Chain, wm: nat, goal: Chain) { WellFormed(chain) && goal == PruneChain(chain, wm) }

  /** Pruning one chain in place. */
  method PruneVersions(chain: Chain, wm: nat, ghost goal: Chain) returns (pruned: Chain)
    requires PrunesTo(chain, wm, goal)
    ensures pruned == goal
  {
    pruned := chain;
    if |chain| > 1 {
      var keepFrom := PrunePoint(chain, wm);
      if keepFrom > 0 {
        pruned := Trim(chain, keepFrom);
      } else {
        assert Trim(chain, 0) == chain;
      }
    }
  }

  /** Pushing one version and enforcing the cap. */
  method PushVersion(chain: Chain, seqno: nat, bytes: Bytes, settings: Settings, wm: nat) returns (r: Chain)
    requires WellFormed(chain) && LatestSeqno(chain) < seqno
    ensures r == InstallChain(chain, seqno, bytes, settings, wm)
  {
    ExtendIsWellFormed(chain, seqno, bytes, settings.dedup);
    r := Extend(chain, seqno, bytes, settings.dedup);
    if settings.cap.Some? {
      r := EnforceCap(r, settings.cap.value, wm);
    }
  }

  /** Cutting one chain back to the cap. */
  method EnforceCap(chain: Chain, cap: nat, wm: nat) returns (r: Chain)
    requires WellFormed(chain) && chain != []
    ensures r == CapChain(chain, Some(cap), wm)
  {
    r := chain;
    var keepFrom := CapPoint(chain, if cap == 0 then 1 else cap, wm);
    if keepFrom > 0 {
      r := Trim(chain, keepFrom);
    } else {
      assert Trim(chain, 0) == chain;
    }
  }

  /** Every chain pruned, one after the other. */
  method PruneAll(chains: map<Block, Chain>, wm: nat, ghost goal: map<Block, Chain>) returns (pruned: map<Block, Chain>)
    requires (forall b :: b in goal <==> b in chains) && forall b | b in chains :: PrunesTo(chains[b], wm, goal[b])
    ensures pruned == goal
  {
    pruned := chains;
    var todo := chains.Keys;
    while todo != {}
      invariant (forall b | b in todo :: b in chains) && Replaced(chains, pruned, goal, todo)
      decreases |todo|
    {
      var b :| b in todo;
      var shorter := PruneVersions(chains[b], wm, goal[b]);
      ReplaceOneMore(chains, pruned, goal, todo, b);
      pruned, todo := pruned[b := shorter], todo - {b};
    }
    ReplacedAll(chains, pruned, goal);
  }

  ghost function PrunedChains(chains: map<Block, Chain>, wm: nat): map<Block, Chain> {
    map b | b in chains :: PruneChain(chains[b], wm)
  }

  /** All chains are as they should be in the end, except those still to do. */
  ghost predicate Replaced(before: map<Block, Chain>, now: map<Block, Chain>, goal: map<Block, Chain>, todo: set<Block>)
  {
    && (forall b: Block :: (b in now <==> b in before) && (b in goal <==> b in before))
    && forall b | b in now :: now[b] == if b in todo then before[b] else goal[b]
  }

  lemma ReplacedAll(before: map<Block, Chain>, now: map<Block, Chain>, goal: map<Block, Chain>)
    requires Replaced(before, now, goal, {})
    ensures now == goal
  {
  }

  lemma ReplaceOneMore(before: map<Block, Chain>, now: map<Block, Chain>, goal: map<Block, Chain>, todo: set<Block>,
                       b: Block)
    requires Replaced(before, now, goal, todo) && b in now
    ensures Replaced(before, now[b := goal[b]], goal, todo - {b})
  {
  }

  lemma PrunedStore(store: Store, wm: nat)
    requires MvccSpec.Ordered(store)
    ensures store.(chains := PrunedChains(store.chains, wm)) == Prune(store, wm)
    ensures MvccSpec.Ordered(store.(chains := PrunedChains(store.chains, wm)))
    ensures forall b | b in store.chains :: PrunesTo(store.chains[b], wm, PrunedChains(store.chains, wm)[b])
  {
    forall b | b in store.chains ensures PrunesTo(store.chains[b], wm, PrunedChains(store.chains, wm)[b]) {
      assert OrderedChain(store.chains[b], store.next);
    }
    assert PrunedChains(store.chains, wm) == Prune(store, wm).chains;
    PruneIsOrdered(store, wm);
  }

  ghost function PushedChains(chains: map<Block, Chain>, seqno: nat, entry: map<Block, Bytes>, settings: Settings,
                              wm: nat): map<Block, Chain>
  {
    map b | b in chains :: if b in entry then InstallChain(chains[b], seqno, entry[b], settings, wm) else chains[b]
  }

  /** Every write of a commit pushed onto its chain, one after the other. */
  method PushAll(chains: map<Block, Chain>, seqno: nat, entry: map<Block, Bytes>, settings: Settings, wm: nat)
    returns (pushed: map<Block, Chain>)
    requires forall b | b in entry :: b in chains && OrderedChain(chains[b], seqno)
    ensures pushed == PushedChains(chains, seqno, entry, settings, wm)
  {
    pushed := chains;
    var todo := entry.Keys;
    ghost var goal := PushedChains(chains, seqno, entry, settings, wm);
    while todo != {}
      invariant (forall b | b in todo :: b in entry) && Replaced(chains, pushed, goal, todo)
      decreases |todo|
    {
      var b :| b in todo;
      var longer := PushVersion(chains[b], seqno, entry[b], settings, wm);
      ReplaceOneMore(chains, pushed, goal, todo, b);
      pushed, todo := pushed[b := longer], todo - {b};
    }
    ReplacedAll(chains, pushed, goal);
  }

  /** Installing a commit on the chains alone, starting empty chains for new blocks. */
  method InstallEntry(ghost store: Store, chains: map<Block, Chain>, seqno: nat, entry: map<Block, Bytes>,
                      settings: Settings, wm: nat)
    returns (installed: map<Block, Chain>)
    requires MvccSpec.Ordered(store) && store.chains == chains && store.next == seqno
    ensures installed == Install(store, entry, settings, wm).chains
  {
    var all := map b | b in chains.Keys + entry.Keys :: if b in chains then chains[b] else [];
    forall b | b in entry ensures OrderedChain(all[b], seqno) {
      assert b in chains ==> OrderedChain(chains[b], seqno);
    }
    InstallFromAll(store, all, entry, settings, wm);
    installed := PushAll(all, seqno, entry, settings, wm);
  }

  lemma InstallFromAll(store: Store, all: map<Block, Chain>, entry: map<Block, Bytes>, settings: Settings, wm: nat)
    requires all.Keys == store.chains.Keys + entry.Keys && forall b | b in all :: all[b] == store.ChainOf(b)
    ensures PushedChains(all, store.next, entry, settings, wm) == Install(store, entry, settings, wm).chains
  {
    var pushed := PushedChains(all, store.next, entry, settings, wm);
    var target := Install(store, entry, settings, wm).chains;
    forall b | b in all ensures pushed[b] == target[b] {
    }
    assert pushed == target;
  }

  class VersionStore {
    var next: nat
    var chains: map<Block, Chain>
    var active: map<nat, nat>
    var forced: map<nat, nat>

    ghost function State(): Store reads this { Store(next, chains, active, forced) }

    ghost predicate Ordered() reads this { MvccSpec.Ordered(State()) }

    constructor ()
      ensures Ordered() && State() == Store(1, map[], map[], map[])
      ensures MvccSpec.Valid(State(), [])
    {
      next, chains, active, forced := 1, map[], map[], map[];
    }

    function ChainAt(b: Block): Chain reads this { if b in chains then chains[b] else [] }

    method ReadVisible(b: Block, high: nat) returns (r: Option<Bytes>)
      requires Ordered()
      ensures r == Read(State().ChainOf(b), high)
    {
      var chain := ChainAt(b);
      var idx := NewestVisibleIndex(chain, high);
      return match idx
        case None => None
        case Some(i) => Resolve(chain, i);
    }

    /** The oldest registered snapshot, or the current one. */
    method OldestSnapshot() returns (wm: nat)
      requires 1 <= next
      ensures wm == Watermark(State())
    {
      if active.Keys == {} {
        return next - 1;
      }
      var todo := active.Keys;
      wm :| wm in todo;
      while todo != {}
        invariant wm in active && todo <= active.Keys
        invariant forall s | s in active && s !in todo :: wm <= s
        decreases |todo|
      {
        var s :| s in todo;
        wm, todo := if s < wm then s else wm, todo - {s};
      }
    }

    method RegisterSnapshot(s: nat)
      modifies this
      ensures State() == Register(old(State()), s)
      ensures old(Ordered()) ==> Ordered()
    {
      active := active[s := 1 + if s in active then active[s] else 0];
    }

    /** False only for a snapshot that is neither registered nor owed a forced release. */
    method ReleaseSnapshot(s: nat) returns (ok: bool)
      modifies this
      ensures State() == Release(old(State()), s)
      ensures ok == (s in old(active) || s in old(forced))
      ensures old(Ordered()) ==> Ordered()
    {
      if s in active {
        active := if active[s] > 1 then active[s := active[s] - 1] else active - {s};
        return true;
      }
      if s in forced {
        forced := if forced[s] > 1 then forced[s := forced[s] - 1] else forced - {s};
        return true;
      }
      return false;
    }

    method PruneSafe() returns (wm: nat)
      requires Ordered()
      modifies this
      ensures wm == Watermark(old(State()))
      ensures State() == Prune(old(State()), wm) && Ordered()
    {
      wm := OldestSnapshot();
      PrunedStore(State(), wm);
      var pruned := PruneAll(chains, wm, PrunedChains(chains, wm));
      chains := pruned;
    }

    // ----- commit -----

    method AcceptsWrite(txn: Transaction, b: Block, policy: ConflictPolicy) returns (ok: bool)
      requires Ordered() && b in txn.writes
      ensures ok == PreflightAccepts(State(), txn, b, policy)
    {
      var chain := ChainAt(b);
      if LatestSeqno(chain) <= txn.snapshot {
        return true;
      }
      if policy == Strict {
        return false;
      }
      var write := txn.writes[b];
      var atSnapshot := ReadVisible(b, txn.snapshot);
      var base := if atSnapshot.Some? then atSnapshot.value else write.base.GetOr([]);
      var latest := ReadVisible(b, LatestSeqno(chain));
      return MergeValid(write.proof, base, latest.GetOr([]), write.bytes);
    }

    method ForceAdvanceOldest()
      requires Ordered() && active.Keys != {}
      modifies this
      ensures State() == ForceAdvance(old(State())) && Ordered()
    {
      var oldest := OldestSnapshot();
      var refs := active[oldest];
      forced := forced[oldest := 1 + if oldest in forced then forced[oldest] else 0];
      active := if refs > 1 then active[oldest := refs - 1] else active - {oldest};
    }

    method EnforceChainPressure(b: Block, cap: nat) returns (ok: bool)
      requires Ordered()
      modifies this
      ensures Ordered()
      ensures ok ==> RelievePressure(old(State()), b, cap) == Relieved(State())
      ensures !ok ==> RelievePressure(old(State()), b, cap) == StillBlocked(State())
    {
      var chain := ChainAt(b);
      if |chain| == 0 || |chain| < CriticalLength(cap) {
        return true;
      }
      var wm := OldestSnapshot();
      if |chain| <= 1 || chain[1].seqno <= wm {
        return true;
      }
      if active.Keys == {} {
        return false;
      }
      ForceAdvanceOldest();
      wm := OldestSnapshot();
      return chain[1].seqno <= wm;
    }

    method PreflightFcw(txn: Transaction, order: seq<Block>, settings: Settings) returns (refused: Option<Failure>)
      requires Ordered() && forall b | b in order :: b in txn.writes
      modifies this
      ensures Ordered()
      ensures refused.None? ==> Preflight(old(State()), txn, order, settings) == Passed(State())
      ensures refused.Some? ==> Preflight(old(State()), txn, order, settings) == Refused(State(), refused.value)
    {
      for i := 0 to |order|
        invariant Ordered()
        invariant Preflight(State(), txn, order[i..], settings) == Preflight(old(State()), txn, order, settings)
      {
        var b := order[i];
        assert order[i..][0] == b && order[i..][1..] == order[i + 1..];
        var ok := AcceptsWrite(txn, b, settings.policy);
        if !ok {
          return Some(Conflict(b));
        }
        if settings.cap.Some? {
          var relieved := EnforceChainPressure(b, settings.cap.value);
          if !relieved {
            return Some(Backpressure(b));
          }
        }
      }
      return None;
    }

    /** The bytes for every block, merged where another commit came first. */
    method ResolveWrites(txn: Transaction, order: seq<Block>, policy: ConflictPolicy) returns (r: Resolution)
      requires Ordered() && forall b | b in order :: b in txn.writes
      ensures r == ResolveAll(State(), txn, order, policy, map[])
    {
      var entry: map<Block, Bytes> := map[];
      for i := 0 to |order|
        invariant ResolveAll(State(), txn, order[i..], policy, entry) == ResolveAll(State(), txn, order, policy, map[])
      {
        assert order[i..][0] == order[i] && order[i..][1..] == order[i + 1..];
        var bytes := WriteBytes(txn, order[i], policy);
        if bytes.None? {
          return Clash(order[i]);
        }
        entry := entry[order[i] := bytes.value];
      }
      return Entry(entry);
    }

    method WriteBytes(txn: Transaction, b: Block, policy: ConflictPolicy) returns (bytes: Option<Bytes>)
      requires Ordered() && b in txn.writes
      ensures bytes == InstallBytes(State(), txn, b, policy)
    {
      var chain, write := ChainAt(b), txn.writes[b];
      if LatestSeqno(chain) <= txn.snapshot {
        return Some(write.bytes);
      }
      if policy == Strict {
        return None;
      }
      var base := ReadVisible(b, txn.snapshot);
      var latest := ReadVisible(b, LatestSeqno(chain));
      return MergeBytes(write.proof, base.GetOr([]), latest.GetOr([]), write.bytes);
    }

    method CommitFcw(txn: Transaction, order: seq<Block>, settings: Settings) returns (r: CommitResult)
      requires Ordered() && ListsWrites(order, txn)
      modifies this
      ensures Ordered()
      ensures match Commit(old(State()), txn, order, settings)
              case Committed(store, _) => State() == store && r == Sequence(old(next))
              case Aborted(store, why) => State() == store && r == Failed(why)
    {
      if txn.id == 0 || txn.id == U64_MAX {
        return Failed(InvalidId);
      }
      PreflightKeepsHistory(State(), txn, order, settings);
      var refused := PreflightFcw(txn, order, settings);
      if refused.Some? {
        return Failed(refused.value);
      }
      r := FinishCommit(txn, order, settings);
    }

    method FinishCommit(txn: Transaction, order: seq<Block>, settings: Settings) returns (r: CommitResult)
      requires Ordered() && ListsWrites(order, txn)
      modifies this
      ensures Ordered()
      ensures match Finish(old(State()), txn, order, settings)
              case Committed(store, _) => State() == store && r == Sequence(old(next))
              case Aborted(store, why) => State() == store && r == Failed(why)
    {
      var resolution := ResolveWrites(txn, order, settings.installPolicy);
      if resolution.Clash? {
        return Failed(Conflict(resolution.block));
      }
      if next >= U64_MAX {
        return Failed(SequenceExhausted);
      }
      r := Sequence(next);
      InstallAll(resolution.bytes, settings);
    }

    method InstallAll(entry: map<Block, Bytes>, settings: Settings)
      requires Ordered()
      modifies this
      ensures Ordered()
      ensures State() == Install(old(State()), entry, settings, InstallWatermark(old(State())))
    {
      ghost var before := State();
      next := next + 1;
      var wm := OldestSnapshot();
      assert wm == InstallWatermark(before);
      var installed := InstallEntry(before, chains, next - 1, entry, settings, wm);
      chains := installed;
      assert State() == Install(before, entry, settings, wm);
      assert Ordered() by {
        InstallIsOrdered(before, entry, settings, wm);
      }
    }
  }
}
