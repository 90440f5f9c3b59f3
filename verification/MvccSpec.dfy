/** The multi-version store of `crates/ffs-mvcc/src/store.rs` as a state machine, with the
    log of committed writes it is meant to represent. */
module MvccSpec {
  import opened MvccChain
  import opened MvccMerge
  import opened Wrappers

  type Block = nat

  const U64_MAX := 0xFFFF_FFFF_FFFF_FFFF

  datatype StagedWrite = StagedWrite(bytes: Bytes, proof: Proof, base: Option<Bytes>)

  datatype Transaction = Transaction(id: nat, snapshot: nat, writes: map<Block, StagedWrite>)

  datatype ConflictPolicy = Strict | SafeMerge

  /** The policy in force is asked for twice, before the preflight and again before the install; an
      adaptive store may answer differently the second time. */
  datatype Settings = Settings(dedup: bool, cap: Option<nat>, policy: ConflictPolicy, installPolicy: ConflictPolicy)

  /** `next` is the next commit sequence number; `active` counts the references to each
      registered snapshot; `forced` counts the references taken away under chain pressure. */
  datatype Store = Store(next: nat, chains: map<Block, Chain>, active: map<nat, nat>, forced: map<nat, nat>) {
    function ChainOf(b: Block): Chain { if b in chains then chains[b] else [] }
    function Current(): int { next - 1 }
  }

  // ----- the committed history -----

  /** Entry `i` holds the blocks written by commit number `i + 1`. */
  type Log = seq<map<Block, Bytes>>

  /** The content of `b` as of commit `high`: its last write at or below it. */
  ghost function ValueAt(log: Log, b: Block, high: nat): Option<Bytes> {
    if high == 0 then None
    else if high > |log| then ValueAt(log, b, |log|)
    else if b in log[high - 1] then Some(log[high - 1][b])
    else ValueAt(log, b, high - 1)
  }

  /** The number of the last commit that wrote `b`, or zero. */
  ghost function LastWrite(log: Log, b: Block): nat {
    if log == [] then 0
    else if b in log[|log| - 1] then |log|
    else LastWrite(log[..|log| - 1], b)
  }

  lemma {:induction false} ValueAtOfAppend(log: Log, entry: map<Block, Bytes>, b: Block, high: nat)
    requires high <= |log|
    ensures ValueAt(log + [entry], b, high) == ValueAt(log, b, high)
  {
    if high > 0 {
      ValueAtOfAppend(log, entry, b, high - 1);
    }
  }

  /** Nothing changes after the last write. */
  lemma {:induction false} ValueAtSettled(log: Log, b: Block, high: nat)
    requires LastWrite(log, b) <= high <= |log|
    ensures ValueAt(log, b, high) == ValueAt(log, b, |log|)
  {
    if high < |log| {
      var rest := log[..|log| - 1];
      assert log == rest + [log[|log| - 1]];
      ValueAtSettled(rest, b, high);
      ValueAtOfAppend(rest, log[|log| - 1], b, high);
      ValueAtOfAppend(rest, log[|log| - 1], b, |rest|);
    }
  }

  // ----- what the store keeps -----

  /** The snapshot reads every block as the log has it. */
  ghost predicate Intact(store: Store, log: Log, high: nat) {
    forall b: Block :: Read(store.ChainOf(b), high) == ValueAt(log, b, high)
  }

  /** Chains are well formed, end at the last write, and the newest snapshot is intact. */
  ghost predicate Valid(store: Store, log: Log) {
    && store.next == |log| + 1
    && (forall b: Block :: WellFormed(store.ChainOf(b)) && LatestSeqno(store.ChainOf(b)) == LastWrite(log, b) <= |log|)
    && Intact(store, log, |log|)
  }

  /** The part of `Valid` that concerns the chains alone. */
  ghost predicate Ordered(store: Store) {
    1 <= store.next && forall b | b in store.chains :: OrderedChain(store.chains[b], store.next)
  }

  ghost predicate OrderedChain(chain: Chain, next: nat) { WellFormed(chain) && LatestSeqno(chain) < next }

  // ----- installing a commit -----

  /** The chain cut back to the configured cap, as far as the watermark allows. */
  ghost function CapChain(chain: Chain, cap: Option<nat>, wm: nat): Chain
    requires chain != []
  {
    match cap
    case None => chain
    case Some(n) => Trim(chain, CapFrom(chain, if n == 0 then 1 else n, wm))
  }

  ghost function InstallChain(chain: Chain, seqno: nat, bytes: Bytes, settings: Settings, wm: nat): Chain {
    CapChain(Extend(chain, seqno, bytes, settings.dedup), settings.cap, wm)
  }

  ghost function Install(store: Store, entry: map<Block, Bytes>, settings: Settings, wm: nat): Store {
    store.(next := store.next + 1,
           chains := map b | b in store.chains.Keys + entry.Keys ::
                       if b in entry then InstallChain(store.ChainOf(b), store.next, entry[b], settings, wm)
                       else store.chains[b])
  }

  ghost function PruneChain(chain: Chain, wm: nat): Chain {
    if |chain| <= 1 then chain else Trim(chain, PruneFrom(chain, wm))
  }

  ghost function Prune(store: Store, wm: nat): Store {
    store.(chains := map b | b in store.chains :: PruneChain(store.chains[b], wm))
  }

  // ----- every operation keeps protected snapshots intact -----

  lemma CappedChain(chain: Chain, cap: Option<nat>, wm: nat, high: nat)
    requires WellFormed(chain) && chain != []
    ensures WellFormed(CapChain(chain, cap, wm)) && LatestSeqno(CapChain(chain, cap, wm)) == LatestSeqno(chain)
    ensures wm <= high || LatestSeqno(chain) <= high ==> Read(CapChain(chain, cap, wm), high) == Read(chain, high)
  {
    if cap.Some? {
      var keepFrom := CapFrom(chain, if cap.value == 0 then 1 else cap.value, wm);
      TrimIsWellFormed(chain, keepFrom);
      if wm <= high || LatestSeqno(chain) <= high {
        TrimPreservesRead(chain, keepFrom, wm, high);
      }
    }
  }

  lemma InstalledChain(chain: Chain, seqno: nat, bytes: Bytes, settings: Settings, wm: nat, high: nat)
    requires WellFormed(chain) && LatestSeqno(chain) < seqno
    ensures var installed := InstallChain(chain, seqno, bytes, settings, wm);
            && WellFormed(installed) && LatestSeqno(installed) == seqno
            && (wm <= high || seqno <= high ==>
                  Read(installed, high) == if seqno <= high then Some(bytes) else Read(chain, high))
  {
    ExtendIsWellFormed(chain, seqno, bytes, settings.dedup);
    ReadOfExtend(chain, seqno, bytes, settings.dedup, high);
    CappedChain(Extend(chain, seqno, bytes, settings.dedup), settings.cap, wm, high);
  }

  /** Trimming at a point the watermark allows preserves every read at or above the watermark
      and every read of the newest version. */
  lemma TrimPreservesRead(chain: Chain, keepFrom: nat, wm: nat, high: nat)
    requires WellFormed(chain) && keepFrom < |chain| && keepFrom <= PruneFrom(chain, wm)
    requires wm <= high || LatestSeqno(chain) <= high
    ensures Read(Trim(chain, keepFrom), high) == Read(chain, high)
  {
    if keepFrom == 0 {
      assert Trim(chain, 0) == chain;
    } else {
      assert chain[keepFrom].seqno <= wm;
      assert chain[keepFrom].seqno <= LatestSeqno(chain);
      ReadOfTrim(chain, keepFrom, high);
    }
  }

  lemma PrunedChain(chain: Chain, wm: nat, high: nat)
    requires WellFormed(chain)
    ensures WellFormed(PruneChain(chain, wm)) && LatestSeqno(PruneChain(chain, wm)) == LatestSeqno(chain)
    ensures wm <= high || LatestSeqno(chain) <= high ==> Read(PruneChain(chain, wm), high) == Read(chain, high)
  {
    if |chain| > 1 {
      TrimIsWellFormed(chain, PruneFrom(chain, wm));
      if wm <= high || LatestSeqno(chain) <= high {
        TrimPreservesRead(chain, PruneFrom(chain, wm), wm, high);
      }
    }
  }

  /** A commit appends to the log and leaves every snapshot at or above the watermark intact. */
  lemma InstallKeepsSnapshots(store: Store, log: Log, entry: map<Block, Bytes>, settings: Settings, wm: nat, high: nat)
    requires Valid(store, log)
    requires high <= |log| && wm <= high && Intact(store, log, high)
    ensures Intact(Install(store, entry, settings, wm), log + [entry], high)
  {
    var after := Install(store, entry, settings, wm);
    forall b: Block ensures Read(after.ChainOf(b), high) == ValueAt(log + [entry], b, high) {
      ValueAtOfAppend(log, entry, b, high);
      if b in entry {
        InstalledChain(store.ChainOf(b), store.next, entry[b], settings, wm, high);
      }
    }
  }

  lemma InstallIsValid(store: Store, log: Log, entry: map<Block, Bytes>, settings: Settings, wm: nat)
    requires Valid(store, log)
    ensures Valid(Install(store, entry, settings, wm), log + [entry])
  {
    var after, log' := Install(store, entry, settings, wm), log + [entry];
    assert log'[..|log|] == log;
    forall b: Block
      ensures WellFormed(after.ChainOf(b)) && LatestSeqno(after.ChainOf(b)) == LastWrite(log', b) <= |log'|
      ensures Read(after.ChainOf(b), |log'|) == ValueAt(log', b, |log'|)
    {
      ValueAtOfAppend(log, entry, b, |log|);
      if b in entry {
        InstalledChain(store.ChainOf(b), store.next, entry[b], settings, wm, |log'|);
      } else {
        ReadAboveNewest(store.ChainOf(b), |log|, |log'|);
      }
    }
  }

  lemma ReadAboveNewest(chain: Chain, low: nat, high: nat)
    requires WellFormed(chain) && LatestSeqno(chain) <= low <= high
    ensures Read(chain, low) == Read(chain, high)
  {
  }

  /** Pruning changes no read at or above its watermark. */
  lemma PruneKeepsSnapshots(store: Store, log: Log, wm: nat, high: nat)
    requires Valid(store, log) && wm <= high && Intact(store, log, high)
    ensures Intact(Prune(store, wm), log, high)
  {
    forall b: Block ensures Read(Prune(store, wm).ChainOf(b), high) == ValueAt(log, b, high) {
      PrunedChain(store.ChainOf(b), wm, high);
    }
  }

  lemma PruneIsValid(store: Store, log: Log, wm: nat)
    requires Valid(store, log)
    ensures Valid(Prune(store, wm), log)
  {
    forall b: Block
      ensures WellFormed(Prune(store, wm).ChainOf(b))
      ensures LatestSeqno(Prune(store, wm).ChainOf(b)) == LastWrite(log, b) <= |log|
      ensures Read(Prune(store, wm).ChainOf(b), |log|) == ValueAt(log, b, |log|)
    {
      PrunedChain(store.ChainOf(b), wm, |log|);
    }
  }

  // ----- exactly what is dropped -----

  /** `kept` is the newest part of the chain, with the same contents. */
  ghost predicate NewestPart(kept: Chain, chain: Chain) {
    && |kept| <= |chain|
    && forall k | 0 <= k < |kept| ::
         && kept[k].seqno == chain[|chain| - |kept| + k].seqno
         && Resolve(kept, k) == Resolve(chain, |chain| - |kept| + k)
  }

  lemma TrimIsNewestPart(chain: Chain, keepFrom: nat)
    requires WellFormed(chain) && keepFrom < |chain|
    ensures NewestPart(Trim(chain, keepFrom), chain) && |Trim(chain, keepFrom)| == |chain| - keepFrom
  {
    var kept := Trim(chain, keepFrom);
    TrimIsWellFormed(chain, keepFrom);
    forall k | 0 <= k < |kept| ensures Resolve(kept, k) == Resolve(chain, keepFrom + k) {
      ResolveOfTrim(chain, keepFrom, keepFrom + k);
    }
  }

  /** The version after this one, if any, is above the watermark. */
  ghost predicate Needed(chain: Chain, i: nat, wm: nat) {
    i < |chain| && (i + 1 == |chain| || chain[i + 1].seqno > wm)
  }

  /** The newest part of a chain, from the first version that is needed on. */
  ghost predicate Pruned(kept: Chain, chain: Chain, wm: nat) {
    && NewestPart(kept, chain) && (|kept| > 1 ==> kept[1].seqno > wm)
    && forall i: nat | i < |chain| :: Needed(chain, i, wm) <==> i >= |chain| - |kept|
  }

  /** Version `i` survives pruning if and only if the one after it, if any, is above the watermark. So what
      stays is everything above the watermark and at most one version that is not. */
  lemma PruneDropsExactly(chain: Chain, wm: nat)
    requires WellFormed(chain)
    ensures Pruned(PruneChain(chain, wm), chain, wm)
  {
    if |chain| > 1 {
      TrimIsNewestPart(chain, PruneFrom(chain, wm));
    }
  }

  /** The same of every chain of the store; nothing else changes. */
  lemma PruneDropsExactlyEverywhere(store: Store, wm: nat)
    requires Ordered(store)
    ensures Prune(store, wm) == store.(chains := Prune(store, wm).chains)
    ensures forall b: Block :: b in Prune(store, wm).chains <==> b in store.chains
    ensures forall b | b in store.chains :: Pruned(Prune(store, wm).chains[b], store.chains[b], wm)
  {
    forall b | b in store.chains ensures Pruned(Prune(store, wm).chains[b], store.chains[b], wm) {
      assert OrderedChain(store.chains[b], store.next);
      PruneDropsExactly(store.chains[b], wm);
    }
  }

  function AtLeastOne(cap: nat): nat { if cap == 0 then 1 else cap }

  /** The newest part of a chain, no less than the cap, with as much of the rest dropped as the watermark
      allows: within the cap, or the second version is above the watermark. */
  ghost predicate Capped(kept: Chain, chain: Chain, cap: Option<nat>, wm: nat) {
    match cap
    case None => kept == chain
    case Some(n) =>
      && NewestPart(kept, chain)
      && (|kept| < |chain| ==> |kept| >= AtLeastOne(n) && kept[0].seqno <= wm)
      && (|kept| <= AtLeastOne(n) || (|kept| > 1 && kept[1].seqno > wm))
  }

  lemma CapDropsExactly(chain: Chain, cap: Option<nat>, wm: nat)
    requires WellFormed(chain) && chain != []
    ensures Capped(CapChain(chain, cap, wm), chain, cap, wm)
  {
    if cap.Some? {
      var keepFrom := CapFrom(chain, AtLeastOne(cap.value), wm);
      TrimIsNewestPart(chain, keepFrom);
      TrimIsWellFormed(chain, keepFrom);
    }
  }

  /** One more version, with the bytes or, where the content did not change and that is looked at, a
      marker. */
  ghost predicate Pushed(longer: Chain, chain: Chain, seqno: nat, bytes: Bytes, dedup: bool) {
    && |longer| == |chain| + 1 && longer[..|chain|] == chain && longer[|chain|].seqno == seqno
    && Resolve(longer, |chain|) == Some(bytes)
    && (longer[|chain|].data.Identical? <==> dedup && chain != [] && Resolve(chain, |chain| - 1) == Some(bytes))
  }

  ghost predicate PushedAndCapped(after: Chain, chain: Chain, seqno: nat, bytes: Bytes, settings: Settings, wm: nat) {
    exists longer :: Pushed(longer, chain, seqno, bytes, settings.dedup) && Capped(after, longer, settings.cap, wm)
  }

  lemma InstallChainExactly(chain: Chain, seqno: nat, bytes: Bytes, settings: Settings, wm: nat)
    requires WellFormed(chain) && LatestSeqno(chain) < seqno
    ensures PushedAndCapped(InstallChain(chain, seqno, bytes, settings, wm), chain, seqno, bytes, settings, wm)
  {
    var longer := Extend(chain, seqno, bytes, settings.dedup);
    ExtendIsWellFormed(chain, seqno, bytes, settings.dedup);
    NewestOfExtend(chain, seqno, bytes, settings.dedup);
    CapDropsExactly(longer, settings.cap, wm);
    assert Pushed(longer, chain, seqno, bytes, settings.dedup);
  }

  /** A commit pushes one version on each chain it writes and caps it; nothing else changes but the next
      number. */
  lemma InstallsExactly(store: Store, entry: map<Block, Bytes>, settings: Settings, wm: nat)
    requires Ordered(store)
    ensures var after := Install(store, entry, settings, wm);
            after == store.(next := store.next + 1, chains := after.chains)
    ensures forall b: Block :: b in Install(store, entry, settings, wm).chains <==> b in store.chains || b in entry
    ensures forall b | b in store.chains && b !in entry ::
              Install(store, entry, settings, wm).chains[b] == store.chains[b]
    ensures forall b | b in entry :: PushedAndCapped(Install(store, entry, settings, wm).chains[b], store.ChainOf(b),
                                                     store.next, entry[b], settings, wm)
  {
    forall b | b in entry
      ensures PushedAndCapped(Install(store, entry, settings, wm).chains[b], store.ChainOf(b), store.next, entry[b],
                              settings, wm)
    {
      assert b in store.chains ==> OrderedChain(store.chains[b], store.next);
      InstallChainExactly(store.ChainOf(b), store.next, entry[b], settings, wm);
    }
  }

  lemma PruneIsOrdered(store: Store, wm: nat)
    requires Ordered(store)
    ensures Ordered(Prune(store, wm))
  {
    forall b | b in store.chains ensures OrderedChain(PruneChain(store.chains[b], wm), store.next) {
      PrunedChain(store.chains[b], wm, 0);
    }
  }

  lemma InstallIsOrdered(store: Store, entry: map<Block, Bytes>, settings: Settings, wm: nat)
    requires Ordered(store)
    ensures Ordered(Install(store, entry, settings, wm))
  {
    forall b | b in entry
      ensures OrderedChain(InstallChain(store.ChainOf(b), store.next, entry[b], settings, wm), store.next + 1)
    {
      InstalledChain(store.ChainOf(b), store.next, entry[b], settings, wm, 0);
    }
    forall b | b in store.chains ensures OrderedChain(store.chains[b], store.next + 1) {
    }
  }
}
