/** What a committed write does to the block it is installed in, as an operation on whatever the
    block holds: the meaning that replaying transactions in another order is measured by. */
module MvccEffect {
  import opened MvccChain
  import opened MvccCommit
  import opened MvccMerge
  import opened MvccSpec
  import opened Wrappers

  /** A whole write sets the block. A change in place sets the bits in which the writer's bytes differ
      from what it started from. A tail goes after what is there. */
  datatype Effect = Whole(bytes: Bytes) | Change(base: Bytes, staged: Bytes) | Tail(tail: Bytes)

  /** The byte with the changed bits set. */
  function Patch(current: bv8, base: bv8, staged: bv8): bv8 {
    (current & !(base ^ staged)) | (staged & (base ^ staged))
  }

  function PatchBytes(current: Bytes, base: Bytes, staged: Bytes): (r: Bytes)
    ensures |r| == |current|
  {
    seq(|current|, i requires 0 <= i < |current| =>
      if i < |base| && i < |staged| then Patch(current[i], base[i], staged[i]) else current[i])
  }

  function Perform(effect: Effect, current: Bytes): Bytes {
    match effect
    case Whole(bytes) => bytes
    case Change(base, staged) => PatchBytes(current, base, staged)
    case Tail(tail) => current + tail
  }

  /** Both changed the block in place, and no bit of it is in both changes. */
  predicate Independent(e: Effect, f: Effect) {
    && e.Change? && f.Change?
    && forall i | 0 <= i < |e.base| && i < |e.staged| && i < |f.base| && i < |f.staged| ::
         (e.base[i] ^ e.staged[i]) & (f.base[i] ^ f.staged[i]) == 0
  }

  lemma PatchesCommute(c: bv8, b: bv8, s: bv8, b': bv8, s': bv8)
    requires (b ^ s) & (b' ^ s') == 0
    ensures Patch(Patch(c, b, s), b', s') == Patch(Patch(c, b', s'), b, s)
  {
  }

  /** Independent effects give the same bytes in either order, whatever was there. */
  lemma IndependentCommute(e: Effect, f: Effect, current: Bytes)
    requires Independent(e, f)
    ensures Perform(f, Perform(e, current)) == Perform(e, Perform(f, current))
  {
    var x, y := Perform(f, Perform(e, current)), Perform(e, Perform(f, current));
    forall i | 0 <= i < |current| ensures x[i] == y[i] {
      if i < |e.base| && i < |e.staged| && i < |f.base| && i < |f.staged| {
        PatchesCommute(current[i], e.base[i], e.staged[i], f.base[i], f.staged[i]);
      }
    }
  }

  // ----- what a commit does -----

  /** The effect of a staged write: its proof says whether it is a whole write, a change or a tail. A
      change of another size than the block, or a tail staged over other content, sets the block. */
  ghost function EffectOf(log: Log, txn: Transaction, b: Block): Effect
    requires b in txn.writes
  {
    var write, base := txn.writes[b], ValueAt(log, b, txn.snapshot).GetOr([]);
    match write.proof
    case Unsafe => Whole(write.bytes)
    case DisjointBlocks => Whole(write.bytes)
    case AppendOnly(baseLen) =>
      if baseLen <= |write.bytes| && (LastWrite(log, b) > txn.snapshot || write.bytes[..baseLen] == base)
      then Tail(write.bytes[baseLen..]) else Whole(write.bytes)
    case _ => if |base| == |write.bytes| then Change(base, write.bytes) else Whole(write.bytes)
  }

  lemma PatchIsMerge(base: bv8, current: bv8, staged: bv8, merged: bv8)
    requires ByteMerged(base, current, staged, merged)
    ensures Patch(current, base, staged) == merged
  {
  }

  /** A three-way merge sets the writer's bits and no others. */
  lemma MergePatches(base: Bytes, current: Bytes, staged: Bytes, merged: Bytes)
    requires ThreeWay(base, current, staged, merged)
    ensures PatchBytes(current, base, staged) == merged
  {
    forall i | 0 <= i < |base| ensures PatchBytes(current, base, staged)[i] == merged[i] {
      PatchIsMerge(base[i], current[i], staged[i], merged[i]);
    }
  }

  lemma PatchOfBase(base: bv8, staged: bv8)
    ensures Patch(base, base, staged) == staged
  {
  }

  lemma PatchesOfBase(base: Bytes, staged: Bytes)
    requires |base| == |staged|
    ensures PatchBytes(base, base, staged) == staged
  {
    forall i | 0 <= i < |base| ensures PatchBytes(base, base, staged)[i] == staged[i] {
      PatchOfBase(base[i], staged[i]);
    }
  }

  lemma FirstCommitPerforms(log: Log, txn: Transaction, b: Block)
    requires b in txn.writes && LastWrite(log, b) <= txn.snapshot <= |log|
    ensures Perform(EffectOf(log, txn, b), ValueAt(log, b, |log|).GetOr([])) == txn.writes[b].bytes
  {
    ValueAtSettled(log, b, txn.snapshot);
    var effect := EffectOf(log, txn, b);
    if effect.Change? {
      PatchesOfBase(effect.base, effect.staged);
    } else if effect.Tail? {
      var bytes, n := txn.writes[b].bytes, txn.writes[b].proof.baseLen;
      assert bytes == bytes[..n] + bytes[n..];
    }
  }

  lemma JoinedPerforms(log: Log, txn: Transaction, b: Block, installed: Bytes)
    requires b in txn.writes && LastWrite(log, b) > txn.snapshot
    requires !txn.writes[b].proof.Unsafe? && !txn.writes[b].proof.DisjointBlocks?
    requires Joined(txn.writes[b].proof, ValueAt(log, b, txn.snapshot).GetOr([]), ValueAt(log, b, |log|).GetOr([]),
                    txn.writes[b].bytes, installed)
    ensures Perform(EffectOf(log, txn, b), ValueAt(log, b, |log|).GetOr([])) == installed
  {
    if !txn.writes[b].proof.AppendOnly? {
      MergePatches(ValueAt(log, b, txn.snapshot).GetOr([]), ValueAt(log, b, |log|).GetOr([]), txn.writes[b].bytes,
                   installed);
    }
  }

  /** First committer or not, a committed write leaves its block as its effect on the current content
      says. */
  lemma CommitPerforms(store: Store, log: Log, txn: Transaction, order: seq<Block>, settings: Settings, b: Block)
    requires Valid(store, log) && Intact(store, log, txn.snapshot) && ListsWrites(order, txn) && txn.snapshot <= |log|
    requires b in txn.writes && Commit(store, txn, order, settings).Committed?
    ensures b in Commit(store, txn, order, settings).entry
    ensures Commit(store, txn, order, settings).entry[b]
            == Perform(EffectOf(log, txn, b), ValueAt(log, b, |log|).GetOr([]))
  {
    CommitLosesNoUpdate(store, log, txn, order, settings, b);
    if LastWrite(log, b) <= txn.snapshot {
      FirstCommitPerforms(log, txn, b);
    } else {
      CommittedEntry(store, txn, order, settings, b);
      assert LatestSeqno(store.ChainOf(b)) == LastWrite(log, b);
      JoinedPerforms(log, txn, b, Commit(store, txn, order, settings).entry[b]);
    }
  }
}
