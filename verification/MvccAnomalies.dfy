/** Runs that the two-edge check admits and that no serial order explains, one for each way in which it
    can miss a cycle. */
module MvccAnomalies {
  import opened MvccChain
  import opened MvccCommit
  import opened MvccEffect
  import opened MvccMerge
  import opened MvccReplay
  import opened MvccSpec
  import opened MvccSsi
  import opened Orders
  import opened Wrappers

  // ----- what an order must look like -----

  /** After a whole write that nobody follows up, the block is as written. */
  lemma {:induction false} SettlesOn(h: History, order: seq<nat>, b: Block, x: nat)
    requires Within(order, |h|) && x < |order| && b in h[order[x]].writes && h[order[x]].writes[b].Whole?
    requires forall y | x < y < |order| :: b !in h[order[y]].writes
    ensures Content(h, order, b) == Some(h[order[x]].writes[b].bytes)
    decreases |order|
  {
    if x < |order| - 1 {
      SettlesOn(h, order[..|order| - 1], b, x);
    }
  }

  /** Block 1 is written by transactions 0 and 1 alone, whole; whoever is listed last wins. */
  ghost predicate TwoWriters(h: History) {
    && 2 <= |h| && (forall i | 0 <= i < |h| :: 1 in h[i].writes <==> i < 2)
    && h[0].writes[1].Whole? && h[1].writes[1].Whole?
  }

  lemma BlockOneBefore(h: History, order: seq<nat>, n: nat, p: nat, q: nat)
    requires TwoWriters(h) && Lists(order, |h|) && n <= |order| && p < |order| && q < |order|
    requires order[p] == 0 && order[q] == 1 && p < q
    ensures Content(h, order[..n], 1)
            == if q < n then Some(h[1].writes[1].bytes) else if p < n then Some(h[0].writes[1].bytes) else None
  {
    if q < n {
      SettlesOn(h, order[..n], 1, q);
    } else if p < n {
      SettlesOn(h, order[..n], 1, p);
    } else {
      NobodyWrites(h, order[..n], 1);
    }
  }

  lemma BlockOneAtEnd(h: History, order: seq<nat>, p: nat, q: nat)
    requires TwoWriters(h) && Lists(order, |h|) && p < |order| && q < |order|
    requires order[p] == 0 && order[q] == 1 && q < p
    ensures Content(h, order, 1) == Some(h[0].writes[1].bytes)
  {
    SettlesOn(h, order, 1, p);
  }

  // ----- a merge over a whole write -----

  const MERGE_SKEW: History := [
    Record(0, {}, map[0 := Whole([0, 0]), 1 := Whole([0])]),
    Record(1, {}, map[0 := Whole([1, 0]), 1 := Whole([1])]),
    Record(1, {1}, map[0 := Change([0, 0], [0, 2])])]

  const MERGE_SKEW_LOG: Log := [map[0 := [0, 0], 1 := [0]], map[0 := [1, 0], 1 := [1]], map[0 := [1, 2]]]

  lemma PatchTwo()
    ensures PatchBytes([1, 0], [0, 0], [0, 2]) == [1, 2]
  {
    assert Patch(1, 0, 0) == 1 && Patch(0, 0, 2) == 2;
  }

  /** A transaction that changes block 0 and writes nothing else. */
  lemma RecordedChange(record: Record, log: Log, j: nat, current: Bytes, base: Bytes, staged: Bytes)
    requires 0 < j < |log| && record.writes == map[0 := Change(base, staged)]
    requires 0 in log[j - 1] && log[j - 1][0] == current && log[j] == map[0 := PatchBytes(current, base, staged)]
    ensures RecordedAt(record, log, j)
  {
    assert ValueAt(log, 0, j) == Some(current);
  }

  lemma MergeSkewIsRecorded()
    ensures Recorded(MERGE_SKEW, MERGE_SKEW_LOG)
  {
    var log := MERGE_SKEW_LOG;
    PatchTwo();
    RecordedChange(MERGE_SKEW[2], log, 2, [1, 0], [0, 0], [0, 2]);
    assert RecordedAt(MERGE_SKEW[0], log, 0) && RecordedAt(MERGE_SKEW[1], log, 1);
  }

  /** One transaction writes two blocks whole; another, begun before it committed, reads the one and
      merges a change into the other. Read and merge call for opposite orders. */
  lemma MergeSkew()
    ensures Admitted(MERGE_SKEW) && Recorded(MERGE_SKEW, MERGE_SKEW_LOG) && UnseenWriter(MERGE_SKEW, 1, 2, 1)
    ensures forall order :: !Explains(MERGE_SKEW, MERGE_SKEW_LOG, order)
  {
    var h, log := MERGE_SKEW, MERGE_SKEW_LOG;
    MergeSkewIsRecorded();
    MergeSkewIsAdmitted();
    SettlesOn(h, [0, 2, 1], 0, 2);
    assert !ExplainsContent(h, log, [0, 2, 1], 0);
    forall order ensures !Explains(h, log, order) {
      if ExplainsReads(h, log, order) && ExplainsContent(h, log, order, 1) {
        MergeSkewOrder(order);
      }
    }
  }

  lemma MergeSkewIsAdmitted()
    ensures Admitted(MERGE_SKEW) && UnseenWriter(MERGE_SKEW, 1, 2, 1)
  {
    var h := MERGE_SKEW;
    assert ClashesOn(h, 1, 2, 0);
    assert 1 in h[2].readSet * h[1].WriteSet();
    assert h[..2] == [h[0], h[1]];
    assert forall r: Record :: {} * r.WriteSet() == {};
  }

  lemma MergeSkewOrder(order: seq<nat>)
    requires ExplainsReads(MERGE_SKEW, MERGE_SKEW_LOG, order)
    requires ExplainsContent(MERGE_SKEW, MERGE_SKEW_LOG, order, 1)
    ensures order == [0, 2, 1]
  {
    var h, log := MERGE_SKEW, MERGE_SKEW_LOG;
    ListsLength(order, 3);
    var p := Position(order, 3, 0);
    var q := Position(order, 3, 1);
    var n := Position(order, 3, 2);
    assert ValueAt(log, 1, 3) == Some([1]) && ValueAt(log, 1, 1) == Some([0]);
    if q < p {
      BlockOneAtEnd(h, order, p, q);
    }
    BlockOneBefore(h, order, n, p, q);
    assert p < n < q;
  }

  // ----- a tail after a whole write -----

  const APPEND_SKEW: History := [
    Record(0, {}, map[0 := Whole([1]), 1 := Whole([1])]),
    Record(0, {1}, map[0 := Tail([2])])]

  const APPEND_SKEW_LOG: Log := [map[0 := [1], 1 := [1]], map[0 := [1, 2]]]

  lemma AppendSkewIsAdmitted()
    ensures Admitted(APPEND_SKEW) && Recorded(APPEND_SKEW, APPEND_SKEW_LOG) && UnseenWriter(APPEND_SKEW, 0, 1, 0)
  {
    var h, log := APPEND_SKEW, APPEND_SKEW_LOG;
    assert ClashesOn(h, 0, 1, 0);
    assert 1 in h[1].readSet * h[0].WriteSet();
    assert h[..1] == [h[0]];
    assert forall r: Record :: {} * r.WriteSet() == {};
    assert ValueAt(log, 0, 1) == Some([1]);
    assert RecordedAt(h[0], log, 0) && RecordedAt(h[1], log, 1);
  }

  lemma AppendSkewOrder(order: seq<nat>)
    requires ExplainsReads(APPEND_SKEW, APPEND_SKEW_LOG, order)
    ensures order == [1, 0]
  {
    var h := APPEND_SKEW;
    ListsLength(order, 2);
    var p := Position(order, 2, 0);
    var n := Position(order, 2, 1);
    if p < n {
      SettlesOn(h, order[..n], 1, p);
    }
  }

  /** One transaction writes two blocks; another, begun before it committed, reads the one and appends
      to the other. */
  lemma AppendSkew()
    ensures Admitted(APPEND_SKEW) && Recorded(APPEND_SKEW, APPEND_SKEW_LOG) && UnseenWriter(APPEND_SKEW, 0, 1, 0)
    ensures forall order :: !Explains(APPEND_SKEW, APPEND_SKEW_LOG, order)
  {
    var h, log := APPEND_SKEW, APPEND_SKEW_LOG;
    AppendSkewIsAdmitted();
    SettlesOn(h, [1, 0], 0, 1);
    assert !ExplainsContent(h, log, [1, 0], 0);
    forall order ensures !Explains(h, log, order) {
      if ExplainsReads(h, log, order) {
        AppendSkewOrder(order);
      }
    }
  }

  // ----- a change of bits that were changed and changed back -----

  const REVERT_SKEW: History := [
    Record(0, {}, map[0 := Whole([0]), 1 := Whole([0])]),
    Record(1, {}, map[0 := Change([0], [1]), 1 := Whole([1])]),
    Record(2, {1}, map[0 := Change([1], [0])]),
    Record(1, {1}, map[0 := Change([0], [1])])]

  const REVERT_SKEW_LOG: Log := [map[0 := [0], 1 := [0]], map[0 := [1], 1 := [1]], map[0 := [0]], map[0 := [1]]]

  lemma PatchOne()
    ensures PatchBytes([0], [0], [1]) == [1] && PatchBytes([1], [0], [1]) == [1] && PatchBytes([1], [1], [0]) == [0]
  {
    assert Patch(0, 0, 1) == 1 && Patch(1, 0, 1) == 1 && Patch(1, 1, 0) == 0;
  }

  lemma RevertSkewIsRecorded()
    ensures Recorded(REVERT_SKEW, REVERT_SKEW_LOG)
  {
    var h, log := REVERT_SKEW, REVERT_SKEW_LOG;
    PatchOne();
    RecordedChange(h[2], log, 2, [1], [1], [0]);
    RecordedChange(h[3], log, 3, [0], [0], [1]);
    assert ValueAt(log, 0, 1) == Some([0]);
    assert RecordedAt(h[0], log, 0) && RecordedAt(h[1], log, 1);
  }

  lemma RevertSkewIsAdmitted()
    ensures Admitted(REVERT_SKEW) && UnseenWriter(REVERT_SKEW, 1, 3, 2)
  {
    var h := REVERT_SKEW;
    var e, f := h[2].writes[0], h[3].writes[0];
    assert (e.base[0] ^ e.staged[0]) & (f.base[0] ^ f.staged[0]) == 1;
    assert ClashesOn(h, 2, 3, 0);
    assert 1 in h[3].readSet * h[1].WriteSet();
    assert h[..3] == [h[0], h[1], h[2]] && h[..2] == [h[0], h[1]];
    assert forall r: Record :: {} * r.WriteSet() == {};
    assert h[2].readSet * h[3].WriteSet() == {};
  }

  lemma RevertSkewOrder(order: seq<nat>)
    requires ExplainsReads(REVERT_SKEW, REVERT_SKEW_LOG, order)
    requires ExplainsContent(REVERT_SKEW, REVERT_SKEW_LOG, order, 1)
    ensures order == [0, 3, 1, 2]
  {
    var h, log := REVERT_SKEW, REVERT_SKEW_LOG;
    ListsLength(order, 4);
    var p := Position(order, 4, 0);
    var q := Position(order, 4, 1);
    var m := Position(order, 4, 2);
    var n := Position(order, 4, 3);
    assert ValueAt(log, 1, 2) == Some([1]) && ValueAt(log, 1, 1) == Some([0]);
    assert ValueAt(log, 1, 4) == ValueAt(log, 1, 3) == ValueAt(log, 1, 2);
    if q < p {
      BlockOneAtEnd(h, order, p, q);
    }
    BlockOneBefore(h, order, m, p, q);
    BlockOneBefore(h, order, n, p, q);
    assert p < n < q < m;
  }

  lemma RevertSkewReplayed()
    ensures Content(REVERT_SKEW, [0, 3, 1, 2], 0) == Some([0])
  {
    var h := REVERT_SKEW;
    PatchOne();
    SettlesOn(h, [0], 0, 0);
    ContentOfAppend(h, [0], 3, 0);
    ContentOfAppend(h, [0, 3], 1, 0);
    ContentOfAppend(h, [0, 3, 1], 2, 0);
    assert [0] + [3] == [0, 3] && [0, 3] + [1] == [0, 3, 1] && [0, 3, 1] + [2] == [0, 3, 1, 2];
  }

  /** A bit is set and then cleared; a transaction begun before both finds it as it was and sets it. It
      also read what the first of them overwrote. */
  lemma RevertSkew()
    ensures Admitted(REVERT_SKEW) && Recorded(REVERT_SKEW, REVERT_SKEW_LOG) && UnseenWriter(REVERT_SKEW, 1, 3, 2)
    ensures forall order :: !Explains(REVERT_SKEW, REVERT_SKEW_LOG, order)
  {
    var h, log := REVERT_SKEW, REVERT_SKEW_LOG;
    RevertSkewIsRecorded();
    RevertSkewIsAdmitted();
    RevertSkewReplayed();
    assert !ExplainsContent(h, log, [0, 3, 1, 2], 0);
    forall order ensures !Explains(h, log, order) {
      if ExplainsReads(h, log, order) && ExplainsContent(h, log, order, 1) {
        RevertSkewOrder(order);
      }
    }
  }

  // ----- a late reader -----

  const READ_ONLY: History := [
    Record(0, {1}, map[1 := Whole([1])]), Record(0, {0, 1}, map[0 := Whole([2])]), Record(1, {0, 1}, map[])]

  const READ_ONLY_LOG: Log := [map[1 := [1]], map[0 := [2]], map[]]

  lemma ReadOnlyIsAdmitted()
    ensures Admitted(READ_ONLY) && Recorded(READ_ONLY, READ_ONLY_LOG)
  {
    var h, log := READ_ONLY, READ_ONLY_LOG;
    assert h[0].readSet * h[1].WriteSet() == {};
    assert h[..1] == [h[0]] && h[..2] == [h[0], h[1]];
    assert !Incoming(h[..1], 0, h[1]);
    assert RecordedAt(h[0], log, 0) && RecordedAt(h[1], log, 1) && RecordedAt(h[2], log, 2);
  }

  lemma ReadOnlyHasACycle()
    ensures LateReader(READ_ONLY, 0, 1, 2) && Cycle(READ_ONLY, [0, 2, 1])
  {
    var h := READ_ONLY;
    assert h[0].WriteSet() * h[2].readSet == {1};
    assert h[1].readSet * h[0].WriteSet() == {1};
    assert h[2].readSet * h[1].WriteSet() == {0};
    assert Precedes(h, 0, 2) && Precedes(h, 2, 1) && Precedes(h, 1, 0);
    var c := [0, 2, 1];
    assert Before(c, 0) == 2 && Before(c, 1) == 0 && Before(c, 2) == 1;
  }

  lemma ReadOnlyHasNoOrder(order: seq<nat>)
    ensures !ExplainsReads(READ_ONLY, READ_ONLY_LOG, order)
  {
    var h, log := READ_ONLY, READ_ONLY_LOG;
    if Lists(order, 3) {
      var p := Position(order, 3, 0);
      var q := Position(order, 3, 1);
      var n := Position(order, 3, 2);
      assert ValueAt(log, 1, 1) == Some([1]) && ValueAt(log, 0, 1) == None;
      if p < q {
        SettlesOn(h, order[..q], 1, p);
      } else if q < n {
        SettlesOn(h, order[..n], 0, q);
      } else {
        NobodyWrites(h, order[..n], 1);
      }
    }
  }

  /** A transfer (second) reads both accounts and writes one; a deposit (first) overwrote the other
      account meanwhile; a report taken in between reads both. */
  lemma ReadOnlyAnomaly()
    ensures Admitted(READ_ONLY) && Recorded(READ_ONLY, READ_ONLY_LOG) && LateReader(READ_ONLY, 0, 1, 2)
    ensures Cycle(READ_ONLY, [0, 2, 1]) && forall rank :: !Serializes(READ_ONLY, rank)
    ensures forall order :: !Explains(READ_ONLY, READ_ONLY_LOG, order)
  {
    ReadOnlyIsAdmitted();
    ReadOnlyHasACycle();
    forall rank ensures !Serializes(READ_ONLY, rank) {
      CycleHasNoRank(READ_ONLY, [0, 2, 1], rank);
    }
    forall order ensures !Explains(READ_ONLY, READ_ONLY_LOG, order) {
      ReadOnlyHasNoOrder(order);
    }
  }

  // ----- the store lets the last writer of each skew through, with these bytes -----

  lemma MergeSkewInstalls(store: Store)
    requires store.ChainOf(0) == [Version(1, Full([0, 0])), Version(2, Full([1, 0]))]
    ensures var txn := Transaction(3, 1, map[0 := StagedWrite([0, 2], RangeOverlay([Range(1, 1)]), None)]);
            && InstallBytes(store, txn, 0, SafeMerge) == Some(MERGE_SKEW_LOG[2][0])
            && EffectOf(MERGE_SKEW_LOG[..2], txn, 0) == MERGE_SKEW[2].writes[0]
  {
    var chain := store.ChainOf(0);
    VisibleCountIs(chain, 1, 1);
    VisibleCountIs(chain, 2, 2);
    var ranges := [Range(1, 1)];
    assert ranges[0].Contains(1) && !Covered(ranges, 0);
    CopyRangesAt([1, 0], [0, 2], ranges, 0);
    CopyRangesAt([1, 0], [0, 2], ranges, 1);
    assert CopyRanges([1, 0], [0, 2], ranges) == [1, 2];
    assert ValueAt(MERGE_SKEW_LOG[..2], 0, 1) == Some([0, 0]);
  }

  lemma AppendSkewInstalls(store: Store)
    requires store.ChainOf(0) == [Version(1, Full([1]))]
    ensures var txn := Transaction(2, 0, map[0 := StagedWrite([2], AppendOnly(0), None)]);
            && InstallBytes(store, txn, 0, SafeMerge) == Some(APPEND_SKEW_LOG[1][0])
            && EffectOf(APPEND_SKEW_LOG[..1], txn, 0) == APPEND_SKEW[1].writes[0]
  {
    VisibleCountIs(store.ChainOf(0), 0, 0);
    VisibleCountIs(store.ChainOf(0), 1, 1);
    assert LastWrite(APPEND_SKEW_LOG[..1], 0) == 1;
    var base: Bytes, latest: Bytes, staged: Bytes := [], [1], [2];
    assert base[..0] == latest[..0] == staged[..0] && latest + staged[0..] == [1, 2];
    assert MergeBytes(AppendOnly(0), base, latest, staged) == Some([1, 2]);
  }

  lemma RevertSkewInstalls(store: Store)
    requires store.ChainOf(0) == [Version(1, Full([0])), Version(2, Full([1])), Version(3, Full([0]))]
    ensures var txn := Transaction(4, 1, map[0 := StagedWrite([1], RangeOverlay([Range(0, 1)]), None)]);
            && InstallBytes(store, txn, 0, SafeMerge) == Some(REVERT_SKEW_LOG[3][0])
            && EffectOf(REVERT_SKEW_LOG[..3], txn, 0) == REVERT_SKEW[3].writes[0]
  {
    var chain := store.ChainOf(0);
    VisibleCountIs(chain, 1, 1);
    VisibleCountIs(chain, 3, 3);
    var ranges := [Range(0, 1)];
    assert ranges[0].Contains(0);
    CopyRangesAt([0], [1], ranges, 0);
    assert CopyRanges([0], [1], ranges) == [1];
    assert ValueAt(REVERT_SKEW_LOG[..3], 0, 1) == Some([0]);
  }
}
