/** Same-block merges of `crates/ffs-mvcc/src/lib.rs`: when two transactions that started
    from one snapshot both wrote a block, what evidence lets the second still commit, and
    what bytes it then installs. */
module MvccMerge {
  import opened MvccChain
  import opened Orders
  import opened Wrappers

  datatype Range = Range(start: nat, len: nat) {
    function End(): nat { start + len }
    predicate Overlaps(other: Range) { start < other.End() && other.start < End() }
    predicate Contains(i: int) { start <= i < End() }
  }

  /** No empty range shares its start with a non-empty one. The source would accept such a list as
      disjoint and may then slice backwards (`EmptyRangeDefeatsTheWalk`), so it is no evidence. */
  predicate Sliceable(ranges: seq<Range>) {
    forall j, k | 0 <= j < |ranges| && 0 <= k < |ranges| && ranges[j].start == ranges[k].start ::
      ranges[j].len == 0 ==> ranges[k].len == 0
  }

  type TouchedRanges = ranges: seq<Range> | Sliceable(ranges) witness []

  /** The evidence a staged write carries. The three range labels of the source share one
      byte algorithm. */
  datatype Proof =
    | Unsafe
    | DisjointBlocks
    | AppendOnly(baseLen: nat)
    | RangeOverlay(ranges: TouchedRanges)
    | BitmapOr
    | BitmapDelta

  // ----- what each proof requires -----

  predicate AppendValid(baseLen: nat, base: Bytes, latest: Bytes, staged: Bytes) {
    && baseLen <= |base| && baseLen <= |latest| && baseLen <= |staged|
    && latest[..baseLen] == base[..baseLen] == staged[..baseLen]
  }

  predicate Covered(ranges: seq<Range>, i: int) { exists k | 0 <= k < |ranges| :: ranges[k].Contains(i) }

  predicate PairwiseDisjoint(ranges: seq<Range>) {
    forall j, k | 0 <= j < k < |ranges| :: !ranges[j].Overlaps(ranges[k])
  }

  /** The writer stayed inside its declared ranges and nobody else has touched them. */
  predicate OverlayValid(ranges: seq<Range>, base: Bytes, latest: Bytes, staged: Bytes) {
    && |latest| == |base| == |staged|
    && PairwiseDisjoint(ranges)
    && (forall k | 0 <= k < |ranges| :: ranges[k].End() <= |base|)
    && (forall i | 0 <= i < |base| && !Covered(ranges, i) :: staged[i] == base[i])
    && (forall i | 0 <= i < |base| && Covered(ranges, i) :: latest[i] == base[i])
  }

  predicate OrValid(base: Bytes, latest: Bytes, staged: Bytes) {
    && |latest| == |base| == |staged|
    && forall i | 0 <= i < |base| ::
         && base[i] & !latest[i] == 0 && base[i] & !staged[i] == 0
         && (latest[i] & !base[i]) & (staged[i] & !base[i]) == 0
  }

  predicate DeltaValid(base: Bytes, latest: Bytes, staged: Bytes) {
    && |latest| == |base| == |staged|
    && forall i | 0 <= i < |base| :: (latest[i] ^ base[i]) & (staged[i] ^ base[i]) == 0
  }

  predicate MergeValid(proof: Proof, base: Bytes, latest: Bytes, staged: Bytes) {
    match proof
    case Unsafe => false
    case DisjointBlocks => false
    case AppendOnly(baseLen) => AppendValid(baseLen, base, latest, staged)
    case RangeOverlay(ranges) => OverlayValid(ranges, base, latest, staged)
    case BitmapOr => OrValid(base, latest, staged)
    case BitmapDelta => DeltaValid(base, latest, staged)
  }

  // ----- the merged bytes -----

  function CopyRange(onto: Bytes, from: Bytes, range: Range): (r: Bytes)
    requires range.End() <= |onto| == |from|
    ensures |r| == |onto| && forall i | 0 <= i < |onto| :: r[i] == if range.Contains(i) then from[i] else onto[i]
  {
    onto[..range.start] + from[range.start..range.End()] + onto[range.End()..]
  }

  function CopyRanges(onto: Bytes, from: Bytes, ranges: seq<Range>): (r: Bytes)
    requires |onto| == |from| && forall k | 0 <= k < |ranges| :: ranges[k].End() <= |onto|
    ensures |r| == |onto|
  {
    if ranges == [] then onto
    else CopyRange(CopyRanges(onto, from, ranges[..|ranges| - 1]), from, ranges[|ranges| - 1])
  }

  function MergeBytes(proof: Proof, base: Bytes, latest: Bytes, staged: Bytes): (merged: Option<Bytes>)
    ensures merged.Some? <==> MergeValid(proof, base, latest, staged)
  {
    if !MergeValid(proof, base, latest, staged) then None
    else
      match proof
      case AppendOnly(baseLen) => Some(latest + staged[baseLen..])
      case RangeOverlay(ranges) => Some(CopyRanges(latest, staged, ranges))
      case BitmapOr => Some(OrBytes(latest, staged))
      case BitmapDelta => Some(XorBytes(base, latest, staged))
  }

  // ----- a merge keeps both writers' changes -----

  /** Bit by bit, `merged` departs from `base` exactly where one of the two writers did, and
      holds that writer's value there; no bit was changed by both. */
  ghost predicate ThreeWay(base: Bytes, latest: Bytes, staged: Bytes, merged: Bytes) {
    && |merged| == |latest| == |base| == |staged|
    && forall i | 0 <= i < |base| :: ByteMerged(base[i], latest[i], staged[i], merged[i])
  }

  ghost predicate ByteMerged(base: bv8, latest: bv8, staged: bv8, merged: bv8) {
    var byLatest, byStaged := latest ^ base, staged ^ base;
    byLatest & byStaged == 0 && merged ^ base == byLatest | byStaged
  }

  /** A three-way merge is unique, so it does not matter which writer came first. */
  lemma ThreeWayIsUnique(base: Bytes, a: Bytes, b: Bytes, m: Bytes, n: Bytes)
    requires ThreeWay(base, a, b, m) && ThreeWay(base, b, a, n)
    ensures m == n
  {
    forall i | 0 <= i < |base| ensures m[i] == n[i] {
      ByteMergeIsUnique(base[i], a[i], b[i], m[i], n[i]);
    }
  }

  lemma ByteMergeIsUnique(base: bv8, a: bv8, b: bv8, m: bv8, n: bv8)
    requires ByteMerged(base, a, b, m) && ByteMerged(base, b, a, n)
    ensures m == n
  {
  }

  lemma {:induction false} CopyRangesAt(onto: Bytes, from: Bytes, ranges: seq<Range>, i: int)
    requires |onto| == |from| && (forall k | 0 <= k < |ranges| :: ranges[k].End() <= |onto|) && 0 <= i < |onto|
    ensures CopyRanges(onto, from, ranges)[i] == if Covered(ranges, i) then from[i] else onto[i]
  {
    if ranges != [] {
      var last := |ranges| - 1;
      CopyRangesAt(onto, from, ranges[..last], i);
      assert Covered(ranges, i) <==> Covered(ranges[..last], i) || ranges[last].Contains(i);
    }
  }

  lemma ByteMergedOneSided(base: bv8, changed: bv8)
    ensures ByteMerged(base, base, changed, changed) && ByteMerged(base, changed, base, changed)
  {
  }

  lemma OverlayIsThreeWay(ranges: seq<Range>, base: Bytes, latest: Bytes, staged: Bytes)
    requires OverlayValid(ranges, base, latest, staged)
    ensures ThreeWay(base, latest, staged, CopyRanges(latest, staged, ranges))
  {
    var merged := CopyRanges(latest, staged, ranges);
    forall i | 0 <= i < |base| ensures ByteMerged(base[i], latest[i], staged[i], merged[i]) {
      CopyRangesAt(latest, staged, ranges, i);
      ByteMergedOneSided(base[i], merged[i]);
    }
  }

  function XorBytes(base: Bytes, latest: Bytes, staged: Bytes): Bytes
    requires |latest| == |base| == |staged|
  {
    seq(|latest|, i requires 0 <= i < |latest| => latest[i] ^ base[i] ^ staged[i])
  }

  function OrBytes(latest: Bytes, staged: Bytes): Bytes
    requires |latest| == |staged|
  {
    seq(|latest|, i requires 0 <= i < |latest| => latest[i] | staged[i])
  }

  lemma ByteMergedByXor(base: bv8, latest: bv8, staged: bv8)
    requires (latest ^ base) & (staged ^ base) == 0
    ensures ByteMerged(base, latest, staged, latest ^ base ^ staged)
  {
  }

  lemma DeltaIsThreeWay(base: Bytes, latest: Bytes, staged: Bytes)
    requires DeltaValid(base, latest, staged)
    ensures ThreeWay(base, latest, staged, XorBytes(base, latest, staged))
  {
    forall i | 0 <= i < |base| ensures ByteMerged(base[i], latest[i], staged[i], XorBytes(base, latest, staged)[i]) {
      ByteMergedByXor(base[i], latest[i], staged[i]);
    }
  }

  lemma OrByteIsDelta(base: bv8, latest: bv8, staged: bv8)
    requires base & !latest == 0 && base & !staged == 0 && (latest & !base) & (staged & !base) == 0
    ensures (latest ^ base) & (staged ^ base) == 0 && latest | staged == latest ^ base ^ staged
  {
  }

  /** The OR proof is the set-only case of the delta proof: whenever it applies, so does the
      delta proof, with the same bytes. */
  lemma OrIsDelta(base: Bytes, latest: Bytes, staged: Bytes)
    requires OrValid(base, latest, staged)
    ensures DeltaValid(base, latest, staged)
    ensures OrBytes(latest, staged) == XorBytes(base, latest, staged)
  {
    OrImpliesDelta(base, latest, staged);
    OrBytesAreXor(base, latest, staged);
  }

  lemma OrImpliesDelta(base: Bytes, latest: Bytes, staged: Bytes)
    requires OrValid(base, latest, staged)
    ensures DeltaValid(base, latest, staged)
  {
    forall i | 0 <= i < |base| ensures (latest[i] ^ base[i]) & (staged[i] ^ base[i]) == 0 {
      OrByteIsDelta(base[i], latest[i], staged[i]);
    }
  }

  lemma OrBytesAreXor(base: Bytes, latest: Bytes, staged: Bytes)
    requires OrValid(base, latest, staged)
    ensures OrBytes(latest, staged) == XorBytes(base, latest, staged)
  {
    forall i | 0 <= i < |base| ensures latest[i] | staged[i] == latest[i] ^ base[i] ^ staged[i] {
      OrByteIsDelta(base[i], latest[i], staged[i]);
    }
    assert OrBytes(latest, staged) == XorBytes(base, latest, staged);
  }

  /** Every proof that works in place merges three-way. */
  lemma MergeIsThreeWay(proof: Proof, base: Bytes, latest: Bytes, staged: Bytes)
    requires MergeValid(proof, base, latest, staged) && !proof.AppendOnly?
    ensures ThreeWay(base, latest, staged, MergeBytes(proof, base, latest, staged).value)
  {
    match proof
    case RangeOverlay(ranges) => OverlayIsThreeWay(ranges, base, latest, staged);
    case BitmapOr =>
      OrIsDelta(base, latest, staged);
      DeltaIsThreeWay(base, latest, staged);
    case BitmapDelta => DeltaIsThreeWay(base, latest, staged);
  }

  lemma ByteMergeIsXor(base: bv8, latest: bv8, staged: bv8, merged: bv8)
    requires ByteMerged(base, latest, staged, merged)
    ensures merged == latest ^ base ^ staged
  {
  }

  /** In other words a merge adds the writer's own change to what is there, whatever that is; changes
      so added can be added in any order. */
  lemma MergeAddsDelta(proof: Proof, base: Bytes, latest: Bytes, staged: Bytes)
    requires MergeValid(proof, base, latest, staged) && !proof.AppendOnly?
    ensures |latest| == |base| == |staged|
    ensures MergeBytes(proof, base, latest, staged) == Some(XorBytes(base, latest, staged))
  {
    MergeIsThreeWay(proof, base, latest, staged);
    var merged := MergeBytes(proof, base, latest, staged).value;
    forall i | 0 <= i < |base| ensures merged[i] == XorBytes(base, latest, staged)[i] {
      ByteMergeIsXor(base[i], latest[i], staged[i], merged[i]);
    }
    assert merged == XorBytes(base, latest, staged);
  }

  /** Two changes made off any two bases add up to the same bytes in either order. */
  lemma DeltasCommute(current: Bytes, base: Bytes, staged: Bytes, base': Bytes, staged': Bytes)
    requires |current| == |base| == |staged| == |base'| == |staged'|
    ensures XorBytes(base', XorBytes(base, current, staged), staged')
            == XorBytes(base, XorBytes(base', current, staged'), staged)
  {
    var x, y := XorBytes(base', XorBytes(base, current, staged), staged'),
        XorBytes(base, XorBytes(base', current, staged'), staged);
    forall i | 0 <= i < |current| ensures x[i] == y[i] {
      XorCommutes(current[i], base[i], staged[i], base'[i], staged'[i]);
    }
  }

  lemma XorCommutes(c: bv8, b: bv8, s: bv8, b': bv8, s': bv8)
    ensures (c ^ b ^ s) ^ b' ^ s' == (c ^ b' ^ s') ^ b ^ s
  {
  }

  /** Two writers off one base merge to the same bytes whichever commits first. */
  lemma MergeOrderIsIrrelevant(p: Proof, q: Proof, base: Bytes, a: Bytes, b: Bytes)
    requires !p.AppendOnly? && !q.AppendOnly?
    requires MergeValid(p, base, a, b) && MergeValid(q, base, b, a)
    ensures MergeBytes(p, base, a, b) == MergeBytes(q, base, b, a)
  {
    MergeIsThreeWay(p, base, a, b);
    MergeIsThreeWay(q, base, b, a);
    ThreeWayIsUnique(base, a, b, MergeBytes(p, base, a, b).value, MergeBytes(q, base, b, a).value);
  }

  // ----- what each proof accepts -----

  /** The delta proof accepts exactly what can be merged three-way at all. */
  lemma DeltaAcceptsExactlyWhen(base: Bytes, latest: Bytes, staged: Bytes)
    ensures MergeBytes(BitmapDelta, base, latest, staged).Some? <==> exists m :: ThreeWay(base, latest, staged, m)
  {
    if DeltaValid(base, latest, staged) {
      DeltaIsThreeWay(base, latest, staged);
    }
    if m :| ThreeWay(base, latest, staged, m) {
      forall i | 0 <= i < |base| ensures (latest[i] ^ base[i]) & (staged[i] ^ base[i]) == 0 {
        assert ByteMerged(base[i], latest[i], staged[i], m[i]);
      }
    }
  }

  /** No bit of the base is cleared. */
  ghost predicate OnlySets(base: Bytes, merged: Bytes) {
    |merged| == |base| && forall i | 0 <= i < |base| :: base[i] & !merged[i] == 0
  }

  lemma OrByteAcceptsExactlyWhen(base: bv8, latest: bv8, staged: bv8, m: bv8)
    requires ByteMerged(base, latest, staged, m)
    ensures base & !latest == 0 && base & !staged == 0 && (latest & !base) & (staged & !base) == 0 <==> base & !m == 0
  {
  }

  /** The OR proof accepts exactly the three-way merges that clear nothing. */
  lemma OrAcceptsExactlyWhen(base: Bytes, latest: Bytes, staged: Bytes)
    ensures MergeBytes(BitmapOr, base, latest, staged).Some?
            <==> exists m :: ThreeWay(base, latest, staged, m) && OnlySets(base, m)
  {
    if OrValid(base, latest, staged) {
      OrMergeSets(base, latest, staged);
    }
    if m :| ThreeWay(base, latest, staged, m) && OnlySets(base, m) {
      SettingIsAccepted(base, latest, staged, m);
    }
  }

  lemma OrMergeSets(base: Bytes, latest: Bytes, staged: Bytes)
    requires OrValid(base, latest, staged)
    ensures var m := XorBytes(base, latest, staged); ThreeWay(base, latest, staged, m) && OnlySets(base, m)
  {
    OrImpliesDelta(base, latest, staged);
    DeltaIsThreeWay(base, latest, staged);
    var m := XorBytes(base, latest, staged);
    forall i | 0 <= i < |base| ensures base[i] & !m[i] == 0 {
      assert ByteMerged(base[i], latest[i], staged[i], m[i]);
      OrByteAcceptsExactlyWhen(base[i], latest[i], staged[i], m[i]);
    }
  }

  lemma SettingIsAccepted(base: Bytes, latest: Bytes, staged: Bytes, m: Bytes)
    requires ThreeWay(base, latest, staged, m) && OnlySets(base, m)
    ensures OrValid(base, latest, staged)
  {
    forall i | 0 <= i < |base|
      ensures base[i] & !latest[i] == 0 && base[i] & !staged[i] == 0
              && (latest[i] & !base[i]) & (staged[i] & !base[i]) == 0
    {
      OrByteAcceptsExactlyWhen(base[i], latest[i], staged[i], m[i]);
    }
  }

  /** The append proof accepts exactly writers that share a prefix of the declared length with the base
      and with the latest content. */
  lemma AppendAcceptsExactlyWhen(baseLen: nat, base: Bytes, latest: Bytes, staged: Bytes)
    ensures MergeBytes(AppendOnly(baseLen), base, latest, staged).Some?
            <==> exists prefix: Bytes :: |prefix| == baseLen && prefix <= base && prefix <= latest && prefix <= staged
  {
    if AppendValid(baseLen, base, latest, staged) {
      assert base[..baseLen] <= base;
    }
  }

  /** The range proof accepts exactly ranges that pass the overlap test and fit, with the three-way merge
      that takes every covered byte from the writer and every other byte from the latest content. */
  lemma OverlayAcceptsExactlyWhen(ranges: TouchedRanges, base: Bytes, latest: Bytes, staged: Bytes)
    ensures MergeBytes(RangeOverlay(ranges), base, latest, staged).Some?
            <==> && PairwiseDisjoint(ranges) && Fit(ranges, |base|)
                 && exists m :: ThreeWay(base, latest, staged, m) && Overlaid(ranges, base, latest, staged, m)
  {
    if OverlayValid(ranges, base, latest, staged) {
      OverlayIsThreeWay(ranges, base, latest, staged);
      var m := CopyRanges(latest, staged, ranges);
      forall i | 0 <= i < |base|
        ensures if Covered(ranges, i) then m[i] == staged[i] && latest[i] == base[i]
                else m[i] == latest[i] && staged[i] == base[i]
      {
        CopyRangesAt(latest, staged, ranges, i);
      }
      assert Overlaid(ranges, base, latest, staged, m);
    }
  }

  /** Inside the ranges only the writer changed anything, outside them only others. */
  ghost predicate Overlaid(ranges: seq<Range>, base: Bytes, latest: Bytes, staged: Bytes, m: Bytes) {
    && |m| == |latest| == |base| == |staged|
    && forall i | 0 <= i < |base| ::
         if Covered(ranges, i) then m[i] == staged[i] && latest[i] == base[i]
         else m[i] == latest[i] && staged[i] == base[i]
  }

  /** A plain write is never merged. */
  lemma PlainWritesNeverMerge(proof: Proof, base: Bytes, latest: Bytes, staged: Bytes)
    requires proof.Unsafe? || proof.DisjointBlocks?
    ensures MergeBytes(proof, base, latest, staged) == None
  {
  }

  /** Two ranges overlap exactly when they share a byte or an empty one lies strictly inside the other. */
  lemma OverlapsExactlyWhen(a: Range, b: Range)
    ensures a.Overlaps(b) <==>
              || (exists i :: a.Contains(i) && b.Contains(i))
              || (a.len == 0 && b.start < a.start < b.End()) || (b.len == 0 && a.start < b.start < a.End())
  {
    if a.Overlaps(b) && a.len > 0 && b.len > 0 {
      var i := if a.start < b.start then b.start else a.start;
      assert a.Contains(i) && b.Contains(i);
    }
  }

  /** Appends keep everything: the shared prefix, then the first writer's tail, then the second's. */
  lemma AppendKeepsBothTails(baseLen: nat, base: Bytes, latest: Bytes, staged: Bytes)
    requires AppendValid(baseLen, base, latest, staged)
    ensures MergeBytes(AppendOnly(baseLen), base, latest, staged)
            == Some(base[..baseLen] + latest[baseLen..] + staged[baseLen..])
  {
    assert latest == latest[..baseLen] + latest[baseLen..];
  }

  // ----- the range check as the source walks it -----

  datatype Check = Accept | Reject | Panic

  predicate SortedByStart(ranges: seq<Range>) {
    forall j, k | 0 <= j < k < |ranges| :: ranges[j].start <= ranges[k].start
  }

  /** A range begins before the one ahead of it has ended. */
  ghost predicate Reversed(ordered: seq<Range>, n: nat) {
    1 <= n < |ordered| && ordered[n - 1].End() > ordered[n].start
  }

  /** Ranges that pass the overlap test and are sorted can only be reversed by an empty range just
      after a non-empty one with the same start. */
  lemma ReversedExactlyWhen(ordered: seq<Range>, n: nat)
    requires SortedByStart(ordered) && PairwiseDisjoint(ordered) && 1 <= n < |ordered|
    ensures Reversed(ordered, n)
            <==> ordered[n].len == 0 && ordered[n - 1].len > 0 && ordered[n].start == ordered[n - 1].start
  {
    assert !ordered[n - 1].Overlaps(ordered[n]);
  }

  ghost predicate SameOutside(ordered: seq<Range>, base: Bytes, staged: Bytes, to: nat)
    requires to <= |base| == |staged|
  {
    forall i | 0 <= i < to && !Covered(ordered, i) :: staged[i] == base[i]
  }

  predicate Fit(ranges: seq<Range>, size: nat) { forall k | 0 <= k < |ranges| :: ranges[k].End() <= size }

  /** The walk from range `n` on, with everything before `cursor` compared: the gaps between the
      sorted ranges must be unchanged, and a gap whose bounds are reversed is a slice fault. */
  ghost function WalkFrom(ordered: seq<Range>, base: Bytes, staged: Bytes, n: nat, cursor: nat): Check
    requires |base| == |staged| && Fit(ordered, |base|) && n <= |ordered| && cursor <= |base|
    decreases |ordered| - n
  {
    if n == |ordered| then if staged[cursor..] == base[cursor..] then Accept else Reject
    else if cursor > ordered[n].start then Panic
    else if staged[cursor..ordered[n].start] != base[cursor..ordered[n].start] then Reject
    else WalkFrom(ordered, base, staged, n + 1, ordered[n].End())
  }

  method CheckGaps(ordered: seq<Range>, base: Bytes, staged: Bytes) returns (check: Check)
    requires |base| == |staged| && Fit(ordered, |base|)
    ensures check == WalkFrom(ordered, base, staged, 0, 0)
  {
    var cursor := 0;
    for n := 0 to |ordered|
      invariant 0 <= cursor <= |base|
      invariant WalkFrom(ordered, base, staged, n, cursor) == WalkFrom(ordered, base, staged, 0, 0)
    {
      var range := ordered[n];
      if cursor > range.start {
        return Panic;
      }
      if staged[cursor..range.start] != base[cursor..range.start] {
        return Reject;
      }
      cursor := range.End();
    }
    return if staged[cursor..] == base[cursor..] then Accept else Reject;
  }

  /** How far the walk has come without fault or difference. */
  ghost predicate Walked(ordered: seq<Range>, base: Bytes, staged: Bytes, n: nat, cursor: nat) {
    && |base| == |staged| && Fit(ordered, |base|) && SortedByStart(ordered)
    && n <= |ordered| && cursor <= |base| && cursor == (if n == 0 then 0 else ordered[n - 1].End())
    && SameOutside(ordered, base, staged, cursor)
    && (forall k | 0 <= k < n :: ordered[k].End() <= cursor)
    && (forall m: nat | m < n :: !Reversed(ordered, m))
  }

  lemma {:induction false} WalkDecides(ordered: seq<Range>, base: Bytes, staged: Bytes, n: nat, cursor: nat)
    requires Walked(ordered, base, staged, n, cursor)
    ensures var check := WalkFrom(ordered, base, staged, n, cursor);
            && (check == Panic ==> exists m: nat :: Reversed(ordered, m))
            && (check == Reject ==> !SameOutside(ordered, base, staged, |base|))
            && (check == Accept ==>
                  SameOutside(ordered, base, staged, |base|) && forall m: nat :: !Reversed(ordered, m))
    decreases |ordered| - n
  {
    if n == |ordered| {
      GapDecides(ordered, base, staged, cursor, |base|, n);
      assert staged[cursor..] == staged[cursor..|base|] && base[cursor..] == base[cursor..|base|];
    } else if cursor > ordered[n].start {
      assert Reversed(ordered, n);
    } else {
      GapDecides(ordered, base, staged, cursor, ordered[n].start, n);
      if staged[cursor..ordered[n].start] == base[cursor..ordered[n].start] {
        assert forall i | ordered[n].start <= i < ordered[n].End() :: ordered[n].Contains(i);
        WalkDecides(ordered, base, staged, n + 1, ordered[n].End());
      }
    }
  }

  /** The walk accepts exactly when nothing outside the ranges changed and no range is reversed; a
      rejection means something did, a fault that some range is. */
  lemma WalkMeans(ordered: seq<Range>, base: Bytes, staged: Bytes)
    requires |base| == |staged| && Fit(ordered, |base|) && SortedByStart(ordered)
    ensures var check := WalkFrom(ordered, base, staged, 0, 0);
            && (check == Accept
                <==> SameOutside(ordered, base, staged, |base|) && forall m: nat :: !Reversed(ordered, m))
            && (check == Reject ==> !SameOutside(ordered, base, staged, |base|))
            && (check == Panic ==> exists m: nat :: Reversed(ordered, m))
  {
    WalkDecides(ordered, base, staged, 0, 0);
  }

  /** The gap before the next range holds no covered byte, so it must be unchanged. */
  lemma GapDecides(ordered: seq<Range>, base: Bytes, staged: Bytes, from: nat, to: nat, n: nat)
    requires from <= to <= |base| == |staged| && n <= |ordered| && SortedByStart(ordered)
    requires SameOutside(ordered, base, staged, from)
    requires forall k | 0 <= k < n :: ordered[k].End() <= from
    requires n < |ordered| ==> to <= ordered[n].start
    ensures staged[from..to] == base[from..to] ==> SameOutside(ordered, base, staged, to)
    ensures staged[from..to] != base[from..to] ==> !SameOutside(ordered, base, staged, |base|)
  {
    if staged[from..to] == base[from..to] {
      forall i | from <= i < to ensures staged[i] == base[i] {
        assert staged[from..to][i - from] == base[from..to][i - from];
      }
    } else {
      var d :| 0 <= d < to - from && staged[from..to][d] != base[from..to][d];
      UncoveredInGap(ordered, from, to, n, from + d);
      assert staged[from + d] != base[from + d];
    }
  }

  lemma UncoveredInGap(ordered: seq<Range>, from: nat, to: nat, n: nat, i: nat)
    requires n <= |ordered| && SortedByStart(ordered) && from <= i < to
    requires forall k | 0 <= k < n :: ordered[k].End() <= from
    requires n < |ordered| ==> to <= ordered[n].start
    ensures !Covered(ordered, i)
  {
    forall k | 0 <= k < |ordered| ensures !ordered[k].Contains(i) {
    }
  }

  // ----- the whole range check -----

  /** `ordered` is an arrangement of `ranges` sorted by start; `at` says where each came from. */
  ghost predicate Arranges(ordered: seq<Range>, ranges: seq<Range>, at: seq<nat>) {
    && |ordered| == |ranges| == |at| && SortedByStart(ordered) && Lists(at, |ranges|)
    && forall k | 0 <= k < |at| :: ordered[k] == ranges[at[k]]
  }

  lemma ArrangedCovers(ordered: seq<Range>, ranges: seq<Range>, at: seq<nat>, i: int)
    requires Arranges(ordered, ranges, at)
    ensures Covered(ordered, i) <==> Covered(ranges, i)
  {
    if k :| 0 <= k < |ranges| && ranges[k].Contains(i) {
      assert k in at;
      var j :| 0 <= j < |at| && at[j] == k;
      assert ordered[j].Contains(i);
    }
    if j :| 0 <= j < |ordered| && ordered[j].Contains(i) {
      assert ranges[at[j]].Contains(i);
    }
  }

  lemma ArrangedDisjoint(ordered: seq<Range>, ranges: seq<Range>, at: seq<nat>)
    requires Arranges(ordered, ranges, at) && PairwiseDisjoint(ranges)
    ensures PairwiseDisjoint(ordered)
  {
    forall j, k | 0 <= j < k < |ordered| ensures !ordered[j].Overlaps(ordered[k]) {
      var a, b := at[j], at[k];
      assert if a < b then !ranges[a].Overlaps(ranges[b]) else !ranges[b].Overlaps(ranges[a]);
    }
  }

  /** No arrangement of a sliceable list is reversed anywhere. */
  lemma SliceableIsNeverReversed(ordered: seq<Range>, ranges: seq<Range>, at: seq<nat>, n: nat)
    requires Arranges(ordered, ranges, at) && PairwiseDisjoint(ranges) && Sliceable(ranges)
    ensures !Reversed(ordered, n)
  {
    if 1 <= n < |ordered| {
      ArrangedDisjoint(ordered, ranges, at);
      ReversedExactlyWhen(ordered, n);
      assert ordered[n] == ranges[at[n]] && ordered[n - 1] == ranges[at[n - 1]];
    }
  }

  method Disjoint(ranges: seq<Range>) returns (disjoint: bool)
    ensures disjoint == PairwiseDisjoint(ranges)
  {
    for j := 0 to |ranges|
      invariant forall a, b | 0 <= a < j && a < b < |ranges| :: !ranges[a].Overlaps(ranges[b])
    {
      for k := j + 1 to |ranges|
        invariant forall b | j < b < k :: !ranges[j].Overlaps(ranges[b])
      {
        if ranges[j].Overlaps(ranges[k]) {
          return false;
        }
      }
    }
    return true;
  }

  /** `latest` left every declared range as it was. */
  ghost predicate Untouched(ranges: seq<Range>, base: Bytes, latest: Bytes)
    requires |base| == |latest|
  {
    forall i | 0 <= i < |base| && Covered(ranges, i) :: latest[i] == base[i]
  }

  method LatestUntouched(ranges: seq<Range>, base: Bytes, latest: Bytes) returns (same: bool)
    requires |base| == |latest| && Fit(ranges, |base|)
    ensures same == Untouched(ranges, base, latest)
  {
    for k := 0 to |ranges|
      invariant forall j, i | 0 <= j < k && ranges[j].Contains(i) :: latest[i] == base[i]
    {
      var range := ranges[k];
      SliceDecides(base, latest, range);
      if latest[range.start..range.End()] != base[range.start..range.End()] {
        var i :| range.Contains(i) && latest[i] != base[i];
        assert Covered(ranges, i);
        return false;
      }
    }
    return true;
  }

  lemma SliceDecides(base: Bytes, latest: Bytes, range: Range)
    requires range.End() <= |base| == |latest|
    ensures latest[range.start..range.End()] == base[range.start..range.End()]
            <==> forall i | range.start <= i < range.End() :: latest[i] == base[i]
  {
    var a, b := latest[range.start..range.End()], base[range.start..range.End()];
    if a == b {
      forall i | range.start <= i < range.End() ensures latest[i] == base[i] {
        assert a[i - range.start] == b[i - range.start];
      }
    }
  }

  /** The check as the source makes it, on whatever arrangement its sort produces: it accepts exactly
      what the declarative form accepts, unless a range is reversed. */
  method RangesValid(ranges: seq<Range>, ordered: seq<Range>, ghost at: seq<nat>, base: Bytes, latest: Bytes,
                     staged: Bytes)
    returns (check: Check)
    requires Arranges(ordered, ranges, at)
    ensures check == Accept <==> OverlayValid(ranges, base, latest, staged) && forall m: nat :: !Reversed(ordered, m)
    ensures check == Reject ==> !OverlayValid(ranges, base, latest, staged)
    ensures check == Panic ==> exists m: nat :: Reversed(ordered, m)
    ensures Sliceable(ranges) ==> check != Panic && (check == Accept <==> OverlayValid(ranges, base, latest, staged))
  {
    if |latest| != |base| || |staged| != |base| {
      return Reject;
    }
    var disjoint := Disjoint(ranges);
    if !disjoint || !Fit(ranges, |base|) {
      return Reject;
    }
    ArrangedFits(ordered, ranges, at, |base|);
    ArrangedValid(ordered, ranges, at, base, latest, staged);
    WalkMeans(ordered, base, staged);
    check := CheckGaps(ordered, base, staged);
    if check == Accept {
      var same := LatestUntouched(ranges, base, latest);
      check := if same then Accept else Reject;
    }
  }

  lemma ArrangedFits(ordered: seq<Range>, ranges: seq<Range>, at: seq<nat>, size: nat)
    requires Arranges(ordered, ranges, at) && Fit(ranges, size)
    ensures Fit(ordered, size)
  {
  }

  /** The declarative form, taken apart along the walk. */
  lemma ArrangedValid(ordered: seq<Range>, ranges: seq<Range>, at: seq<nat>, base: Bytes, latest: Bytes, staged: Bytes)
    requires Arranges(ordered, ranges, at) && |latest| == |base| == |staged| && PairwiseDisjoint(ranges)
             && Fit(ranges, |base|)
    ensures OverlayValid(ranges, base, latest, staged)
            <==> SameOutside(ordered, base, staged, |base|) && Untouched(ranges, base, latest)
    ensures Sliceable(ranges) ==> forall m: nat :: !Reversed(ordered, m)
  {
    forall i ensures Covered(ordered, i) <==> Covered(ranges, i) {
      ArrangedCovers(ordered, ranges, at, i);
    }
    if Sliceable(ranges) {
      forall m: nat ensures !Reversed(ordered, m) {
        SliceableIsNeverReversed(ordered, ranges, at, m);
      }
    }
  }

  /** An empty range that shares its start with a non-empty one passes the overlap test, yet
      the walk faults on it, even over a block nobody changed. */
  lemma EmptyRangeDefeatsTheWalk(base: Bytes)
    requires 8 <= |base|
    ensures var ranges := [Range(5, 3), Range(5, 0)];
            && PairwiseDisjoint(ranges) && SortedByStart(ranges) && Fit(ranges, |base|) && !Sliceable(ranges)
            && OverlayValid(ranges, base, base, base) && WalkFrom(ranges, base, base, 0, 0) == Panic
  {
    var ranges := [Range(5, 3), Range(5, 0)];
    assert !ranges[0].Overlaps(ranges[1]);
    assert ranges[0].End() == 8 && ranges[1].start == 5;
    assert WalkFrom(ranges, base, base, 1, 8) == Panic;
  }

  // ----- exactly which lists can fault -----

  /** By start, and empty ranges after the others. */
  function Rank(ranges: seq<Range>): (rank: seq<int>)
    ensures |rank| == |ranges|
  {
    seq(|ranges|, i requires 0 <= i < |ranges| => 2 * ranges[i].start + if ranges[i].len == 0 then 1 else 0)
  }

  function Take(ranges: seq<Range>, at: seq<nat>): (taken: seq<Range>)
    requires Within(at, |ranges|)
    ensures |taken| == |at| && forall k | 0 <= k < |at| :: taken[k] == ranges[at[k]]
  {
    seq(|at|, k requires 0 <= k < |at| => ranges[at[k]])
  }

  /** Between a non-empty range and a later empty one with its start, some neighbours are reversed. */
  lemma {:induction false} ReversedBetween(ordered: seq<Range>, j: nat, k: nat) returns (n: nat)
    requires SortedByStart(ordered) && j < k < |ordered| && ordered[j].start == ordered[k].start
    requires ordered[j].len > 0 && ordered[k].len == 0
    ensures Reversed(ordered, n)
    decreases k - j
  {
    if ordered[k - 1].len > 0 {
      n := k;
    } else {
      n := ReversedBetween(ordered, j, k - 1);
    }
  }

  /** A list that is not sliceable has an arrangement with reversed neighbours. */
  lemma UnsliceableReverses(ranges: seq<Range>) returns (ordered: seq<Range>, at: seq<nat>, n: nat)
    requires !Sliceable(ranges)
    ensures Arranges(ordered, ranges, at) && Reversed(ordered, n)
  {
    var rank := Rank(ranges);
    at := OrderByRank(rank, |ranges|);
    ListsLength(at, |ranges|);
    ordered := Take(ranges, at);
    forall j, k | 0 <= j < k < |ordered| ensures ordered[j].start <= ordered[k].start {
      assert rank[at[j]] <= rank[at[k]];
    }
    var e, f :| 0 <= e < |ranges| && 0 <= f < |ranges| && ranges[e].start == ranges[f].start
      && ranges[e].len == 0 && ranges[f].len > 0;
    var k := Position(at, |ranges|, e);
    var j := Position(at, |ranges|, f);
    assert rank[f] < rank[e];
    n := ReversedBetween(ordered, j, k);
  }

  /** On this arrangement the walk faults over a block nobody changed. */
  ghost predicate Faults(ranges: seq<Range>, base: Bytes, ordered: seq<Range>, at: seq<nat>) {
    Arranges(ordered, ranges, at) && Fit(ordered, |base|) && WalkFrom(ordered, base, base, 0, 0) == Panic
  }

  /** Ranges that pass the overlap test and fit the block can make the walk fault, over a block nobody
      changed and with some order of equal starts, if and only if they are not sliceable. */
  lemma FaultsExactlyWhen(ranges: seq<Range>, base: Bytes)
    requires PairwiseDisjoint(ranges) && Fit(ranges, |base|)
    ensures (exists ordered, at :: Faults(ranges, base, ordered, at)) <==> !Sliceable(ranges)
  {
    if ordered, at :| Faults(ranges, base, ordered, at) {
      WalkMeans(ordered, base, base);
      var m: nat :| Reversed(ordered, m);
      if Sliceable(ranges) {
        SliceableIsNeverReversed(ordered, ranges, at, m);
      }
    }
    if !Sliceable(ranges) {
      var ordered, at, n := UnsliceableReverses(ranges);
      ArrangedFits(ordered, ranges, at, |base|);
      WalkMeans(ordered, base, base);
      assert Faults(ranges, base, ordered, at);
    }
  }
}
