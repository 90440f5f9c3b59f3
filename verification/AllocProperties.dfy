/** What the bitmap model promises: when its two-pass search is complete, how its queries
    agree with one another, and that claiming and releasing runs conserves bits. */
module AllocProperties {
  import opened AllocBitmap
  import opened Wrappers

  // ----- completeness of the wrap-around search -----

  /** What a wrap-around search should find: the least run at or after `start`, else the
      least run anywhere. */
  ghost function IdealRun(bits: seq<bool>, count: u32, len: u32, start: u32): Option<nat> {
    var after := FirstRun(bits, start, count, len);
    if after.Some? then after else FirstRun(bits, 0, count, len)
  }

  /** The second pass can see every run that starts before `start`. */
  predicate SecondPassReaches(count: u32, len: u32, start: u32) {
    len > count || count < U32_MAX || start + len <= U32_MAX
  }

  lemma SearchIsComplete(bits: seq<bool>, count: u32, len: u32, start: u32)
    requires 1 <= len && SecondPassReaches(count, len, start)
    ensures FindRunFrom(bits, count, len, start) == IdealRun(bits, count, len, start)
  {
    var after := FirstRun(bits, start, count, len);
    if len <= count && after.None? {
      var ideal := FirstRun(bits, 0, count, len);
      if ideal.Some? {
        assert ideal.value < start;
      }
    }
  }

  /** Bits that are free exactly on the last `len` positions below `U32_MAX`. */
  ghost function LastRunOnly(len: u32): seq<bool> {
    seq(0x1_0000_0000, i => !(U32_MAX - len <= i < U32_MAX))
  }

  /** When the only free run ends at `U32_MAX`, the second pass stops one bit short of it. */
  lemma SearchMissesLastRun(bits: seq<bool>, len: u32, start: u32)
    requires 1 <= len && start + len > U32_MAX
    requires bits == LastRunOnly(len)
    ensures FindRunFrom(bits, U32_MAX, len, start) == None
    ensures IdealRun(bits, U32_MAX, len, start) == Some(U32_MAX - len)
  {
    forall p: nat | FreeRun(bits, p, len) ensures p == U32_MAX - len {
      assert !Allocated(bits, p) && !Allocated(bits, p + len - 1);
    }
    assert FreeRun(bits, U32_MAX - len, len);
  }

  ghost predicate FindsIdealRun(bitmap: seq<bv8>, count: u32, len: u32, start: u32) {
    FindRunFrom(Bits(bitmap), count, len, start) == IdealRun(Bits(bitmap), count, len, start)
  }

  /** The saturating second-pass end loses a run for exactly these arguments: the search is
      complete on every bitmap if and only if `SecondPassReaches`. */
  lemma SearchIsCompleteExactlyWhen(count: u32, len: u32, start: u32)
    requires 1 <= len
    ensures SecondPassReaches(count, len, start) <==> forall bitmap :: FindsIdealRun(bitmap, count, len, start)
  {
    if SecondPassReaches(count, len, start) {
      forall bitmap ensures FindsIdealRun(bitmap, count, len, start) {
        SearchIsComplete(Bits(bitmap), count, len, start);
      }
    } else {
      BitsOfPack(LastRunOnly(len));
      SearchMissesLastRun(LastRunOnly(len), len, start);
      assert !FindsIdealRun(Pack(LastRunOnly(len)), count, len, start);
    }
  }

  // ----- the queries agree -----

  lemma {:induction false} RunEndingAtIsFree(bits: seq<bool>, i: nat)
    ensures RunEndingAt(bits, i) <= i && FreeRun(bits, i - RunEndingAt(bits, i), RunEndingAt(bits, i))
  {
    if i > 0 {
      RunEndingAtIsFree(bits, i - 1);
    }
  }

  lemma {:induction false} RunEndingAtIsLongest(bits: seq<bool>, at: nat, len: nat)
    requires FreeRun(bits, at, len)
    ensures len <= RunEndingAt(bits, at + len)
  {
    if len > 0 {
      RunEndingAtIsLongest(bits, at, len - 1);
      assert !Allocated(bits, at + len - 1);
    }
  }

  lemma {:induction false} LargestRunIsFree(bits: seq<bool>, count: nat) returns (at: nat)
    ensures at + LargestRun(bits, count) <= count && FreeRun(bits, at, LargestRun(bits, count))
  {
    if count == 0 {
      at := 0;
    } else {
      at := LargestRunIsFree(bits, count - 1);
      RunEndingAtIsFree(bits, count);
      if LargestRun(bits, count) == RunEndingAt(bits, count) {
        at := count - RunEndingAt(bits, count);
      }
    }
  }

  lemma {:induction false} LargestRunIsMaximal(bits: seq<bool>, count: nat, at: nat, len: nat)
    requires at + len <= count && FreeRun(bits, at, len)
    ensures len <= LargestRun(bits, count)
  {
    if at + len == count {
      RunEndingAtIsLongest(bits, at, len);
    } else {
      LargestRunIsMaximal(bits, count - 1, at, len);
    }
  }

  /** A run of `len` is found exactly when `len` does not exceed the largest run. */
  lemma FoundExactlyWhenItFits(bits: seq<bool>, count: u32, len: u32, start: u32)
    requires 1 <= len && SecondPassReaches(count, len, start)
    ensures FindRunFrom(bits, count, len, start).Some? <==> len <= LargestRun(bits, count)
  {
    SearchIsComplete(bits, count, len, start);
    var r := IdealRun(bits, count, len, start);
    if r.Some? {
      LargestRunIsMaximal(bits, count, r.value, len);
    }
    if len <= LargestRun(bits, count) {
      var at := LargestRunIsFree(bits, count);
      assert FreeRun(bits, at, len);
    }
  }

  /** Searching for a run of one bit is searching for a free bit. */
  lemma RunOfOneIsFreeBit(bits: seq<bool>, count: u32, start: u32)
    requires SecondPassReaches(count, 1, start)
    ensures FindRunFrom(bits, count, 1, start) == FindFreeFrom(bits, count, start)
  {
  }

  /** A run of no bits is found at the start, whatever is asked. */
  lemma EmptyRunIsFound(bits: seq<bool>, count: u32, start: u32)
    ensures FindRunFrom(bits, count, 0, start) == Some(0)
  {
  }

  ghost function FreeAt(bits: seq<bool>, count: nat): set<nat> { set i: nat | i < count && !Allocated(bits, i) }

  /** The number of free bits is the size of the set of free bits. */
  lemma {:induction false} FreeBitsIsSize(bits: seq<bool>, count: nat)
    ensures FreeBits(bits, count) == |FreeAt(bits, count)|
  {
    if count == 0 {
      assert FreeAt(bits, 0) == {};
    } else {
      FreeBitsIsSize(bits, count - 1);
      var before := FreeAt(bits, count - 1);
      assert FreeAt(bits, count) == if Allocated(bits, count - 1) then before else before + {count - 1};
    }
  }

  /** A free bit is found if and only if there is one; it is the least from the start on, or if there is
      none there, the least of all. */
  lemma FreeBitFound(bits: seq<bool>, count: u32, start: u32)
    ensures match FindFreeFrom(bits, count, start)
            case None => FreeAt(bits, count) == {}
            case Some(at) =>
              && at in FreeAt(bits, count)
              && (forall i | i in FreeAt(bits, count) && start <= i :: start <= at <= i)
              && (at < start ==> forall i | i in FreeAt(bits, count) :: at <= i)
  {
    forall i: nat ensures FreeRun(bits, i, 1) <==> !Allocated(bits, i) {
    }
  }

  // ----- claiming and releasing -----

  ghost function ClaimRun(bitmap: seq<bv8>, at: nat, len: nat): (claimed: seq<bv8>)
    ensures |claimed| == |bitmap|
    ensures forall j: nat :: Get(claimed, j) == (Get(bitmap, j) || at <= j < at + len)
  {
    if len == 0 then bitmap
    else
      var before := ClaimRun(bitmap, at, len - 1);
      GetsOfSet(before, at + len - 1);
      SetBit(before, at + len - 1)
  }

  ghost function ReleaseRun(bitmap: seq<bv8>, at: nat, len: nat): (released: seq<bv8>)
    ensures |released| == |bitmap|
    ensures forall j: nat | j < 8 * |bitmap| :: Get(released, j) == (Get(bitmap, j) && !(at <= j < at + len))
  {
    if len == 0 then bitmap
    else
      var before := ReleaseRun(bitmap, at, len - 1);
      GetsOfClear(before, at + len - 1);
      ClearBit(before, at + len - 1)
  }

  lemma GetsOfSet(bitmap: seq<bv8>, i: nat)
    ensures |SetBit(bitmap, i)| == |bitmap|
    ensures forall j: nat :: Get(SetBit(bitmap, i), j) == (Get(bitmap, j) || j == i)
  {
    forall j: nat ensures |SetBit(bitmap, i)| == |bitmap| && Get(SetBit(bitmap, i), j) == (Get(bitmap, j) || j == i) {
      GetOfSet(bitmap, i, j);
    }
  }

  lemma GetsOfClear(bitmap: seq<bv8>, i: nat)
    ensures |ClearBit(bitmap, i)| == |bitmap|
    ensures forall j: nat | j < 8 * |bitmap| :: Get(ClearBit(bitmap, i), j) == (Get(bitmap, j) && j != i)
  {
    forall j: nat | j < 8 * |bitmap| ensures Get(ClearBit(bitmap, i), j) == (Get(bitmap, j) && j != i) {
      GetOfClear(bitmap, i, j);
    }
  }

  /** Bitmaps that differ exactly by a claimed run differ by its length in free bits. */
  lemma {:induction false} FreeBitsOfClaim(before: seq<bool>, after: seq<bool>, at: nat, len: nat, count: nat)
    requires FreeRun(before, at, len)
    requires forall j: nat :: Allocated(after, j) == (Allocated(before, j) || at <= j < at + len)
    ensures FreeBits(after, count)
            == FreeBits(before, count) - if count <= at then 0 else Min(count, at + len) - at
  {
    if count > 0 {
      FreeBitsOfClaim(before, after, at, len, count - 1);
      assert Allocated(after, count - 1) == (Allocated(before, count - 1) || at <= count - 1 < at + len);
    }
  }

  lemma SameClaim(before: seq<bv8>, after: seq<bv8>, at: nat, len: nat)
    requires forall j: nat :: Get(after, j) == (Get(before, j) || at <= j < at + len)
    ensures forall j: nat :: Allocated(Bits(after), j) == (Allocated(Bits(before), j) || at <= j < at + len)
  {
    forall j: nat ensures Allocated(Bits(after), j) == (Allocated(Bits(before), j) || at <= j < at + len) {
      GetIsAllocated(before, j);
      GetIsAllocated(after, j);
    }
  }

  /** Claiming a found run uses exactly `len` free bits and touches no other bit; releasing
      it restores the bitmap byte for byte. */
  lemma ClaimedRunIsConserved(bitmap: seq<bv8>, count: u32, len: u32, start: u32)
    requires 1 <= len && FindRunFrom(Bits(bitmap), count, len, start).Some?
    ensures var at := FindRunFrom(Bits(bitmap), count, len, start).value;
            var claimed := ClaimRun(bitmap, at, len);
            && FreeBits(Bits(claimed), count) == FreeBits(Bits(bitmap), count) - len
            && (forall j: nat :: Get(claimed, j) == (Get(bitmap, j) || at <= j < at + len))
            && ReleaseRun(claimed, at, len) == bitmap
  {
    var at := FindRunFrom(Bits(bitmap), count, len, start).value;
    var claimed := ClaimRun(bitmap, at, len);
    var released := ReleaseRun(claimed, at, len);
    forall j: nat ensures Get(released, j) == Get(bitmap, j) {
      GetIsAllocated(bitmap, j);
    }
    SameClaim(bitmap, claimed, at, len);
    FreeBitsOfClaim(Bits(bitmap), Bits(claimed), at, len, count);
    SameBits(released, bitmap);
  }

  // ----- allocating until full -----

  lemma FoundFreeBit(bits: seq<bool>, count: u32, start: u32)
    ensures var r := FindFreeFrom(bits, count, start);
            && (r.Some? ==> r.value < count && !Allocated(bits, r.value))
            && (r.None? ==> forall i: nat | i < count :: Allocated(bits, i))
  {
    var r := FindFreeFrom(bits, count, start);
    if r.None? {
      forall i: nat | i < count ensures Allocated(bits, i) {
        assert !FreeRun(bits, i, 1);
      }
    }
  }

  lemma SetUsesOneFreeBit(bitmap: seq<bv8>, i: nat, count: nat)
    requires i < count && !Get(bitmap, i)
    ensures FreeBits(Bits(SetBit(bitmap, i)), count) == FreeBits(Bits(bitmap), count) - 1
  {
    forall j: nat ensures Get(SetBit(bitmap, i), j) == (Get(bitmap, j) || j == i) {
      GetOfSet(bitmap, i, j);
    }
    GetIsAllocated(bitmap, i);
    SameClaim(bitmap, SetBit(bitmap, i), i, 1);
    FreeBitsOfClaim(Bits(bitmap), Bits(SetBit(bitmap, i)), i, 1, count);
  }

  /** The bits handed out by repeating find-free-then-set until nothing is found, with any
      search start for each call. */
  ghost function Drain(bitmap: seq<bv8>, count: u32, starts: nat -> u32, calls: nat): seq<nat>
    decreases FreeBits(Bits(bitmap), count)
  {
    FoundFreeBit(Bits(bitmap), count, starts(calls));
    match FindFreeFrom(Bits(bitmap), count, starts(calls))
    case None => []
    case Some(i) =>
      GetIsAllocated(bitmap, i);
      SetUsesOneFreeBit(bitmap, i, count);
      [i] + Drain(SetBit(bitmap, i), count, starts, calls + 1)
  }

  lemma {:induction false} NoFreeBits(bits: seq<bool>, count: nat)
    requires forall i: nat | i < count :: Allocated(bits, i)
    ensures FreeBits(bits, count) == 0
  {
    if count > 0 {
      NoFreeBits(bits, count - 1);
    }
  }

  /** Allocation hands out every free bit once and stops after exactly the free count. */
  lemma {:induction false} DrainHandsOutEveryFreeBitOnce(bitmap: seq<bv8>, count: u32, starts: nat -> u32, calls: nat)
    ensures var taken := Drain(bitmap, count, starts, calls);
            && |taken| == FreeBits(Bits(bitmap), count)
            && (forall i, j | 0 <= i < j < |taken| :: taken[i] != taken[j])
            && (forall b: nat :: b in taken <==> b < count && !Get(bitmap, b))
    decreases FreeBits(Bits(bitmap), count)
  {
    FoundFreeBit(Bits(bitmap), count, starts(calls));
    match FindFreeFrom(Bits(bitmap), count, starts(calls)) {
      case None =>
        NoFreeBits(Bits(bitmap), count);
        forall b: nat | b < count ensures Get(bitmap, b) {
          GetIsAllocated(bitmap, b);
        }
      case Some(i) =>
        GetIsAllocated(bitmap, i);
        SetUsesOneFreeBit(bitmap, i, count);
        DrainHandsOutEveryFreeBitOnce(SetBit(bitmap, i), count, starts, calls + 1);
        forall b: nat ensures Get(SetBit(bitmap, i), b) == (Get(bitmap, b) || b == i) {
          GetOfSet(bitmap, i, b);
        }
    }
  }
}
