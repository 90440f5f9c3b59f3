/** The word-at-a-time contiguous-run search of `crates/ffs-alloc/src/lib.rs`, proved to
    return what the bit-at-a-time model returns. */
module AllocRuns {
  import opened AllocBitmap
  import opened WordBits
  import opened Wrappers

  /** The source computes `idx + 8` in 32 bits; past this index that addition overflows. */
  const LAST_SAFE_BYTE := 0xFFFF_FFF8

  // ----- skipping positions where no run can start -----

  lemma {:induction false} NoRunStarts(bits: seq<bool>, lo: nat, hi: nat, limit: nat, n: nat)
    requires lo <= hi
    requires forall p: nat | lo <= p < hi :: !FreeRun(bits, p, n) || p + n > limit
    ensures FirstRun(bits, lo, limit, n) == FirstRun(bits, hi, limit, n)
    decreases hi - lo
  {
    if lo < hi {
      NoRunStarts(bits, lo + 1, hi, limit, n);
    }
  }

  /** An allocated stretch that begins less than `n` past `lo` rules out every start up to
      its end. */
  lemma SkipAllocated(bits: seq<bool>, lo: nat, from: nat, to: nat, limit: nat, n: nat)
    requires lo <= from < to && from < lo + n
    requires forall i: nat | from <= i < to :: Allocated(bits, i)
    ensures FirstRun(bits, lo, limit, n) == FirstRun(bits, to, limit, n)
    ensures forall p: nat | lo <= p < to :: !FreeRun(bits, p, n)
  {
    forall p: nat | lo <= p < to ensures !FreeRun(bits, p, n) {
      assert Allocated(bits, if p <= from then from else p);
    }
    NoRunStarts(bits, lo, to, limit, n);
  }

  // ----- the scan state -----

  /** The pending run: `len` free bits from `begin` up to the scan position. */
  datatype Pending = Pending(begin: u32, len: u32)

  /** At position `idx`, no run of `n` bits starts before the pending run, which is too
      short so far. */
  ghost predicate Scanning(bits: seq<bool>, start: nat, limit: nat, n: nat, idx: nat, run: Pending) {
    && start <= run.begin && run.begin + run.len == idx
    && run.len < n
    && FreeRun(bits, run.begin, run.len)
    && FirstRun(bits, start, limit, n) == FirstRun(bits, run.begin, limit, n)
  }

  lemma PendingRunCompletes(bits: seq<bool>, start: nat, limit: nat, n: nat, idx: nat, run: Pending, more: nat)
    requires Scanning(bits, start, limit, n, idx, run)
    requires FreeRun(bits, idx, more) && idx + more <= limit && n <= run.len + more
    ensures FirstRun(bits, start, limit, n) == Some(run.begin)
  {
    assert FreeRun(bits, run.begin, n);
  }

  lemma PendingRunBreaks(bits: seq<bool>, start: nat, limit: nat, n: nat, idx: nat, run: Pending, from: nat, to: nat)
    requires Scanning(bits, start, limit, n, idx, run)
    requires idx <= from < to && from < run.begin + n
    requires forall i: nat | from <= i < to :: Allocated(bits, i)
    requires to <= U32_MAX && 0 < n
    ensures Scanning(bits, start, limit, n, to, Pending(to, 0))
    ensures forall p: nat | run.begin <= p < to :: !FreeRun(bits, p, n)
  {
    SkipAllocated(bits, run.begin, from, to, limit, n);
  }

  /** One bit: either the pending run ends, or it grows and may be complete. */
  method StepBit(ghost bits: seq<bool>, isSet: bool, ghost start: u32, ghost limit: u32, n: u32, idx: u32, run: Pending)
    returns (done: bool, next: Pending)
    requires 0 < n && idx < limit && isSet == Allocated(bits, idx)
    requires Scanning(bits, start, limit, n, idx, run)
    ensures done ==> FirstRun(bits, start, limit, n) == Some(next.begin) && next.begin + n <= idx + 1
    ensures !done ==> Scanning(bits, start, limit, n, idx + 1, next)
  {
    if isSet {
      PendingRunBreaks(bits, start, limit, n, idx, run, idx, idx + 1);
      return false, Pending(idx + 1, 0);
    }
    next := Pending(run.begin, run.len + 1);
    if next.len >= n {
      PendingRunCompletes(bits, start, limit, n, idx, run, 1);
      return true, next;
    }
    return false, next;
  }

  // ----- runs inside one word -----

  /** Which bits of `free` start a stretch of at least `span` set bits within the word. */
  ghost predicate StartsStretch(free: Word, span: nat, k: nat) {
    k + span <= 64 && forall j | k <= j < k + span :: free[j]
  }

  /** Doubling shifts: after each round a bit survives when `span` set bits start there. */
  method ZeroRunStartsAtLeast(free: Word, n: u32) returns (starts: Word)
    requires 1 <= n <= 64
    ensures forall k: nat | k < 64 :: starts[k] == StartsStretch(free, n, k)
  {
    starts := free;
    var span := 1;
    while span < n
      invariant 1 <= span <= n
      invariant forall k: nat | k < 64 :: starts[k] == StartsStretch(free, span, k)
    {
      var step := Min(span, n - span);
      var next := And(starts, ShiftRight(starts, step));
      forall k: nat | k < 64 ensures next[k] == StartsStretch(free, span + step, k) {
        StretchesJoin(free, span, step, k);
      }
      starts, span := next, span + step;
    }
  }

  lemma StretchesJoin(free: Word, span: nat, step: nat, k: nat)
    requires 1 <= step <= span && k < 64
    ensures StartsStretch(free, span + step, k)
            <==> StartsStretch(free, span, k) && k + step < 64 && StartsStretch(free, span, k + step)
  {
  }

  lemma StretchIsRun(bits: seq<bool>, base: nat, n: nat, k: nat)
    requires base + 64 <= |bits|
    ensures StartsStretch(Not(LoadWord(bits, base)), n, k) <==> k + n <= 64 && FreeRun(bits, base + k, n)
  {
    var free := Not(LoadWord(bits, base));
    if StartsStretch(free, n, k) {
      forall i: nat | base + k <= i < base + k + n ensures !Allocated(bits, i) {
        assert free[i - base];
      }
    }
    if k + n <= 64 && FreeRun(bits, base + k, n) {
      forall j | k <= j < k + n ensures free[j] {
        assert !Allocated(bits, base + j);
      }
    }
  }

  /** The lowest run of `n` free bits that lies inside the word, if any. */
  method FindInWord(bits: seq<bool>, base: u32, n: u32) returns (at: Option<u32>)
    requires 0 < n && base + 64 <= |bits| && base + 64 <= U32_MAX
    ensures at.Some? ==> base <= at.value && at.value + n <= base + 64 && FreeRun(bits, at.value, n)
    ensures at.Some? ==> forall p: nat | base <= p < at.value :: !FreeRun(bits, p, n)
    ensures at.None? ==> forall p: nat | base <= p && p + n <= base + 64 :: !FreeRun(bits, p, n)
  {
    if n > 64 {
      return None;
    }
    var starts := ZeroRunStartsAtLeast(Not(LoadWord(bits, base)), n);
    forall p: nat | base <= p < base + 64
      ensures starts[p - base] == (p + n <= base + 64 && FreeRun(bits, p, n))
    {
      StretchIsRun(bits, base, n, p - base);
    }
    if AllClear(starts) {
      return None;
    }
    var first := TrailingZeros(starts);
    assert starts[base + first - base];
    return Some(base + first);
  }

  /** With no run inside the word, none starts between its lowest and highest set bit. */
  lemma NoInnerRun(bits: seq<bool>, base: nat, limit: nat, n: nat, lowest: nat, highest: nat)
    requires lowest <= highest < 64 && Allocated(bits, base + highest)
    requires forall p: nat | base <= p && p + n <= base + 64 :: !FreeRun(bits, p, n)
    ensures FirstRun(bits, base + lowest + 1, limit, n) == FirstRun(bits, base + highest + 1, limit, n)
  {
    forall p: nat | base + lowest + 1 <= p < base + highest + 1 ensures !FreeRun(bits, p, n) {
      if p + n > base + 64 {
        assert p <= base + highest < p + n;
      }
    }
    NoRunStarts(bits, base + lowest + 1, base + highest + 1, limit, n);
  }

  lemma ClearBitsAreFree(bits: seq<bool>, base: nat, from: nat, to: nat)
    requires base + 64 <= |bits| && from <= to <= 64
    requires forall k | from <= k < to :: !LoadWord(bits, base)[k]
    ensures FreeRun(bits, base + from, to - from)
  {
    forall i: nat | base + from <= i < base + to ensures !Allocated(bits, i) {
      assert !LoadWord(bits, base)[i - base];
    }
  }

  /** One word that has a free bit. */
  method StepWord(bits: seq<bool>, ghost start: u32, ghost limit: u32, n: u32, base: u32, run: Pending)
    returns (found: Option<u32>, next: Pending)
    requires 0 < n && base + 64 <= |bits| && base + 64 <= limit
    requires Scanning(bits, start, limit, n, base, run)
    ensures found.Some? ==> FirstRun(bits, start, limit, n) == found && found.value + n <= base + 64
    ensures found.None? ==> Scanning(bits, start, limit, n, base + 64, next)
  {
    var word := LoadWord(bits, base);
    if AllClear(word) {
      found, next := StepClearWord(bits, start, limit, n, base, run);
      return;
    }
    var prefix := TrailingZeros(word);
    if prefix > 0 && SaturatingAdd(run.len, prefix) >= n {
      ClearBitsAreFree(bits, base, 0, prefix);
      PendingRunCompletes(bits, start, limit, n, base, run, prefix);
      return Some(run.begin), run;
    }
    PrefixBreaks(bits, start, limit, n, base, run, prefix);
    found, next := StepPastPrefix(bits, start, limit, n, base, prefix);
  }

  /** The word's lowest set bit ends a pending run that its free bits do not complete. */
  lemma PrefixBreaks(bits: seq<bool>, start: u32, limit: u32, n: u32, base: u32, run: Pending, prefix: nat)
    requires 0 < n && base + 64 <= |bits| && base + 64 <= limit && Scanning(bits, start, limit, n, base, run)
    requires !AllClear(LoadWord(bits, base)) && prefix == TrailingZeros(LoadWord(bits, base)) && run.len + prefix < n
    ensures prefix < 64 && bits[base + prefix]
    ensures FirstRun(bits, start, limit, n) == FirstRun(bits, base + prefix + 1, limit, n)
    ensures forall p: nat | base <= p <= base + prefix :: !FreeRun(bits, p, n)
  {
    assert LoadWord(bits, base)[prefix];
    PendingRunBreaks(bits, start, limit, n, base, run, base + prefix, base + prefix + 1);
  }

  /** A free word makes the pending run longer by sixty-four, and perhaps long enough. */
  method StepClearWord(bits: seq<bool>, ghost start: u32, ghost limit: u32, n: u32, base: u32, run: Pending)
    returns (found: Option<u32>, next: Pending)
    requires 0 < n && base + 64 <= |bits| && base + 64 <= limit && AllClear(LoadWord(bits, base))
    requires Scanning(bits, start, limit, n, base, run)
    ensures found.Some? ==> FirstRun(bits, start, limit, n) == found && found.value + n <= base + 64
    ensures found.None? ==> Scanning(bits, start, limit, n, base + 64, next)
  {
    next := Pending(if run.len == 0 then base else run.begin, SaturatingAdd(run.len, 64));
    ClearBitsAreFree(bits, base, 0, 64);
    if next.len >= n {
      PendingRunCompletes(bits, start, limit, n, base, run, 64);
      return Some(next.begin), next;
    }
    return None, next;
  }

  /** The rest of a word after the set bit that ended the pending run. */
  method StepPastPrefix(bits: seq<bool>, ghost start: u32, ghost limit: u32, n: u32, base: u32, ghost prefix: nat)
    returns (found: Option<u32>, next: Pending)
    requires 0 < n && base + 64 <= |bits| && base + 64 <= limit
    requires prefix < 64 && bits[base + prefix] && start <= base
    requires FirstRun(bits, start, limit, n) == FirstRun(bits, base + prefix + 1, limit, n)
    requires forall p: nat | base <= p <= base + prefix :: !FreeRun(bits, p, n)
    ensures found.Some? ==> FirstRun(bits, start, limit, n) == found && found.value + n <= base + 64
    ensures found.None? ==> Scanning(bits, start, limit, n, base + 64, next)
  {
    found := FindInWord(bits, base, n);
    if found.Some? {
      return found, Pending(base, 0);
    }
    var suffix := LeadingZeros(LoadWord(bits, base));
    SuffixIsPending(bits, start, limit, n, base, prefix, suffix);
    next := if suffix > 0 then Pending(base + (64 - suffix), suffix) else Pending(base + 64, 0);
  }

  /** The free bits above the word's highest set bit are the new pending run. */
  lemma SuffixIsPending(bits: seq<bool>, start: u32, limit: u32, n: u32, base: u32, prefix: nat, suffix: nat)
    requires 0 < n && base + 64 <= |bits| && base + 64 <= limit
    requires prefix < 64 && bits[base + prefix] && start <= base
    requires suffix == LeadingZeros(LoadWord(bits, base))
    requires FirstRun(bits, start, limit, n) == FirstRun(bits, base + prefix + 1, limit, n)
    requires forall p: nat | base <= p && p + n <= base + 64 :: !FreeRun(bits, p, n)
    ensures suffix < 64 && Scanning(bits, start, limit, n, base + 64, Pending(base + 64 - suffix, suffix))
  {
    var word := LoadWord(bits, base);
    assert word[prefix];
    NoInnerRun(bits, base, limit, n, prefix, 63 - suffix);
    ClearBitsAreFree(bits, base, 64 - suffix, 64);
    assert FreeRun(bits, base + 64 - suffix, Min(n, suffix));
  }

  // ----- the linear search -----

  /** Where a stage of the search got to. */
  datatype Progress = Hit(at: u32) | At(idx: u32, run: Pending) | Overflows

  datatype Outcome = Done(r: Option<u32>) | Overflow

  ghost predicate StageResult(bits: seq<bool>, start: nat, limit: nat, n: nat, p: Progress) {
    match p
    case Hit(at) => FirstRun(bits, start, limit, n) == Some(at) && (at + n <= LAST_SAFE_BYTE || LAST_SAFE_BYTE < start)
    case At(idx, run) =>
      && Scanning(bits, start, limit, n, idx, run)
      && (idx <= limit || idx == start) && (idx <= LAST_SAFE_BYTE || LAST_SAFE_BYTE < start)
    case Overflows => start <= LAST_SAFE_BYTE < limit && FirstRun(bits, start, LAST_SAFE_BYTE, n) == None
  }

  /** Bit by bit to a byte boundary. */
  method RunsByLeadingBits(bits: seq<bool>, count: u32, n: u32, start: u32) returns (p: Progress)
    requires 0 < n
    ensures StageResult(bits, start, count, n, p)
    ensures p.At? ==> p.idx % 8 == 0 || p.idx >= count
  {
    var idx: u32, run := start, Pending(start, 0);
    while idx < count && idx % 8 != 0
      invariant StageResult(bits, start, count, n, At(idx, run))
    {
      var done, next := StepBit(bits, Allocated(bits, idx), start, count, n, idx, run);
      if done {
        return Hit(next.begin);
      }
      idx, run := idx + 1, next;
    }
    return At(idx, run);
  }

  /** Passing over allocated bits to a byte boundary. */
  lemma SkipFull(bits: seq<bool>, start: u32, count: u32, n: u32, idx: u32, run: Pending, to: u32)
    requires 0 < n && to % 8 == 0 && idx < to <= count && NoneFree(bits, idx, to)
    requires StageResult(bits, start, count, n, At(idx, run))
    ensures StageResult(bits, start, count, n, At(to, Pending(to, 0)))
  {
    PendingRunBreaks(bits, start, count, n, idx, run, idx, to);
  }

  /** One word, or four full words at once. */
  method StepWords(bits: seq<bool>, count: u32, n: u32, ghost start: u32, idx: u32, run: Pending) returns (p: Progress)
    requires 0 < n && idx % 8 == 0 && idx + 64 <= count && idx + 64 <= |bits|
    requires StageResult(bits, start, count, n, At(idx, run))
    ensures StageResult(bits, start, count, n, p) && !p.Overflows?
    ensures p.At? ==> idx < p.idx <= count && p.idx % 8 == 0
  {
    if idx + 256 <= count && idx + 256 <= |bits| && BlockFull(bits, idx) {
      BlockIsFull(bits, idx);
      SkipFull(bits, start, count, n, idx, run, idx + 256);
      return At(idx + 256, Pending(idx + 256, 0));
    }
    if AllSet(LoadWord(bits, idx)) {
      WordIsFull(bits, idx);
      SkipFull(bits, start, count, n, idx, run, idx + 64);
      return At(idx + 64, Pending(idx + 64, 0));
    }
    p := StepMixedWord(bits, count, n, start, idx, run);
  }

  method StepMixedWord(bits: seq<bool>, ghost count: u32, n: u32, ghost start: u32, idx: u32, run: Pending)
    returns (p: Progress)
    requires 0 < n && idx % 8 == 0 && idx + 64 <= count && idx + 64 <= |bits|
    requires StageResult(bits, start, count, n, At(idx, run))
    ensures StageResult(bits, start, count, n, p) && !p.Overflows?
    ensures p.At? ==> p.idx == idx + 64
  {
    var found, next := StepWord(bits, start, count, n, idx, run);
    if found.Some? {
      return Hit(found.value);
    }
    return At(idx + 64, next);
  }

  /** Word by word until the range or the slice runs out. */
  method RunsByWords(bits: seq<bool>, count: u32, n: u32, ghost start: u32, from: u32, pending: Pending)
    returns (p: Progress)
    requires 0 < n && from % 8 == 0
    requires StageResult(bits, start, count, n, At(from, pending))
    ensures StageResult(bits, start, count, n, p)
    ensures p.At? ==> p.idx % 8 == 0
  {
    p := At(from, pending);
    while SaturatingSub(count, p.idx) >= 64 && p.idx + 64 <= |bits|
      invariant p.At? && p.idx % 8 == 0 && StageResult(bits, start, count, n, p)
      decreases count - p.idx
    {
      p := StepWords(bits, count, n, start, p.idx, p.run);
      if p.Hit? {
        return;
      }
    }
  }

  /** The eight bits of a partly free byte. */
  method StepByte(bits: seq<bool>, ghost start: u32, ghost limit: u32, n: u32, base: u32, pending: Pending)
    returns (done: bool, run: Pending)
    requires 0 < n && base + 8 <= |bits| && base + 8 <= limit
    requires Scanning(bits, start, limit, n, base, pending)
    ensures done ==> FirstRun(bits, start, limit, n) == Some(run.begin) && run.begin + n <= base + 8
    ensures !done ==> Scanning(bits, start, limit, n, base + 8, run)
  {
    run := pending;
    for bit := 0 to 8
      invariant Scanning(bits, start, limit, n, base + bit, run)
    {
      var hit, next := StepBit(bits, bits[base + bit], start, limit, n, base + bit, run);
      run := next;
      if hit {
        return true, run;
      }
    }
    return false, run;
  }

  /** One whole byte inside the range; a missing byte counts as allocated. */
  method StepWholeByte(bits: seq<bool>, count: u32, n: u32, ghost start: u32, idx: u32, run: Pending)
    returns (p: Progress)
    requires 0 < n && |bits| % 8 == 0 && idx % 8 == 0 && idx + 8 <= count
    requires StageResult(bits, start, count, n, At(idx, run))
    ensures StageResult(bits, start, count, n, p) && !p.Overflows?
    ensures p.At? ==> p.idx == idx + 8
  {
    if idx >= |bits| || AllSet(LoadByte(bits, idx)) {
      ByteIsFull(bits, idx);
      SkipFull(bits, start, count, n, idx, run, idx + 8);
      return At(idx + 8, Pending(idx + 8, 0));
    }
    if AllClear(LoadByte(bits, idx)) {
      p := StepClearByte(bits, count, n, start, idx, run);
      return;
    }
    p := StepMixedByte(bits, count, n, start, idx, run);
  }

  /** A byte with both free and allocated bits is taken bit by bit. */
  method StepMixedByte(bits: seq<bool>, ghost count: u32, n: u32, ghost start: u32, idx: u32, run: Pending)
    returns (p: Progress)
    requires 0 < n && idx % 8 == 0 && idx + 8 <= count && idx + 8 <= |bits|
    requires StageResult(bits, start, count, n, At(idx, run))
    ensures StageResult(bits, start, count, n, p) && !p.Overflows?
    ensures p.At? ==> p.idx == idx + 8
  {
    var done, next := StepByte(bits, start, count, n, idx, run);
    return if done then Hit(next.begin) else At(idx + 8, next);
  }

  lemma ByteIsFull(bits: seq<bool>, idx: nat)
    requires idx >= |bits| || (idx + 8 <= |bits| && AllSet(LoadByte(bits, idx)))
    ensures NoneFree(bits, idx, idx + 8)
  {
    forall i: nat | idx <= i < idx + 8 ensures Allocated(bits, i) {
      assert idx < |bits| ==> LoadByte(bits, idx)[i - idx];
    }
  }

  /** A free byte makes the pending run longer by eight, and perhaps long enough. */
  method StepClearByte(bits: seq<bool>, ghost count: u32, n: u32, ghost start: u32, idx: u32, run: Pending)
    returns (p: Progress)
    requires 0 < n && idx % 8 == 0 && idx + 8 <= count && idx + 8 <= |bits| && AllClear(LoadByte(bits, idx))
    requires StageResult(bits, start, count, n, At(idx, run))
    ensures StageResult(bits, start, count, n, p) && !p.Overflows?
    ensures p.At? ==> p.idx == idx + 8
  {
    forall i: nat | idx <= i < idx + 8 ensures !Allocated(bits, i) {
      assert !LoadByte(bits, idx)[i - idx];
    }
    var next := Pending(if run.len == 0 then idx else run.begin, SaturatingAdd(run.len, 8));
    if next.len >= n {
      PendingRunCompletes(bits, start, count, n, idx, run, 8);
      return Hit(next.begin);
    }
    return At(idx + 8, next);
  }

  /** Whole bytes where they fit, single bits at the end. The test `idx + 8 <= count` is
      made in 32 bits. */
  method RunsByBytes(bits: seq<bool>, count: u32, n: u32, ghost start: u32, from: u32, pending: Pending)
    returns (p: Progress)
    requires 0 < n && |bits| % 8 == 0
    requires StageResult(bits, start, count, n, At(from, pending))
    ensures StageResult(bits, start, count, n, p)
    ensures p.At? ==> p.idx >= count
  {
    p := At(from, pending);
    while p.idx < count
      invariant p.At? && StageResult(bits, start, count, n, p)
      decreases count - p.idx
    {
      if p.idx % 8 == 0 && p.idx + 8 > U32_MAX {
        NothingBelow(bits, start, count, n, p.idx, p.run);
        return Overflows;
      }
      if p.idx % 8 == 0 && p.idx + 8 <= count {
        p := StepWholeByte(bits, count, n, start, p.idx, p.run);
        if p.Hit? {
          return;
        }
      } else {
        var done, next := StepBit(bits, Allocated(bits, p.idx), start, count, n, p.idx, p.run);
        if done {
          return Hit(next.begin);
        }
        p := At(p.idx + 1, next);
      }
    }
  }

  /** While scanning, no run lies wholly below the scan position. */
  lemma NothingBelow(bits: seq<bool>, start: nat, limit: nat, n: nat, idx: nat, run: Pending)
    requires Scanning(bits, start, limit, n, idx, run) && idx <= limit
    ensures FirstRun(bits, start, idx, n) == None
  {
    var r := FirstRun(bits, start, idx, n);
    assert r.Some? ==> FirstRun(bits, start, limit, n).Some?;
  }

  ghost function LinearOutcome(bits: seq<bool>, count: u32, n: u32, start: u32): Outcome {
    if start <= LAST_SAFE_BYTE < count && FirstRun(bits, start, LAST_SAFE_BYTE, n).None? then Overflow
    else Done(FirstRun(bits, start, count, n))
  }

  method FindRunLinear(bits: seq<bool>, count: u32, n: u32, start: u32) returns (r: Outcome)
    requires 0 < n && |bits| % 8 == 0
    ensures r == LinearOutcome(bits, count, n, start)
  {
    var p := RunsByLeadingBits(bits, count, n, start);
    if p.At? && p.idx < count {
      p := RunsByWords(bits, count, n, start, p.idx, p.run);
    }
    if p.At? {
      p := RunsByBytes(bits, count, n, start, p.idx, p.run);
    }
    ProgressDecides(bits, count, n, start, p);
    return match p
      case Hit(at) => Done(Some(at))
      case At(_, _) => Done(None)
      case Overflows => Overflow;
  }

  lemma ProgressDecides(bits: seq<bool>, count: u32, n: u32, start: u32, p: Progress)
    requires 0 < n && StageResult(bits, start, count, n, p) && (p.At? ==> p.idx >= count)
    ensures match p
            case Hit(at) => LinearOutcome(bits, count, n, start) == Done(Some(at))
            case At(_, _) => LinearOutcome(bits, count, n, start) == Done(None)
            case Overflows => LinearOutcome(bits, count, n, start) == Overflow
  {
    match p
    case Hit(at) =>
      assert FreeRun(bits, at, n);
    case At(idx, run) =>
      if idx <= count {
        NothingBelow(bits, start, count, n, idx, run);
      }
    case Overflows =>
  }

  ghost function FastOutcome(bits: seq<bool>, count: u32, n: u32, start: u32): Outcome {
    if n == 0 then Done(Some(0))
    else if n > count then Done(None)
    else
      var after := LinearOutcome(bits, count, n, start);
      if after == Done(None) then LinearOutcome(bits, SecondPassEnd(count, n, start), n, 0) else after
  }

  method FindContiguousFast(bitmap: seq<bv8>, count: u32, n: u32, start: u32) returns (r: Outcome)
    ensures r == FastOutcome(Bits(bitmap), count, n, start)
  {
    if n == 0 {
      return Done(Some(0));
    }
    if n > count {
      return Done(None);
    }
    var bits := Bits(bitmap);
    r := FindRunLinear(bits, count, n, start);
    if r == Done(None) {
      r := FindRunLinear(bits, SecondPassEnd(count, n, start), n, 0);
    }
  }

  /** The fast search returns what the model returns, on every bitmap and for every query,
      wherever its 32-bit index arithmetic is in range. */
  lemma FastRunsMatchModel(bitmap: seq<bv8>, count: u32, n: u32, start: u32)
    requires count <= LAST_SAFE_BYTE
    ensures FastOutcome(Bits(bitmap), count, n, start) == Done(FindRunFrom(Bits(bitmap), count, n, start))
  {
  }

  /** Above that, the search overflows exactly when a pass reaches the last byte boundary
      empty-handed; otherwise it still agrees with the model. */
  lemma FastRunsOverflowExactlyWhen(bitmap: seq<bv8>, count: u32, n: u32, start: u32)
    requires LAST_SAFE_BYTE < count && 1 <= n <= count
    ensures var bits := Bits(bitmap);
            var firstPass := start <= LAST_SAFE_BYTE && FirstRun(bits, start, LAST_SAFE_BYTE, n).None?;
            var secondPass := FirstRun(bits, start, count, n).None?
                              && LAST_SAFE_BYTE < SecondPassEnd(count, n, start)
                              && FirstRun(bits, 0, LAST_SAFE_BYTE, n).None?;
            FastOutcome(bits, count, n, start)
            == if firstPass || secondPass then Overflow else Done(FindRunFrom(bits, count, n, start))
  {
  }

  /** Asked for one free bit among the most bits there can be, of which the bitmap backs none, the
      reference answers that there is none; the fast search overflows. */
  lemma FastRunsOverflow()
    ensures FastOutcome(Bits([]), U32_MAX, 1, 0) == Overflow && FindRunFrom(Bits([]), U32_MAX, 1, 0) == None
  {
    var bits := Bits([]);
    forall p: nat ensures !FreeRun(bits, p, 1) {
      assert Allocated(bits, p);
    }
    NoRunStarts(bits, 0, LAST_SAFE_BYTE, LAST_SAFE_BYTE, 1);
    NoRunStarts(bits, 0, U32_MAX, U32_MAX, 1);
    FastRunsOverflowExactlyWhen([], U32_MAX, 1, 0);
  }
}
