/** The word-at-a-time largest-free-run scan of `crates/ffs-alloc/src/lib.rs`, proved to return
    what the bit-at-a-time model returns for every bitmap and count. */
module AllocLargest {
  import opened AllocBitmap
  import opened AllocProperties
  import opened WordBits

  function Max(a: nat, b: nat): nat { if a < b then b else a }

  // ----- adding a stretch of bits to a scan -----

  /** The trailing run after a stretch, given the one before it. */
  ghost function RunAfter(run: nat, seg: seq<bool>): nat {
    if AllClear(seg) then run + |seg| else LeadingZeros(seg)
  }

  /** The best run after a stretch: as before, across its front, or inside it. */
  ghost function BestAfter(run: nat, best: nat, seg: seq<bool>): nat {
    Max(best, Max(run + TrailingZeros(seg), LargestRun(seg, |seg|)))
  }

  lemma {:induction false} TrailingRunInside(bits: seq<bool>, at: nat, seg: seq<bool>, k: nat)
    requires at + |seg| <= |bits| && seg == bits[at..at + |seg|] && k <= |seg|
    ensures RunEndingAt(bits, at + k)
            == if k <= TrailingZeros(seg) then RunEndingAt(bits, at) + k else RunEndingAt(seg, k)
    ensures k <= TrailingZeros(seg) ==> RunEndingAt(seg, k) == k
  {
    if k > 0 {
      TrailingRunInside(bits, at, seg, k - 1);
      assert bits[at + k - 1] == seg[k - 1];
    }
  }

  lemma {:induction false} LargestInside(bits: seq<bool>, at: nat, seg: seq<bool>, k: nat)
    requires at + |seg| <= |bits| && seg == bits[at..at + |seg|] && k <= |seg|
    ensures Reaches(LargestRun(bits, at + k), LargestRun(bits, at), RunEndingAt(bits, at), TrailingZeros(seg), seg, k)
  {
    if k == 0 {
      RunIsAtMostLargest(bits, at);
    } else {
      LargestInside(bits, at, seg, k - 1);
      TrailingRunInside(bits, at, seg, k);
      LargestOneMore(bits, at + k, seg, k, LargestRun(bits, at), RunEndingAt(bits, at), TrailingZeros(seg));
    }
  }

  /** The largest run after `k` bits of a stretch: as before it, across its front, or inside it. */
  ghost predicate Reaches(largest: nat, before: nat, run: nat, prefix: nat, seg: seq<bool>, k: nat) {
    largest == Max(before, Max(run + Min(k, prefix), LargestRun(seg, k)))
  }

  lemma LargestOneMore(bits: seq<bool>, i: nat, seg: seq<bool>, k: nat, before: nat, run: nat, prefix: nat)
    requires 0 < k <= i
    requires RunEndingAt(bits, i) == if k <= prefix then run + k else RunEndingAt(seg, k)
    requires k <= prefix ==> RunEndingAt(seg, k) == k
    requires Reaches(LargestRun(bits, i - 1), before, run, prefix, seg, k - 1)
    ensures Reaches(LargestRun(bits, i), before, run, prefix, seg, k)
  {
    LargestStep(before, run, prefix, k, LargestRun(seg, k - 1), RunEndingAt(bits, i), RunEndingAt(seg, k));
  }

  lemma LargestStep(before: nat, run: nat, prefix: nat, k: nat, inside: nat, across: nat, within: nat)
    requires 0 < k && across == (if k <= prefix then run + k else within) && (k <= prefix ==> within == k)
    ensures Max(Max(before, Max(run + Min(k - 1, prefix), inside)), across)
            == Max(before, Max(run + Min(k, prefix), Max(inside, within)))
  {
  }

  lemma RunIsAtMostLargest(bits: seq<bool>, i: nat)
    ensures RunEndingAt(bits, i) <= LargestRun(bits, i) <= i
  {
  }

  lemma {:induction false} TrailingIsLeadingZeros(seg: seq<bool>, k: nat)
    requires k <= |seg|
    ensures RunEndingAt(seg, k) == LeadingZeros(seg[..k])
  {
    if k > 0 {
      TrailingIsLeadingZeros(seg, k - 1);
      assert seg[..k][..k - 1] == seg[..k - 1];
    }
  }

  /** What the scan state means: the trailing run and the best so far at a position. */
  ghost predicate Scanned(bits: seq<bool>, at: nat, run: nat, best: nat) {
    run == RunEndingAt(bits, at) && best == LargestRun(bits, at)
  }

  lemma StretchAdds(bits: seq<bool>, at: nat, seg: seq<bool>, run: nat, best: nat)
    requires at + |seg| <= |bits| && seg == bits[at..at + |seg|] && Scanned(bits, at, run, best)
    ensures Scanned(bits, at + |seg|, RunAfter(run, seg), BestAfter(run, best, seg))
  {
    RunGoesOn(bits, at, seg, run);
    LargestInside(bits, at, seg, |seg|);
  }

  lemma RunGoesOn(bits: seq<bool>, at: nat, seg: seq<bool>, run: nat)
    requires at + |seg| <= |bits| && seg == bits[at..at + |seg|] && run == RunEndingAt(bits, at)
    ensures RunEndingAt(bits, at + |seg|) == RunAfter(run, seg)
  {
    TrailingRunInside(bits, at, seg, |seg|);
    TrailingIsLeadingZeros(seg, |seg|);
    assert seg[..|seg|] == seg;
    AllClearMeans(seg);
  }

  lemma AllClearMeans(seg: seq<bool>)
    ensures AllClear(seg) <==> TrailingZeros(seg) == |seg|
  {
  }

  lemma {:induction false} FullStretch(bits: seq<bool>, from: nat, to: nat)
    requires from < to && NoneFree(bits, from, to)
    ensures RunEndingAt(bits, to) == 0 && LargestRun(bits, to) == LargestRun(bits, from)
  {
    assert Allocated(bits, to - 1);
    if from < to - 1 {
      FullStretch(bits, from, to - 1);
    }
  }

  // ----- words -----

  ghost predicate EndsStretch(free: Word, len: nat, k: nat) {
    len <= k + 1 <= 64 && forall j | k + 1 - len <= j <= k :: free[j]
  }

  /** Each round keeps the bits that end a stretch one longer; the rounds until none is left
      count the longest. */
  method LongestZeroRun(word: Word) returns (best: u32)
    ensures best == LargestRun(word, 64)
  {
    var free: Word := Not(word);
    ghost var all := free;
    best := 0;
    while !AllClear(free)
      invariant 0 <= best <= 64
      invariant forall k: nat | k < 64 :: free[k] == EndsStretch(all, best + 1, k)
      invariant best > 0 ==> exists k: nat :: k < 64 && EndsStretch(all, best, k)
      decreases 64 - best
    {
      ghost var k: nat :| k < 64 && free[k];
      assert EndsStretch(all, best + 1, k);
      var next := And(free, ShiftLeft(free, 1));
      forall k: nat | k < 64 ensures next[k] == EndsStretch(all, best + 2, k) {
        StretchGrows(all, best + 1, k);
      }
      free := next;
      best := best + 1;
    }
    ghost var longer := best + 1;
    forall k: nat | k < 64 ensures !EndsStretch(all, longer, k) {
      assert !free[k];
    }
    StretchesAreRuns(word, all, best, longer);
  }

  lemma StretchGrows(free: Word, len: nat, k: nat)
    requires k < 64 && 1 <= len
    ensures EndsStretch(free, len + 1, k) <==> EndsStretch(free, len, k) && 1 <= k && EndsStretch(free, len, k - 1)
  {
  }

  lemma StretchesAreRuns(word: Word, free: Word, best: nat, longer: nat)
    requires free == Not(word) && longer == best + 1
    requires best > 0 ==> exists k: nat :: k < 64 && EndsStretch(free, best, k)
    requires forall k: nat | k < 64 :: !EndsStretch(free, longer, k)
    ensures LargestRun(word, 64) == best
  {
    if best > 0 {
      var k: nat :| k < 64 && EndsStretch(free, best, k);
      forall i: nat | k + 1 - best <= i < k + 1 ensures !Allocated(word, i) {
        assert free[i];
      }
      LargestRunIsMaximal(word, 64, k + 1 - best, best);
    }
    var largest := LargestRun(word, 64);
    if largest > best {
      var at := LargestRunIsFree(word, 64);
      forall j | at <= j <= at + best ensures free[j] {
        assert !Allocated(word, j);
      }
      assert EndsStretch(free, longer, at + best);
    }
  }

  method ApplyWord(word: Word, run: u32, best: u32) returns (run': u32, best': u32)
    requires run <= best && run + 64 <= U32_MAX
    ensures run' == RunAfter(run, word) && best' == BestAfter(run, best, word)
  {
    WordExtremes(word);
    if AllClear(word) {
      run' := SaturatingAdd(run, 64);
      return run', Max(best, run');
    }
    if AllSet(word) {
      return 0, best;
    }
    best' := best;
    var prefix := TrailingZeros(word);
    if prefix > 0 {
      best' := Max(best', SaturatingAdd(run, prefix));
    }
    var inside := LongestZeroRun(word);
    best' := Max(best', inside);
    run' := LeadingZeros(word);
  }

  lemma WordExtremes(seg: seq<bool>)
    requires seg != []
    ensures AllClear(seg) ==> TrailingZeros(seg) == LargestRun(seg, |seg|) == |seg|
    ensures AllSet(seg) ==> TrailingZeros(seg) == LeadingZeros(seg) == LargestRun(seg, |seg|) == 0 && !AllClear(seg)
    ensures LargestRun(seg, |seg|) <= |seg|
  {
    RunIsAtMostLargest(seg, |seg|);
    if AllClear(seg) {
      forall i: nat | 0 <= i < |seg| ensures !Allocated(seg, i) {
      }
      LargestRunIsMaximal(seg, |seg|, 0, |seg|);
    }
    if AllSet(seg) {
      forall i: nat | 0 <= i < |seg| ensures Allocated(seg, i) {
      }
      FullStretch(seg, 0, |seg|);
      assert seg[0] && seg[|seg| - 1];
    }
  }

  // ----- bytes -----

  /** The summary table's entry for a byte. */
  datatype ByteRuns = ByteRuns(prefix: nat, suffix: nat, best: nat)

  method SummarizeByte(byte: seq<bool>) returns (s: ByteRuns)
    requires |byte| == 8
    ensures s == ByteRuns(TrailingZeros(byte), LeadingZeros(byte), LargestRun(byte, 8))
  {
    var prefix, suffix := 0, 0;
    while prefix < 8 && !byte[prefix]
      invariant 0 <= prefix <= TrailingZeros(byte)
    {
      prefix := prefix + 1;
    }
    while suffix < 8 && !byte[7 - suffix]
      invariant 0 <= suffix <= LeadingZeros(byte)
    {
      suffix := suffix + 1;
    }
    var best, run := 0, 0;
    for bit := 0 to 8
      invariant Scanned(byte, bit, run, best)
    {
      if !byte[bit] {
        run := run + 1;
        best := Max(best, run);
      } else {
        run := 0;
      }
    }
    return ByteRuns(prefix, suffix, best);
  }

  method ApplyByte(byte: seq<bool>, run: u32, best: u32) returns (run': u32, best': u32)
    requires |byte| == 8 && run <= best && run + TrailingZeros(byte) <= U32_MAX
    ensures run' == RunAfter(run, byte) && best' == BestAfter(run, best, byte)
  {
    WordExtremes(byte);
    AllClearMeans(byte);
    var stats := SummarizeByte(byte);
    if stats.prefix == 8 {
      run' := SaturatingAdd(run, 8);
      return run', Max(best, run');
    }
    best' := best;
    if stats.prefix > 0 {
      best' := Max(best', SaturatingAdd(run, stats.prefix));
    }
    best' := Max(best', stats.best);
    run' := stats.suffix;
  }

  // ----- the whole scan -----

  /** A position of the scan with its counters in range. */
  ghost predicate At(bits: seq<bool>, at: nat, run: u32, best: u32) {
    Scanned(bits, at, run, best) && run <= best <= at <= |bits|
  }

  lemma Advance(bits: seq<bool>, at: nat, to: nat, run: u32, best: u32, run': u32, best': u32)
    requires At(bits, at, run, best) && at <= to <= |bits|
    requires run' == RunAfter(run, bits[at..to]) && best' == BestAfter(run, best, bits[at..to])
    ensures At(bits, to, run', best')
  {
    StretchAdds(bits, at, bits[at..to], run, best);
    RunIsAtMostLargest(bits, to);
  }

  method ScanWord(bits: seq<bool>, at: nat, run: u32, best: u32) returns (run': u32, best': u32)
    requires at + 64 <= |bits| && at + 64 <= U32_MAX && At(bits, at, run, best)
    ensures At(bits, at + 64, run', best')
  {
    run', best' := ApplyWord(LoadWord(bits, at), run, best);
    Advance(bits, at, at + 64, run, best, run', best');
  }

  method ScanByte(bits: seq<bool>, at: nat, run: u32, best: u32) returns (run': u32, best': u32)
    requires at + 8 <= |bits| && at + 8 <= U32_MAX && At(bits, at, run, best)
    ensures At(bits, at + 8, run', best')
  {
    run', best' := ApplyByte(LoadByte(bits, at), run, best);
    Advance(bits, at, at + 8, run, best, run', best');
  }

  /** Four words at a time, a fully allocated block in one step. */
  method ScanBlock(bits: seq<bool>, at: nat, run: u32, best: u32) returns (run': u32, best': u32)
    requires at + 256 <= |bits| && at + 256 <= U32_MAX && At(bits, at, run, best)
    ensures At(bits, at + 256, run', best')
  {
    if BlockFull(bits, at) {
      BlockIsFull(bits, at);
      FullStretch(bits, at, at + 256);
      return 0, best;
    }
    run', best' := ScanWord(bits, at, run, best);
    run', best' := ScanWord(bits, at + 64, run', best');
    run', best' := ScanWord(bits, at + 128, run', best');
    run', best' := ScanWord(bits, at + 192, run', best');
  }

  method ScanBlocks(bits: seq<bool>, n: nat) returns (run: u32, best: u32)
    requires 256 * n <= |bits| && 256 * n <= U32_MAX
    ensures At(bits, 256 * n, run, best)
  {
    run, best := 0, 0;
    for i := 0 to n
      invariant At(bits, 256 * i, run, best)
    {
      run, best := ScanBlock(bits, 256 * i, run, best);
    }
  }

  method ScanWords(bits: seq<bool>, at: nat, n: nat, run0: u32, best0: u32) returns (run: u32, best: u32)
    requires at + 64 * n <= |bits| && at + 64 * n <= U32_MAX && At(bits, at, run0, best0)
    ensures At(bits, at + 64 * n, run, best)
  {
    run, best := run0, best0;
    for i := 0 to n
      invariant At(bits, at + 64 * i, run, best)
    {
      run, best := ScanWord(bits, at + 64 * i, run, best);
    }
  }

  method ScanBytes(bits: seq<bool>, at: nat, n: nat, run0: u32, best0: u32) returns (run: u32, best: u32)
    requires at + 8 * n <= |bits| && at + 8 * n <= U32_MAX && At(bits, at, run0, best0)
    ensures At(bits, at + 8 * n, run, best)
  {
    run, best := run0, best0;
    for i := 0 to n
      invariant At(bits, at + 8 * i, run, best)
    {
      run, best := ScanByte(bits, at + 8 * i, run, best);
    }
  }

  method ScanFullBytes(bits: seq<bool>, bytes: nat) returns (run: u32, best: u32)
    requires 8 * bytes <= |bits| && 8 * bytes <= U32_MAX
    ensures At(bits, 8 * bytes, run, best)
  {
    var blocks, words, rest := Chunks(bytes);
    run, best := ScanBlocks(bits, blocks);
    run, best := ScanWords(bits, 256 * blocks, words, run, best);
    run, best := ScanBytes(bits, 256 * blocks + 64 * words, rest, run, best);
  }

  /** Whole blocks, then whole words, then single bytes. */
  method Chunks(bytes: nat) returns (blocks: nat, words: nat, rest: nat)
    ensures bytes == 32 * blocks + 8 * words + rest && words < 4 && rest < 8
  {
    var all := bytes / 8;
    blocks, words, rest := all / 4, all % 4, bytes % 8;
  }

  /** Everything past the end of the bitmap is allocated. */
  lemma PastTheEnd(bits: seq<bool>, to: nat)
    requires |bits| <= to
    ensures LargestRun(bits, to) == LargestRun(bits, |bits|)
  {
    if |bits| < to {
      FullStretch(bits, |bits|, to);
    }
  }

  /** The byte cut off by the count, with the bits past the count made allocated. */
  function Bounded(byte: seq<bool>, remainder: nat): (bounded: seq<bool>)
    requires |byte| == 8 && remainder < 8
    ensures |bounded| == 8 && bounded[..remainder] == byte[..remainder] && forall k | remainder <= k < 8 :: bounded[k]
  {
    seq(8, k requires 0 <= k < 8 => byte[k] || k >= remainder)
  }

  lemma BoundedBest(bits: seq<bool>, at: nat, remainder: nat, run: u32, best: u32)
    requires At(bits, at, run, best) && at + 8 <= |bits| && 0 < remainder < 8
    ensures BestAfter(run, best, Bounded(bits[at..at + 8], remainder)) == LargestRun(bits, at + remainder)
  {
    var bounded, seg := Bounded(bits[at..at + 8], remainder), bits[at..at + remainder];
    assert bounded[..remainder] == seg;
    StretchAdds(bits, at, seg, run, best);
    LargestDependsOnPrefix(bounded, seg, remainder);
    forall i: nat | remainder <= i < 8 ensures Allocated(bounded, i) {
      assert bounded[i];
    }
    FullStretch(bounded, remainder, 8);
    SameTrailing(bounded, seg);
  }

  lemma SameTrailing(longer: seq<bool>, seg: seq<bool>)
    requires |seg| < |longer| && longer[..|seg|] == seg && longer[|seg|]
    ensures TrailingZeros(longer) == TrailingZeros(seg)
  {
    var a, b := TrailingZeros(longer), TrailingZeros(seg);
    assert a <= |seg|;
    assert forall k | 0 <= k < |seg| :: longer[k] == seg[k];
  }

  lemma {:induction false} LargestDependsOnPrefix(a: seq<bool>, b: seq<bool>, k: nat)
    requires k <= |a| && k <= |b| && a[..k] == b[..k]
    ensures LargestRun(a, k) == LargestRun(b, k) && RunEndingAt(a, k) == RunEndingAt(b, k)
  {
    if k > 0 {
      assert a[k - 1] == a[..k][k - 1] && b[k - 1] == b[..k][k - 1];
      assert a[..k - 1] == a[..k][..k - 1] && b[..k - 1] == b[..k][..k - 1];
      LargestDependsOnPrefix(a, b, k - 1);
    }
  }

  /** The bits of the last, partial byte. */
  method ScanRemainder(bits: seq<bool>, at: nat, remainder: nat, run: u32, best: u32) returns (best': u32)
    requires At(bits, at, run, best) && at + 8 <= |bits| && 0 < remainder < 8 && at + remainder <= U32_MAX
    ensures best' == LargestRun(bits, at + remainder)
  {
    var bounded := Bounded(bits[at..at + 8], remainder);
    assert bounded[remainder];
    BoundedBest(bits, at, remainder, run, best);
    var _, last := ApplyByte(bounded, run, best);
    return last;
  }

  method LargestInBits(bits: seq<bool>, count: u32) returns (best: u32)
    requires |bits| % 8 == 0
    ensures best == LargestRun(bits, count)
  {
    var fullBytes, remainder := count / 8, count % 8;
    var backed := |bits| / 8;
    var run: u32;
    run, best := ScanFullBytes(bits, Min(fullBytes, backed));
    if fullBytes >= backed {
      PastTheEnd(bits, count);
    } else if remainder > 0 {
      best := ScanRemainder(bits, fullBytes * 8, remainder, run, best);
    }
  }

  /** The fast scan agrees with the model, whatever the bitmap and the count. */
  method LargestFreeRunFast(bitmap: seq<bv8>, count: u32) returns (best: u32)
    ensures best == LargestRun(Bits(bitmap), count)
  {
    if count == 0 {
      return 0;
    }
    best := LargestInBits(Bits(bitmap), count);
  }
}
