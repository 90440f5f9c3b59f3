/** The word-at-a-time bitmap searches of `crates/ffs-alloc/src/lib.rs`, proved against the
    bit-at-a-time model. */
module AllocFast {
  import opened AllocBitmap
  import opened WordBits
  import opened Wrappers

  // ----- facts about the model searches -----

  lemma FirstFreeIs(bits: seq<bool>, from: nat, to: nat, at: nat)
    requires from <= at < to && NoneFree(bits, from, at) && !Allocated(bits, at)
    ensures FirstRun(bits, from, to, 1) == Some(at)
  {
    var r := FirstRun(bits, from, to, 1);
    assert FreeRun(bits, at, 1);
    assert !Allocated(bits, r.value);
  }

  lemma NoFreeIs(bits: seq<bool>, from: nat, to: nat)
    requires NoneFree(bits, from, to)
    ensures FirstRun(bits, from, to, 1) == None
  {
    forall p: nat | from <= p && FreeRun(bits, p, 1) ensures p + 1 > to {
      assert !Allocated(bits, p);
    }
  }

  // ----- the first free bit -----

  /** How far the range scan really looks. The 256-bit and 64-bit steps give up on a block
      that is only partly backed by bytes, so a range that overhangs the slice can lose
      the backed bytes of its last block or word. */
  function ScannedEnd(bytes: nat, idx: nat, end: nat): nat {
    var first := (idx + 7) / 8;
    var overhang := end - 8 * bytes;
    if end <= 8 * first || bytes <= first || overhang <= 0 then end
    else
      var backed := bytes - first;
      if backed % 32 > 0 && overhang + 8 * (backed % 32) >= 256 then 8 * (bytes - backed % 32)
      else if backed % 8 > 0 && overhang + 8 * (backed % 8) >= 64 then 8 * (bytes - backed % 8)
      else end
  }

  /** A stage of the scan finds a free bit, gives up at a block the slice does not back in
      full, or runs out of blocks. */
  datatype Stage = Found(at: u32) | GaveUp(idx: u32) | Reached(idx: u32)

  /** Scanning has passed `idx` without finding a free bit. */
  ghost predicate Passed(bits: seq<bool>, start: nat, end: nat, idx: nat) {
    start <= idx <= end && NoneFree(bits, start, idx)
  }

  lemma BlocksAreScanned(bytes: nat, start: nat, end: nat, blocks: nat)
    requires var first := (start + 7) / 8; first + 32 * blocks <= bytes && 8 * first + 256 * blocks <= end
    ensures 8 * ((start + 7) / 8) + 256 * blocks <= ScannedEnd(bytes, start, end)
  {
  }

  lemma BlocksGiveUp(bytes: nat, start: nat, end: nat, blocks: nat)
    requires var first := (start + 7) / 8;
             && (blocks == 0 || first + 32 * blocks <= bytes)
             && first + 32 * (blocks + 1) > bytes && 8 * first + 256 * (blocks + 1) <= end
    ensures var idx := 8 * ((start + 7) / 8) + 256 * blocks;
            ScannedEnd(bytes, start, end) <= idx || 8 * bytes <= idx
  {
  }

  lemma WordsAreScanned(bytes: nat, start: nat, end: nat, blocks: nat, words: nat)
    requires var first := (start + 7) / 8;
             && first + 32 * blocks + 8 * words <= bytes && 8 * first + 256 * blocks + 64 * words <= end
             && 8 * first + 256 * (blocks + 1) > end
    ensures 8 * ((start + 7) / 8) + 256 * blocks + 64 * words <= ScannedEnd(bytes, start, end)
  {
    var first := (start + 7) / 8;
    if bytes > first && end > 8 * bytes {
      InLastBlock(bytes - first, blocks);
      RoundsDown(bytes - first, 4 * blocks + words);
    }
  }

  /** Bytes short of one more block are the remainder of the blocks. */
  lemma InLastBlock(backed: nat, blocks: nat)
    requires 32 * blocks <= backed < 32 * (blocks + 1)
    ensures backed % 32 == backed - 32 * blocks
  {
  }

  /** Whole words stay below the bytes rounded down to words. */
  lemma RoundsDown(backed: nat, words: nat)
    requires 8 * words <= backed
    ensures 8 * words <= backed - backed % 8
    ensures backed < 8 * (words + 1) ==> backed % 8 == backed - 8 * words
  {
  }

  lemma WordsGiveUp(bytes: nat, start: nat, end: nat, blocks: nat, words: nat)
    requires var first := (start + 7) / 8;
             && (blocks == words == 0 || first + 32 * blocks + 8 * words <= bytes)
             && first + 32 * blocks + 8 * (words + 1) > bytes
             && 8 * first + 256 * blocks + 64 * (words + 1) <= end < 8 * first + 256 * (blocks + 1)
    ensures var idx := 8 * ((start + 7) / 8) + 256 * blocks + 64 * words;
            ScannedEnd(bytes, start, end) <= idx || 8 * bytes <= idx
  {
    var first := (start + 7) / 8;
    if bytes > first {
      InLastBlock(bytes - first, blocks);
      RoundsDown(bytes - first, 4 * blocks + words);
    }
  }

  lemma BytesAreScanned(bytes: nat, start: nat, end: nat, blocks: nat, words: nat)
    requires var first := (start + 7) / 8;
             && (blocks == words == 0 || first + 32 * blocks + 8 * words <= bytes)
             && 8 * first + 256 * blocks + 64 * words <= end
             && 8 * first + 256 * (blocks + 1) > end && 8 * first + 256 * blocks + 64 * (words + 1) > end
    ensures ScannedEnd(bytes, start, end) == end
  {
    var first := (start + 7) / 8;
    if bytes > first && end > 8 * bytes {
      InLastBlock(bytes - first, blocks);
      RoundsDown(bytes - first, 4 * blocks + words);
    }
  }

  /** The first free bit of a word that has one. */
  method FirstFreeInWord(bits: seq<bool>, at: nat) returns (free: nat)
    requires at + 64 <= |bits| && !AllSet(LoadWord(bits, at))
    ensures at <= free < at + 64 && !Allocated(bits, free) && NoneFree(bits, at, free)
  {
    var clear := Not(LoadWord(bits, at));
    free := at + TrailingZeros(clear);
    assert clear[free - at];
    forall i: nat | at <= i < free ensures Allocated(bits, i) {
      assert !clear[i - at];
    }
  }

  /** The first free bit of four words of which one has one. */
  method FirstFreeInBlock(bits: seq<bool>, at: nat) returns (free: nat)
    requires at + 256 <= |bits| && !BlockFull(bits, at)
    ensures at <= free < at + 256 && !Allocated(bits, free) && NoneFree(bits, at, free)
  {
    BlockFullMeans(bits, at);
    var j := 0;
    while j < 3 && AllSet(LoadWord(bits, at + 64 * j))
      invariant 0 <= j <= 3 && NoneFree(bits, at, at + 64 * j)
      invariant forall i | 0 <= i < j :: AllSet(LoadWord(bits, at + 64 * i))
    {
      WordIsFull(bits, at + 64 * j);
      j := j + 1;
    }
    assert j == 3 ==> AllSet(LoadWord(bits, at + 64 * 0)) && AllSet(LoadWord(bits, at + 64 * 1))
                      && AllSet(LoadWord(bits, at + 64 * 2));
    free := FirstFreeInWord(bits, at + 64 * j);
  }

  /** What a stage working in steps of `width` bits from `from` promises. */
  ghost predicate StageDone(bits: seq<bool>, start: nat, from: nat, end: nat, width: nat, stage: Stage, steps: nat) {
    var idx := from + width * steps;
    && Passed(bits, start, end, idx)
    && (steps == 0 || idx <= |bits|)
    && match stage
       case Found(at) =>
         idx <= at < idx + width <= Min(end, |bits|) && NoneFree(bits, start, at) && !Allocated(bits, at)
       case GaveUp(i) => i == idx && |bits| < idx + width <= end
       case Reached(i) => i == idx && end < idx + width
  }

  lemma LeadingStageAnswers(bits: seq<bool>, start: nat, end: nat, idx: nat)
    requires |bits| % 8 == 0 && Passed(bits, start, end, idx) && idx <= 8 * ((start + 7) / 8)
    ensures idx < end && !Allocated(bits, idx) && idx < 8 * ((start + 7) / 8)
            ==> FirstRun(bits, start, ScannedEnd(|bits| / 8, start, end), 1) == Some(idx)
    ensures idx == end || |bits| <= idx ==> FirstRun(bits, start, ScannedEnd(|bits| / 8, start, end), 1) == None
  {
    var target := ScannedEnd(|bits| / 8, start, end);
    if idx == end || |bits| <= idx {
      NoFreeIs(bits, start, target);
    } else if !Allocated(bits, idx) && idx < 8 * ((start + 7) / 8) {
      FirstFreeIs(bits, start, target, idx);
    }
  }

  lemma BlockStageAnswers(bits: seq<bool>, start: nat, end: nat, stage: Stage, steps: nat)
    requires |bits| % 8 == 0 && StageDone(bits, start, 8 * ((start + 7) / 8), end, 256, stage, steps)
    ensures stage.Found? ==> FirstRun(bits, start, ScannedEnd(|bits| / 8, start, end), 1) == Some(stage.at)
    ensures stage.GaveUp? ==> FirstRun(bits, start, ScannedEnd(|bits| / 8, start, end), 1) == None
  {
    var target := ScannedEnd(|bits| / 8, start, end);
    if stage.Found? {
      BlocksAreScanned(|bits| / 8, start, end, steps + 1);
      FirstFreeIs(bits, start, target, stage.at);
    } else if stage.GaveUp? {
      BlocksGiveUp(|bits| / 8, start, end, steps);
      NoFreeIs(bits, start, target);
    }
  }

  lemma WordStageAnswers(bits: seq<bool>, start: nat, end: nat, blocks: nat, stage: Stage, steps: nat)
    requires |bits| % 8 == 0
    requires StageDone(bits, start, 8 * ((start + 7) / 8) + 256 * blocks, end, 64, stage, steps)
    requires end < 8 * ((start + 7) / 8) + 256 * (blocks + 1)
    requires blocks == 0 || 8 * ((start + 7) / 8) + 256 * blocks <= |bits|
    ensures stage.Found? ==> FirstRun(bits, start, ScannedEnd(|bits| / 8, start, end), 1) == Some(stage.at)
    ensures stage.GaveUp? ==> FirstRun(bits, start, ScannedEnd(|bits| / 8, start, end), 1) == None
    ensures stage.Reached? ==> ScannedEnd(|bits| / 8, start, end) == end
  {
    var target := ScannedEnd(|bits| / 8, start, end);
    match stage {
      case Found(at) =>
        WordsAreScanned(|bits| / 8, start, end, blocks, steps + 1);
        FirstFreeIs(bits, start, target, at);
      case GaveUp(_) =>
        WordsGiveUp(|bits| / 8, start, end, blocks, steps);
        NoFreeIs(bits, start, target);
      case Reached(_) =>
        BytesAreScanned(|bits| / 8, start, end, blocks, steps);
    }
  }

  method FindFreeRange(bits: seq<bool>, start: u32, end: u32) returns (r: Option<u32>)
    requires start <= end && |bits| % 8 == 0
    ensures r == FirstRun(bits, start, ScannedEnd(|bits| / 8, start, end), 1)
  {
    var idx := start;
    while idx < end && idx % 8 != 0
      invariant Passed(bits, start, end, idx) && idx <= 8 * ((start + 7) / 8)
    {
      LeadingStageAnswers(bits, start, end, idx);
      if idx >= |bits| {
        return None;
      }
      if !bits[idx] {
        return Some(idx);
      }
      idx := idx + 1;
    }
    if idx == end {
      LeadingStageAnswers(bits, start, end, idx);
      return None;
    }
    r := FindFreeAligned(bits, start, idx, end);
  }

  /** The scan from the first byte boundary on. */
  method FindFreeAligned(bits: seq<bool>, ghost start: u32, from: u32, end: u32) returns (r: Option<u32>)
    requires |bits| % 8 == 0 && from == 8 * ((start + 7) / 8) && Passed(bits, start, end, from)
    ensures r == FirstRun(bits, start, ScannedEnd(|bits| / 8, start, end), 1)
  {
    var stage, blocks := FindFreeByBlocks(bits, start, from, end);
    BlockStageAnswers(bits, start, end, stage, blocks);
    if stage.Found? {
      return Some(stage.at);
    }
    if stage.GaveUp? {
      return None;
    }
    r := FindFreeAfterBlocks(bits, start, stage.idx, end, blocks);
  }

  /** The scan from the last whole block on. */
  method FindFreeAfterBlocks(bits: seq<bool>, ghost start: u32, from: u32, end: u32, ghost blocks: nat)
    returns (r: Option<u32>)
    requires |bits| % 8 == 0 && from == 8 * ((start + 7) / 8) + 256 * blocks
    requires Passed(bits, start, end, from) && end < from + 256 && (blocks == 0 || from <= |bits|)
    ensures r == FirstRun(bits, start, ScannedEnd(|bits| / 8, start, end), 1)
  {
    var stage, words := FindFreeByWords(bits, start, from, end);
    WordStageAnswers(bits, start, end, blocks, stage, words);
    match stage {
      case Found(at) => return Some(at);
      case GaveUp(_) => return None;
      case Reached(idx) =>
        assert idx == 8 * ((start + 7) / 8 + 32 * blocks + 8 * words);
        r := FindFreeByBytes(bits, start, idx, end);
    }
  }

  /** Four words at a time. */
  method FindFreeByBlocks(bits: seq<bool>, ghost start: u32, from: u32, end: u32)
    returns (stage: Stage, ghost steps: nat)
    requires Passed(bits, start, end, from)
    ensures StageDone(bits, start, from, end, 256, stage, steps)
  {
    steps := 0;
    var idx := from;
    while SaturatingSub(end, idx) >= 256
      invariant Passed(bits, start, end, idx) && idx == from + 256 * steps
      invariant steps == 0 || idx <= |bits|
      decreases end - idx
    {
      if idx + 256 > |bits| {
        return GaveUp(idx), steps;
      }
      if !BlockFull(bits, idx) {
        var free := FirstFreeInBlock(bits, idx);
        return Found(free), steps;
      }
      BlockIsFull(bits, idx);
      idx, steps := idx + 256, steps + 1;
    }
    return Reached(idx), steps;
  }

  /** One word at a time. */
  method FindFreeByWords(bits: seq<bool>, ghost start: u32, from: u32, end: u32)
    returns (stage: Stage, ghost steps: nat)
    requires Passed(bits, start, end, from)
    ensures StageDone(bits, start, from, end, 64, stage, steps)
  {
    steps := 0;
    var idx := from;
    while SaturatingSub(end, idx) >= 64
      invariant Passed(bits, start, end, idx) && idx == from + 64 * steps
      invariant steps == 0 || idx <= |bits|
      decreases end - idx
    {
      if idx + 64 > |bits| {
        return GaveUp(idx), steps;
      }
      if !AllSet(LoadWord(bits, idx)) {
        var free := FirstFreeInWord(bits, idx);
        return Found(free), steps;
      }
      WordIsFull(bits, idx);
      idx, steps := idx + 64, steps + 1;
    }
    return Reached(idx), steps;
  }

  /** One byte, then one bit, at a time. */
  method FindFreeByBytes(bits: seq<bool>, ghost start: u32, from: u32, end: u32) returns (r: Option<u32>)
    requires |bits| % 8 == 0
    requires Passed(bits, start, end, from) && from % 8 == 0
    ensures r == FirstRun(bits, start, end, 1)
  {
    var idx := from;
    while SaturatingSub(end, idx) >= 8
      invariant Passed(bits, start, end, idx) && idx % 8 == 0
      decreases end - idx
    {
      if idx >= |bits| {
        NoFreeIs(bits, start, end);
        return None;
      }
      var byte := LoadByte(bits, idx);
      if !AllSet(byte) {
        var free := TrailingZeros(Not(byte));
        forall i: nat | idx <= i < idx + free ensures Allocated(bits, i) {
          assert !Not(byte)[i - idx];
        }
        assert Not(byte)[free];
        FirstFreeIs(bits, start, end, idx + free);
        return Some(idx + free);
      }
      forall i: nat | idx <= i < idx + 8 ensures Allocated(bits, i) {
        assert byte[i - idx];
      }
      idx := idx + 8;
    }
    while idx < end
      invariant Passed(bits, start, end, idx)
    {
      if idx >= |bits| {
        NoFreeIs(bits, start, end);
        return None;
      }
      if !bits[idx] {
        FirstFreeIs(bits, start, end, idx);
        return Some(idx);
      }
      idx := idx + 1;
    }
    NoFreeIs(bits, start, end);
    return None;
  }

  ghost function ScannedFree(bits: seq<bool>, count: u32, start: u32): Option<nat> {
    var bytes, begin := |bits| / 8, Min(start, count);
    var after := FirstRun(bits, begin, ScannedEnd(bytes, begin, count), 1);
    if after.Some? then after else FirstRun(bits, 0, ScannedEnd(bytes, 0, begin), 1)
  }

  method FindFreeFast(bitmap: seq<bv8>, count: u32, start: u32) returns (r: Option<u32>)
    ensures r == ScannedFree(Bits(bitmap), count, start)
  {
    var bits := Bits(bitmap);
    var begin := Min(start, count);
    r := FindFreeRange(bits, begin, count);
    if r.None? {
      r := FindFreeRange(bits, 0, begin);
    }
  }

  /** Both range scans of a search look at every backed bit of their range. */
  predicate ScansEverything(bytes: nat, count: u32, start: u32) {
    var begin := Min(start, count);
    ScannedEnd(bytes, begin, count) == count && ScannedEnd(bytes, 0, begin) == begin
  }

  ghost predicate FindsModelFree(bitmap: seq<bv8>, count: u32, start: u32) {
    ScannedFree(Bits(bitmap), count, start) == FindFreeFrom(Bits(bitmap), count, start)
  }

  ghost function OnlyLastFree(bytes: nat): seq<bool> { seq(8 * bytes, i => i != 8 * bytes - 1) }

  lemma ScanLosesLastBit(bytes: nat, count: u32, start: u32)
    requires !ScansEverything(bytes, count, start)
    ensures ScannedFree(OnlyLastFree(bytes), count, start) == None
    ensures FindFreeFrom(OnlyLastFree(bytes), count, start) == Some(8 * bytes - 1)
  {
    var bits, begin := OnlyLastFree(bytes), Min(start, count);
    forall lo: nat, hi: nat | 8 * bytes - 1 < lo || hi < 8 * bytes ensures FirstRun(bits, lo, hi, 1) == None {
      NoFreeIs(bits, lo, hi);
    }
    if ScannedEnd(bytes, begin, count) != count {
      FirstFreeIs(bits, begin, count, 8 * bytes - 1);
    } else {
      FirstFreeIs(bits, 0, begin, 8 * bytes - 1);
    }
  }

  /** The fast search agrees with the model on every bitmap of a size if and only if
      neither of its ranges overhangs the slice far enough to drop a backed block. */
  lemma FastFreeMatchesModelExactlyWhen(bytes: nat, count: u32, start: u32)
    ensures ScansEverything(bytes, count, start)
            <==> forall bitmap: seq<bv8> | |bitmap| == bytes :: FindsModelFree(bitmap, count, start)
  {
    if ScansEverything(bytes, count, start) {
      forall bitmap: seq<bv8> | |bitmap| == bytes ensures FindsModelFree(bitmap, count, start) {
        assert |Bits(bitmap)| / 8 == bytes;
      }
    } else {
      var bitmap := Pack(OnlyLastFree(bytes));
      BitsOfPack(OnlyLastFree(bytes));
      ScanLosesLastBit(bytes, count, start);
      assert !FindsModelFree(bitmap, count, start);
    }
  }

  /** A query that stays within the slice always scans everything. */
  lemma WithinSliceScansEverything(bytes: nat, count: u32, start: u32)
    requires count <= 8 * bytes
    ensures ScansEverything(bytes, count, start)
  {
  }

  /** One backed byte, free, queried for 64 bits: the word step gives up before reading it. */
  lemma FastFreeMissesABackedByte()
    ensures ScannedFree(Bits([0]), 64, 0) == None
    ensures FindFreeFrom(Bits([0]), 64, 0) == Some(0)
  {
    var bits := Bits([0]);
    assert ScannedEnd(1, 0, 64) == 0;
    assert !bits[0] by {
      GetIsAllocated([0], 0);
    }
    FirstFreeIs(bits, 0, 64, 0);
  }
}
