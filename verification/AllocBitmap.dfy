/** The allocation-bitmap reference model of `fuzz/fuzz_targets/fuzz_alloc_bitmap.rs`:
    LSB-first bits in bytes, everything past the end of the slice counting as allocated,
    and 32-bit saturating arithmetic. */
module AllocBitmap {
  import opened Wrappers

  const U32_MAX := 0xFFFF_FFFF

  type u32 = x: int | 0 <= x <= 0xFFFF_FFFF

  function SaturatingAdd(a: u32, b: u32): u32 { if a + b > U32_MAX then U32_MAX else a + b }

  function SaturatingSub(a: u32, b: u32): u32 { if a < b then 0 else a - b }

  function Min(a: int, b: int): int { if a <= b then a else b }

  // ----- bits -----

  predicate Bit(b: bv8, k: nat)
    requires k < 8
  {
    (b >> k) & 1 == 1
  }

  /** Is bit `idx` allocated? Everything past the end of the bitmap is. */
  predicate Get(bitmap: seq<bv8>, idx: nat) {
    if idx / 8 < |bitmap| then Bit(bitmap[idx / 8], idx % 8) else true
  }

  function SetBit(bitmap: seq<bv8>, idx: nat): seq<bv8> {
    if idx / 8 < |bitmap| then bitmap[idx / 8 := bitmap[idx / 8] | (1 << (idx % 8))] else bitmap
  }

  function ClearBit(bitmap: seq<bv8>, idx: nat): seq<bv8> {
    if idx / 8 < |bitmap| then bitmap[idx / 8 := bitmap[idx / 8] & !(1 << (idx % 8))] else bitmap
  }

  /** The lowest bit of a byte comes first. */
  lemma BitOrder(b: bv8)
    ensures Bit(b, 0) <==> b & 0x01 != 0
    ensures Bit(b, 1) <==> b & 0x02 != 0
    ensures Bit(b, 2) <==> b & 0x04 != 0
    ensures Bit(b, 3) <==> b & 0x08 != 0
    ensures Bit(b, 4) <==> b & 0x10 != 0
    ensures Bit(b, 5) <==> b & 0x20 != 0
    ensures Bit(b, 6) <==> b & 0x40 != 0
    ensures Bit(b, 7) <==> b & 0x80 != 0
  {
  }

  /** Bit `k` of byte `i` is bit `8 * i + k` of the bitmap; past the last byte everything is allocated. */
  lemma GetByBytes(bitmap: seq<bv8>, i: nat, k: nat)
    requires k < 8
    ensures Get(bitmap, 8 * i + k) <==> i >= |bitmap| || Bit(bitmap[i], k)
  {
  }

  lemma BitOfSet(b: bv8, k: nat, j: nat)
    requires k < 8 && j < 8
    ensures Bit(b | (1 << k), j) == (Bit(b, j) || j == k)
  {
  }

  lemma BitOfClear(b: bv8, k: nat, j: nat)
    requires k < 8 && j < 8
    ensures Bit(b & !(1 << k), j) == (Bit(b, j) && j != k)
  {
  }

  /** Setting one bit changes that bit and no other; outside the bitmap it changes nothing. */
  lemma GetOfSet(bitmap: seq<bv8>, i: nat, j: nat)
    ensures |SetBit(bitmap, i)| == |bitmap|
    ensures Get(SetBit(bitmap, i), j) == (Get(bitmap, j) || j == i)
  {
    if i / 8 < |bitmap| && i / 8 == j / 8 {
      BitOfSet(bitmap[i / 8], i % 8, j % 8);
    }
  }

  lemma GetOfClear(bitmap: seq<bv8>, i: nat, j: nat)
    ensures |ClearBit(bitmap, i)| == |bitmap|
    ensures Get(ClearBit(bitmap, i), j) == (Get(bitmap, j) && !(j == i && i / 8 < |bitmap|))
  {
    if i / 8 < |bitmap| && i / 8 == j / 8 {
      BitOfClear(bitmap[i / 8], i % 8, j % 8);
    }
  }

  lemma ByteFromBits(a: bv8, b: bv8)
    requires forall k: nat | k < 8 :: Bit(a, k) == Bit(b, k)
    ensures a == b
  {
    assert Bit(a, 0) == Bit(b, 0) && Bit(a, 1) == Bit(b, 1) && Bit(a, 2) == Bit(b, 2) && Bit(a, 3) == Bit(b, 3);
    assert Bit(a, 4) == Bit(b, 4) && Bit(a, 5) == Bit(b, 5) && Bit(a, 6) == Bit(b, 6) && Bit(a, 7) == Bit(b, 7);
  }

  /** Bitmaps of one length that agree on every bit agree byte for byte. */
  lemma SameBits(a: seq<bv8>, b: seq<bv8>)
    requires |a| == |b|
    requires forall i: nat :: Get(a, i) == Get(b, i)
    ensures a == b
  {
    forall i | 0 <= i < |a| ensures a[i] == b[i] {
      forall k: nat | k < 8 ensures Bit(a[i], k) == Bit(b[i], k) {
        assert Get(a, 8 * i + k) == Get(b, 8 * i + k);
      }
      ByteFromBits(a[i], b[i]);
    }
  }

  // ----- the bits of a bitmap as a sequence -----

  function Bits(bitmap: seq<bv8>): (bits: seq<bool>)
    ensures |bits| == 8 * |bitmap|
  {
    seq(8 * |bitmap|, (i: nat) => Get(bitmap, i))
  }

  predicate Allocated(bits: seq<bool>, i: nat) { i < |bits| ==> bits[i] }

  lemma GetIsAllocated(bitmap: seq<bv8>, i: nat)
    ensures Get(bitmap, i) == Allocated(Bits(bitmap), i)
  {
  }

  /** The byte holding bits `base` to `base + 7`. */
  function PackByte(bits: seq<bool>, base: nat): bv8
    requires base + 8 <= |bits|
  {
    (if bits[base] then 1 else 0) | (if bits[base + 1] then 2 else 0)
    | (if bits[base + 2] then 4 else 0) | (if bits[base + 3] then 8 else 0)
    | (if bits[base + 4] then 16 else 0) | (if bits[base + 5] then 32 else 0)
    | (if bits[base + 6] then 64 else 0) | (if bits[base + 7] then 128 else 0)
  }

  /** The bitmap with the given bits. */
  function Pack(bits: seq<bool>): seq<bv8>
    requires |bits| % 8 == 0
  {
    seq(|bits| / 8, (i: nat) requires i < |bits| / 8 => PackByte(bits, 8 * i))
  }

  lemma BitOfPack(bits: seq<bool>, base: nat, k: nat)
    requires k < 8 && base + 8 <= |bits|
    ensures Bit(PackByte(bits, base), k) == bits[base + k]
  {
    if k == 0 {} else if k == 1 {} else if k == 2 {} else if k == 3 {}
    else if k == 4 {} else if k == 5 {} else if k == 6 {} else {}
  }

  lemma BitsOfPack(bits: seq<bool>)
    requires |bits| % 8 == 0
    ensures Bits(Pack(bits)) == bits
  {
    forall i: nat | i < |bits| ensures Bits(Pack(bits))[i] == bits[i] {
      BitOfPack(bits, 8 * (i / 8), i % 8);
    }
  }

  // ----- in-place updates -----

  method Set(bitmap: array<bv8>, idx: u32)
    modifies bitmap
    ensures bitmap[..] == SetBit(old(bitmap[..]), idx)
  {
    if idx / 8 < bitmap.Length {
      bitmap[idx / 8] := bitmap[idx / 8] | (1 << (idx % 8));
    }
  }

  method Clear(bitmap: array<bv8>, idx: u32)
    modifies bitmap
    ensures bitmap[..] == ClearBit(old(bitmap[..]), idx)
  {
    if idx / 8 < bitmap.Length {
      bitmap[idx / 8] := bitmap[idx / 8] & !(1 << (idx % 8));
    }
  }

  // ----- what the queries mean -----

  ghost function FreeBits(bits: seq<bool>, count: nat): nat {
    if count == 0 then 0
    else FreeBits(bits, count - 1) + if Allocated(bits, count - 1) then 0 else 1
  }

  ghost predicate FreeRun(bits: seq<bool>, at: nat, len: nat) {
    forall i: nat | at <= i < at + len :: !Allocated(bits, i)
  }

  /** The least start at or after `lo` of a free run of `len` bits ending within `limit`. */
  ghost function FirstRun(bits: seq<bool>, lo: nat, limit: nat, len: nat): (r: Option<nat>)
    ensures r.Some? ==> lo <= r.value && r.value + len <= limit && FreeRun(bits, r.value, len)
    ensures forall p: nat | lo <= p && p + len <= limit && FreeRun(bits, p, len) :: r.Some? && r.value <= p
    decreases limit - lo
  {
    if lo + len > limit then None
    else if FreeRun(bits, lo, len) then Some(lo)
    else if lo >= limit then None
    else FirstRun(bits, lo + 1, limit, len)
  }

  /** The length of the free run that ends just below `i`. */
  ghost function RunEndingAt(bits: seq<bool>, i: nat): nat {
    if i == 0 || Allocated(bits, i - 1) then 0 else RunEndingAt(bits, i - 1) + 1
  }

  ghost function LargestRun(bits: seq<bool>, count: nat): nat {
    if count == 0 then 0
    else
      var rest, run := LargestRun(bits, count - 1), RunEndingAt(bits, count);
      if rest < run then run else rest
  }

  /** Search `[start, count)`, then the part before `start`. */
  ghost function FindFreeFrom(bits: seq<bool>, count: u32, start: u32): Option<nat> {
    var begin := Min(start, count);
    var after := FirstRun(bits, begin, count, 1);
    if after.Some? then after else FirstRun(bits, 0, begin, 1)
  }

  /** Where the second pass of the contiguous search stops. */
  function SecondPassEnd(count: u32, len: u32, start: u32): u32 {
    Min(SaturatingSub(SaturatingAdd(start, len), 1), count)
  }

  ghost function FindRunFrom(bits: seq<bool>, count: u32, len: u32, start: u32): Option<nat> {
    if len == 0 then Some(0)
    else if len > count then None
    else
      var after := FirstRun(bits, start, count, len);
      if after.Some? then after else FirstRun(bits, 0, SecondPassEnd(count, len, start), len)
  }

  // ----- the loops of the model -----

  method CountFree(bitmap: seq<bv8>, count: u32) returns (free: u32)
    ensures free == FreeBits(Bits(bitmap), count)
  {
    free := 0;
    for idx := 0 to count
      invariant free == FreeBits(Bits(bitmap), idx) <= idx
    {
      GetIsAllocated(bitmap, idx);
      if !Get(bitmap, idx) {
        free := SaturatingAdd(free, 1);
      }
    }
  }

  method RunIsFree(bitmap: seq<bv8>, start: u32, limit: u32, len: u32) returns (isFree: bool)
    ensures isFree == (len <= SaturatingSub(limit, start) && FreeRun(Bits(bitmap), start, len))
  {
    if len > SaturatingSub(limit, start) {
      return false;
    }
    for idx := start to SaturatingAdd(start, len)
      invariant FreeRun(Bits(bitmap), start, idx - start)
    {
      GetIsAllocated(bitmap, idx);
      if Get(bitmap, idx) {
        return false;
      }
    }
    return true;
  }

  method FindFree(bitmap: seq<bv8>, count: u32, start: u32) returns (r: Option<u32>)
    ensures r == FindFreeFrom(Bits(bitmap), count, start)
  {
    var begin := Min(start, count);
    for idx := begin to count
      invariant FirstRun(Bits(bitmap), begin, count, 1) == FirstRun(Bits(bitmap), idx, count, 1)
    {
      GetIsAllocated(bitmap, idx);
      assert FreeRun(Bits(bitmap), idx, 1) == !Get(bitmap, idx);
      if !Get(bitmap, idx) {
        return Some(idx);
      }
    }
    for idx := 0 to begin
      invariant FirstRun(Bits(bitmap), 0, begin, 1) == FirstRun(Bits(bitmap), idx, begin, 1)
    {
      GetIsAllocated(bitmap, idx);
      assert FreeRun(Bits(bitmap), idx, 1) == !Get(bitmap, idx);
      if !Get(bitmap, idx) {
        return Some(idx);
      }
    }
    return None;
  }

  method FindContiguous(bitmap: seq<bv8>, count: u32, len: u32, start: u32) returns (r: Option<u32>)
    ensures r == FindRunFrom(Bits(bitmap), count, len, start)
  {
    if len == 0 {
      return Some(0);
    }
    if len > count {
      return None;
    }
    var pos := start;
    while pos < count
      invariant start <= pos <= count || pos == start
      invariant FirstRun(Bits(bitmap), start, count, len) == FirstRun(Bits(bitmap), pos, count, len)
    {
      var found := RunIsFree(bitmap, pos, count, len);
      if found {
        return Some(pos);
      }
      pos := pos + 1;
    }
    var end := SecondPassEnd(count, len, start);
    for pos := 0 to end
      invariant FirstRun(Bits(bitmap), 0, end, len) == FirstRun(Bits(bitmap), pos, end, len)
    {
      var found := RunIsFree(bitmap, pos, end, len);
      if found {
        return Some(pos);
      }
    }
    return None;
  }

  method LargestFreeRun(bitmap: seq<bv8>, count: u32) returns (best: u32)
    ensures best == LargestRun(Bits(bitmap), count)
  {
    best := 0;
    var run: u32 := 0;
    for idx := 0 to count
      invariant run == RunEndingAt(Bits(bitmap), idx) <= idx
      invariant best == LargestRun(Bits(bitmap), idx) <= idx
    {
      GetIsAllocated(bitmap, idx);
      if Get(bitmap, idx) {
        run := 0;
      } else {
        run := SaturatingAdd(run, 1);
        best := if best < run then run else best;
      }
    }
  }
}
