/** 64-bit words as their bits, least significant first, with the operations the bitmap
    scans use. */
module WordBits {
  import opened AllocBitmap

  type Word = w: seq<bool> | |w| == 64 witness seq(64, _ => false)

  /** `u64::from_le_bytes` of the eight bytes from bit `at`, a byte boundary: little-endian
      bytes with their bits least significant first are a stretch of the bitmap's bits. */
  function LoadWord(bits: seq<bool>, at: nat): Word
    requires at + 64 <= |bits|
  {
    bits[at..at + 64]
  }

  function LoadByte(bits: seq<bool>, at: nat): seq<bool>
    requires at + 8 <= |bits|
  {
    bits[at..at + 8]
  }

  predicate AllSet(w: seq<bool>) { forall k | 0 <= k < |w| :: w[k] }

  predicate AllClear(w: seq<bool>) { forall k | 0 <= k < |w| :: !w[k] }

  function Not(w: seq<bool>): (r: seq<bool>)
    ensures |r| == |w| && forall k | 0 <= k < |w| :: r[k] == !w[k]
  {
    seq(|w|, k requires 0 <= k < |w| => !w[k])
  }

  function And(a: Word, b: Word): (r: Word)
    ensures forall k | 0 <= k < 64 :: r[k] == (a[k] && b[k])
  {
    seq(64, k requires 0 <= k < 64 => a[k] && b[k])
  }

  function ShiftRight(w: Word, s: nat): (r: Word)
    ensures forall k | 0 <= k < 64 :: r[k] == (k + s < 64 && w[k + s])
  {
    seq(64, k requires 0 <= k < 64 => k + s < 64 && w[k + s])
  }

  function ShiftLeft(w: Word, s: nat): (r: Word)
    ensures forall k | 0 <= k < 64 :: r[k] == (s <= k && w[k - s])
  {
    seq(64, k requires 0 <= k < 64 => s <= k && w[k - s])
  }

  /** The number of clear bits below the lowest set bit. */
  function TrailingZeros(w: seq<bool>): (n: nat)
    ensures n <= |w| && (n < |w| ==> w[n])
    ensures forall k | 0 <= k < n :: !w[k]
  {
    if w == [] || w[0] then 0 else 1 + TrailingZeros(w[1..])
  }

  /** The number of clear bits above the highest set bit. */
  function LeadingZeros(w: seq<bool>): (n: nat)
    ensures n <= |w| && (n < |w| ==> w[|w| - 1 - n])
    ensures forall k | |w| - n <= k < |w| :: !w[k]
  {
    if w == [] || w[|w| - 1] then 0 else 1 + LeadingZeros(w[..|w| - 1])
  }

  // ----- full words -----

  ghost predicate NoneFree(bits: seq<bool>, from: nat, to: nat) {
    forall i: nat | from <= i < to :: Allocated(bits, i)
  }

  lemma WordIsFull(bits: seq<bool>, at: nat)
    requires at + 64 <= |bits| && AllSet(LoadWord(bits, at))
    ensures NoneFree(bits, at, at + 64)
  {
    forall i: nat | at <= i < at + 64 ensures Allocated(bits, i) {
      assert LoadWord(bits, at)[i - at];
    }
  }

  /** The conjunction of four adjacent words is all ones. */
  predicate BlockFull(bits: seq<bool>, at: nat)
    requires at + 256 <= |bits|
  {
    AllSet(And(And(LoadWord(bits, at), LoadWord(bits, at + 64)),
               And(LoadWord(bits, at + 128), LoadWord(bits, at + 192))))
  }

  lemma BlockFullMeans(bits: seq<bool>, at: nat)
    requires at + 256 <= |bits|
    ensures BlockFull(bits, at)
            <==> AllSet(LoadWord(bits, at)) && AllSet(LoadWord(bits, at + 64))
                 && AllSet(LoadWord(bits, at + 128)) && AllSet(LoadWord(bits, at + 192))
  {
    var w0, w1, w2, w3 := LoadWord(bits, at), LoadWord(bits, at + 64), LoadWord(bits, at + 128),
        LoadWord(bits, at + 192);
    var all := And(And(w0, w1), And(w2, w3));
    if AllSet(all) {
      forall k | 0 <= k < 64 ensures w0[k] && w1[k] && w2[k] && w3[k] {
        assert all[k];
      }
    }
  }

  lemma BlockIsFull(bits: seq<bool>, at: nat)
    requires at + 256 <= |bits| && BlockFull(bits, at)
    ensures NoneFree(bits, at, at + 256)
  {
    BlockFullMeans(bits, at);
    WordIsFull(bits, at);
    WordIsFull(bits, at + 64);
    WordIsFull(bits, at + 128);
    WordIsFull(bits, at + 192);
  }
}
