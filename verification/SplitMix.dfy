/** The seeded SplitMix64 generator behind the bootstrap of
    `scripts/fuse_vs_kernel_abba_report.py`: a 64-bit counter stepped by an odd
    constant, and an output function that scrambles the counter.

    The results: the output function is a bijection with an explicit inverse, and one
    full period of 2^64 draws from any seed visits every 64-bit value exactly once. */
module SplitMix {

  const GAMMA := 0x9E3779B97F4A7C15
  const MULTIPLIER_1 := 0xBF58476D1CE4E5B9
  const MULTIPLIER_2 := 0x94D049BB133111EB
  const PERIOD := 0x1_0000_0000_0000_0000

  // The inverses modulo 2^64 of the three odd constants.
  const GAMMA_INVERSE := 0xF1DE83E19937733D
  const MULTIPLIER_1_INVERSE := 0x96DE1B173F119089
  const MULTIPLIER_2_INVERSE := 0x319642B2D24D8EC3

  type Word = x: int | 0 <= x < PERIOD

  function Masked(x: int): Word { x % 0x1_0000_0000_0000_0000 }

  function Times(x: Word, m: Word): Word { Masked(x * m) }

  // ----- bit operations on unbounded integers -----

  function Xor(a: nat, b: nat): nat {
    if a == 0 && b == 0 then 0 else 2 * Xor(a / 2, b / 2) + if a % 2 == b % 2 then 0 else 1
  }

  function ShiftRight(z: nat, k: nat): nat {
    if k == 0 then z else ShiftRight(z / 2, k - 1)
  }

  ghost function Pow2(n: nat): nat { if n == 0 then 1 else 2 * Pow2(n - 1) }

  lemma {:induction false} XorBits(a: nat, b: nat)
    ensures Xor(a, b) / 2 == Xor(a / 2, b / 2)
    ensures Xor(a, b) % 2 == if a % 2 == b % 2 then 0 else 1
  {
  }

  lemma {:induction false} XorAssociates(a: nat, b: nat, c: nat)
    ensures Xor(Xor(a, b), c) == Xor(a, Xor(b, c))
  {
    if a > 0 || b > 0 || c > 0 {
      XorBits(a, b);
      XorBits(b, c);
      XorBits(Xor(a, b), c);
      XorBits(a, Xor(b, c));
      XorAssociates(a / 2, b / 2, c / 2);
    }
  }

  lemma {:induction false} XorLaws(a: nat, b: nat)
    ensures Xor(a, a) == 0
    ensures Xor(a, 0) == a
    ensures Xor(a, b) == Xor(b, a)
  {
    if a > 0 || b > 0 {
      XorLaws(a / 2, b / 2);
    }
  }

  lemma {:induction false} ShiftRightOfXor(a: nat, b: nat, k: nat)
    ensures ShiftRight(Xor(a, b), k) == Xor(ShiftRight(a, k), ShiftRight(b, k))
  {
    if k > 0 {
      assert Xor(a, b) / 2 == Xor(a / 2, b / 2);
      ShiftRightOfXor(a / 2, b / 2, k - 1);
    }
  }

  lemma {:induction false} ShiftRightTwice(z: nat, j: nat, k: nat)
    ensures ShiftRight(ShiftRight(z, j), k) == ShiftRight(z, j + k)
  {
    if j > 0 {
      ShiftRightTwice(z / 2, j - 1, k);
    }
  }

  lemma {:induction false} ShiftedOut(z: nat, n: nat, k: nat)
    requires z < Pow2(n) && n <= k
    ensures ShiftRight(z, k) == 0
  {
    if k > 0 {
      ShiftedOut(z / 2, if n == 0 then 0 else n - 1, k - 1);
    }
  }

  lemma {:induction false} XorFits(a: nat, b: nat, n: nat)
    requires a < Pow2(n) && b < Pow2(n)
    ensures Xor(a, b) < Pow2(n)
  {
    if n > 0 {
      XorFits(a / 2, b / 2, n - 1);
    }
  }

  lemma {:induction false} ShiftRightShrinks(z: nat, k: nat)
    ensures ShiftRight(z, k) <= z
  {
    if k > 0 {
      ShiftRightShrinks(z / 2, k - 1);
    }
  }

  lemma TwiceTimes(a: nat, b: nat)
    ensures a * (2 * b) == 2 * (a * b) == (2 * a) * b
  {
  }

  lemma {:induction false} Pow2Adds(m: nat, n: nat)
    ensures Pow2(m + n) == Pow2(m) * Pow2(n)
  {
    if m > 0 {
      Pow2Adds(m - 1, n);
      TwiceTimes(Pow2(m - 1), Pow2(n));
    }
  }

  lemma WordsHave64Bits()
    ensures Pow2(64) == PERIOD
  {
    assert Pow2(4) == 16;
    Pow2Adds(4, 4);
    Pow2Adds(8, 8);
    Pow2Adds(16, 16);
    Pow2Adds(32, 32);
  }

  /** `z ^ (z >> k)` on a word. */
  function XorShift(z: Word, k: nat): Word {
    WordsHave64Bits();
    ShiftRightShrinks(z, k);
    XorFits(z, ShiftRight(z, k), 64);
    Xor(z, ShiftRight(z, k))
  }

  /** Undoes `XorShift` for a shift so long that a third copy of the word is shifted out. */
  function UnXorShift(y: Word, k: nat): Word {
    XorShift(XorShift(y, k), 2 * k)
  }

  lemma XorShiftTwice(z: Word, j: nat, k: nat)
    ensures XorShift(XorShift(z, j), k) == Xor(Xor(z, ShiftRight(z, j)), Xor(ShiftRight(z, k), ShiftRight(z, j + k)))
  {
    ShiftRightOfXor(z, ShiftRight(z, j), k);
    ShiftRightTwice(z, j, k);
  }

  lemma XorShiftsCommute(z: Word, j: nat, k: nat)
    ensures XorShift(XorShift(z, j), k) == XorShift(XorShift(z, k), j)
  {
    XorShiftTwice(z, j, k);
    XorShiftTwice(z, k, j);
    var a, b, c := ShiftRight(z, j), ShiftRight(z, k), ShiftRight(z, j + k);
    calc {
      Xor(Xor(z, a), Xor(b, c));
      { XorAssociates(z, a, Xor(b, c)); XorAssociates(a, b, c); }
      Xor(z, Xor(Xor(a, b), c));
      { XorLaws(a, b); XorAssociates(b, a, c); }
      Xor(z, Xor(b, Xor(a, c)));
      { XorAssociates(z, b, Xor(a, c)); }
      Xor(Xor(z, b), Xor(a, c));
    }
  }

  /** Repeating a xor-shift doubles its distance. */
  lemma XorShiftSquares(z: Word, k: nat)
    ensures XorShift(XorShift(z, k), k) == XorShift(z, 2 * k)
  {
    XorShiftTwice(z, k, k);
    var a, c := ShiftRight(z, k), ShiftRight(z, 2 * k);
    calc {
      Xor(Xor(z, a), Xor(a, c));
      { XorAssociates(z, a, Xor(a, c)); XorAssociates(a, a, c); XorLaws(a, a); }
      Xor(z, Xor(0, c));
      { XorLaws(0, c); XorLaws(c, 0); }
      Xor(z, c);
    }
  }

  lemma XorShiftRoundTrips(z: Word, k: nat)
    requires 4 * k >= 64
    ensures UnXorShift(XorShift(z, k), k) == z
    ensures XorShift(UnXorShift(z, k), k) == z
  {
    WordsHave64Bits();
    XorShiftSquares(z, k);
    XorShiftsCommute(XorShift(z, k), 2 * k, k);
    XorShiftSquares(z, 2 * k);
    ShiftedOut(z, 64, 4 * k);
    XorLaws(z, 0);
  }

  function Mix(s: Word): Word {
    var z1 := Times(XorShift(s, 30), MULTIPLIER_1);
    var z2 := Times(XorShift(z1, 27), MULTIPLIER_2);
    XorShift(z2, 31)
  }

  function Unmix(r: Word): Word {
    var z2 := Times(UnXorShift(r, 31), MULTIPLIER_2_INVERSE);
    var z1 := Times(UnXorShift(z2, 27), MULTIPLIER_1_INVERSE);
    UnXorShift(z1, 30)
  }

  // ----- arithmetic modulo 2^64 -----

  lemma MaskedIsUnique(x: int, q: int, r: Word)
    requires x == q * PERIOD + r
    ensures Masked(x) == r
  {
  }

  lemma MaskedMultiple(x: int, k: int)
    ensures Masked(x + k * PERIOD) == Masked(x)
  {
    MaskedIsUnique(x + k * PERIOD, x / PERIOD + k, Masked(x));
  }

  lemma MaskedAbsorbs(x: int, y: int)
    ensures Masked(Masked(x) + y) == Masked(x + y)
    ensures Masked(Masked(x) * y) == Masked(x * y)
  {
    var q := x / PERIOD;
    assert x == q * PERIOD + Masked(x);
    MaskedMultiple(Masked(x) + y, q);
    assert x * y == Masked(x) * y + (q * y) * PERIOD;
    MaskedMultiple(Masked(x) * y, q * y);
  }

  /** Multiplying by an odd constant modulo 2^64 is undone by its inverse. */
  lemma MultiplyInverts(x: int, m: int, inverse: int)
    requires Masked(m * inverse) == 1
    ensures Masked(Masked(x * m) * inverse) == Masked(x)
  {
    MaskedAbsorbs(x * m, inverse);
    var k := (m * inverse) / PERIOD;
    assert m * inverse == k * PERIOD + 1;
    assert x * m * inverse == x * (k * PERIOD + 1) == x + (x * k) * PERIOD;
    MaskedMultiple(x, x * k);
  }

  /** Word multiplication by each constant and by its inverse cancel, in both orders. */
  lemma MultipliersInvert(x: Word)
    ensures Times(Times(x, MULTIPLIER_1), MULTIPLIER_1_INVERSE) == x
    ensures Times(Times(x, MULTIPLIER_1_INVERSE), MULTIPLIER_1) == x
    ensures Times(Times(x, MULTIPLIER_2), MULTIPLIER_2_INVERSE) == x
    ensures Times(Times(x, MULTIPLIER_2_INVERSE), MULTIPLIER_2) == x
  {
    MultiplyInverts(x, MULTIPLIER_1, MULTIPLIER_1_INVERSE);
    MultiplyInverts(x, MULTIPLIER_1_INVERSE, MULTIPLIER_1);
    MultiplyInverts(x, MULTIPLIER_2, MULTIPLIER_2_INVERSE);
    MultiplyInverts(x, MULTIPLIER_2_INVERSE, MULTIPLIER_2);
  }

  /** The output function is a bijection on 64-bit words. */
  lemma MixIsInvertible(s: Word)
    ensures Unmix(Mix(s)) == s
    ensures Mix(Unmix(s)) == s
  {
    UnmixOfMix(s);
    MixOfUnmix(s);
  }

  lemma UnmixOfMix(s: Word)
    ensures Unmix(Mix(s)) == s
  {
    var x1 := XorShift(s, 30);
    var z1 := Times(x1, MULTIPLIER_1);
    var x2 := XorShift(z1, 27);
    var z2 := Times(x2, MULTIPLIER_2);
    XorShiftRoundTrips(z2, 31);
    MultipliersInvert(x2);
    XorShiftRoundTrips(z1, 27);
    MultipliersInvert(x1);
    XorShiftRoundTrips(s, 30);
  }

  lemma MixOfUnmix(r: Word)
    ensures Mix(Unmix(r)) == r
  {
    var x2 := UnXorShift(r, 31);
    var z2 := Times(x2, MULTIPLIER_2_INVERSE);
    var x1 := UnXorShift(z2, 27);
    var z1 := Times(x1, MULTIPLIER_1_INVERSE);
    XorShiftRoundTrips(z1, 30);
    MultipliersInvert(x1);
    XorShiftRoundTrips(z2, 27);
    MultipliersInvert(x2);
    XorShiftRoundTrips(r, 31);
  }

  /** The counter after `n` draws. */
  function StateAfter(seed: Word, n: nat): Word {
    if n == 0 then seed else Masked(StateAfter(seed, n - 1) + GAMMA)
  }

  /** Draw number `i`, counted from zero. */
  function Draw(seed: Word, i: nat): Word {
    Mix(StateAfter(seed, i + 1))
  }

  /** How often the counter was stepped to get from `seed` to `state`, less one. */
  function StepsBefore(seed: Word, state: Word): Word {
    Masked(Times(Masked(state - seed), GAMMA_INVERSE) - 1)
  }

  /** The draw number at which `value` comes out of the generator. */
  function DrawNumber(seed: Word, value: Word): Word {
    StepsBefore(seed, Unmix(value))
  }

  lemma CounterSteps(state: int, seed: Word, n: nat)
    requires Masked(state) == StateAfter(seed, n)
    ensures Masked(state + GAMMA) == StateAfter(seed, n + 1) == Masked(StateAfter(seed, n + 1))
  {
    MaskedAbsorbs(state, GAMMA);
  }

  lemma {:induction false} StateClosedForm(seed: Word, n: nat)
    ensures StateAfter(seed, n) == Masked(seed + n * GAMMA)
  {
    if n > 0 {
      StateClosedForm(seed, n - 1);
      MaskedAbsorbs(seed + (n - 1) * GAMMA, GAMMA);
    }
  }

  lemma ScaleBounds(z: nat, q: nat, d: nat)
    requires q * d <= z / 2 < (q + 1) * d
    ensures q * (2 * d) <= z < (q + 1) * (2 * d)
  {
    TwiceTimes(q, d);
    TwiceTimes(q + 1, d);
  }

  /** Shifting right by `k` divides by two to the `k`, rounding down. */
  lemma {:induction false} ShiftRightDivides(z: nat, k: nat)
    ensures ShiftRight(z, k) * Pow2(k) <= z < (ShiftRight(z, k) + 1) * Pow2(k)
  {
    if k > 0 {
      ShiftRightDivides(z / 2, k - 1);
      var shifted := ShiftRight(z, k);
      ScaleBounds(z, shifted, Pow2(k - 1));
    }
  }

  predicate BitOf(z: nat, i: nat) { ShiftRight(z, i) % 2 == 1 }

  /** Each bit of a xor-shift is the bit there, flipped if the one `k` places up is set. */
  lemma XorShiftByBits(z: Word, k: nat, i: nat)
    ensures BitOf(XorShift(z, k), i) <==> BitOf(z, i) != BitOf(z, i + k)
  {
    ShiftRightOfXor(z, ShiftRight(z, k), i);
    ShiftRightTwice(z, k, i);
    XorBits(ShiftRight(z, i), ShiftRight(z, i + k));
  }

  /** A draw in numbers: the counter stepped to it, then two xor-shifts with a multiplication after
      each and a third without. */
  lemma DrawInNumbers(seed: Word, i: nat, state: Word, z1: Word, z2: Word)
    requires state == (seed + (i + 1) * 0x9E3779B97F4A7C15) % 0x1_0000_0000_0000_0000
    requires z1 == (XorShift(state, 30) * 0xBF58476D1CE4E5B9) % 0x1_0000_0000_0000_0000
    requires z2 == (XorShift(z1, 27) * 0x94D049BB133111EB) % 0x1_0000_0000_0000_0000
    ensures Draw(seed, i) == XorShift(z2, 31)
  {
    StateClosedForm(seed, i + 1);
  }

  lemma DistanceIsSteps(seed: Word, n: nat)
    ensures Masked(StateAfter(seed, n) - seed) == Masked(n * GAMMA)
  {
    StateClosedForm(seed, n);
    MaskedAbsorbs(seed + n * GAMMA, -(seed as int));
  }

  lemma StepsInvertState(seed: Word, i: nat)
    requires i < PERIOD
    ensures StepsBefore(seed, StateAfter(seed, i + 1)) == i
  {
    var n: int := i + 1;
    DistanceIsSteps(seed, n);
    MultiplyInverts(n, GAMMA, GAMMA_INVERSE);
    assert StepsBefore(seed, StateAfter(seed, n)) == Masked(Masked(n) - 1);
    OneStepBack(i);
  }

  lemma OneStepBack(i: nat)
    requires i < PERIOD
    ensures Masked(Masked(i + 1) - 1) == i
  {
    MaskedAbsorbs(i + 1, -1);
  }

  lemma StepsAfterSteps(seed: Word, state: Word)
    ensures Masked(StepsBefore(seed, state) + 1) == Times(Masked(state - seed), GAMMA_INVERSE)
  {
    var steps: int := Times(Masked(state - seed), GAMMA_INVERSE);
    MaskedAbsorbs(steps - 1, 1);
  }

  lemma StepsCoverDistance(d: Word, n: int)
    requires Masked(n) == Times(d, GAMMA_INVERSE)
    ensures Masked(n * GAMMA) == d
  {
    MaskedAbsorbs(n, GAMMA);
    MultiplyInverts(d, GAMMA_INVERSE, GAMMA);
  }

  lemma DistanceReachesState(seed: Word, state: Word, distance: int)
    requires Masked(distance) == Masked(state - seed)
    ensures Masked(seed + distance) == state
  {
    MaskedIsUnique(seed + distance, distance / PERIOD - (state - seed) / PERIOD, state);
  }

  lemma StateInvertsSteps(seed: Word, state: Word)
    ensures StateAfter(seed, StepsBefore(seed, state) + 1) == state
  {
    var n: int := StepsBefore(seed, state) + 1;
    StepsAfterSteps(seed, state);
    StepsCoverDistance(Masked(state - seed), n);
    DistanceReachesState(seed, state, n * GAMMA);
    StateClosedForm(seed, n);
  }

  /** Every output names the draw that produced it. */
  lemma DrawNumberInvertsDraw(seed: Word, i: nat)
    requires i < PERIOD
    ensures DrawNumber(seed, Draw(seed, i)) == i
  {
    MixIsInvertible(StateAfter(seed, i + 1));
    StepsInvertState(seed, i);
  }

  /** Every word is drawn, at the draw number computed from it. */
  lemma DrawInvertsDrawNumber(seed: Word, value: Word)
    ensures Draw(seed, DrawNumber(seed, value)) == value
  {
    StateInvertsSteps(seed, Unmix(value));
    MixIsInvertible(value);
  }

  /** One period from any seed is a permutation of all 64-bit words. */
  lemma OnePeriodVisitsEveryWordOnce(seed: Word, value: Word)
    ensures exists i: Word :: Draw(seed, i) == value && forall j: nat :: j < PERIOD && Draw(seed, j) == value ==> j == i
  {
    var i := DrawNumber(seed, value);
    DrawInvertsDrawNumber(seed, value);
    forall j: nat | j < PERIOD && Draw(seed, j) == value ensures j == i {
      DrawNumberInvertsDraw(seed, j);
    }
  }

  /** The next period repeats the last one. */
  lemma DrawsRepeatAfterOnePeriod(seed: Word, i: nat)
    ensures Draw(seed, i + PERIOD) == Draw(seed, i)
  {
    StateClosedForm(seed, i + 1);
    StateClosedForm(seed, i + 1 + PERIOD);
    MaskedMultiple(seed + (i + 1) * GAMMA, GAMMA);
  }

  /** The closure: `state` is the captured counter. The seed may be any integer; the
      mask of the first call reduces it. */
  class Generator {
    var state: int
    ghost const seed: Word
    ghost var drawn: nat

    ghost predicate Valid() reads this { Masked(state) == StateAfter(seed, drawn) }

    constructor (start: int)
      ensures Valid() && drawn == 0 && seed == Masked(start)
    {
      state := start;
      seed := Masked(start);
      drawn := 0;
    }

    method Next() returns (r: Word)
      requires Valid()
      modifies this
      ensures Valid() && drawn == old(drawn) + 1
      ensures r == Draw(seed, old(drawn))
    {
      CounterSteps(state, seed, drawn);
      var s := Masked(state + GAMMA);
      state := s;
      drawn := drawn + 1;
      r := Mix(s);
    }
  }
}
