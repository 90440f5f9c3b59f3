/** The load gates that decide whether a benchmark window counts: the strict replay of
    `scripts/external_load_calibration.py`, the storm-scoped probe of
    `scripts/iowait_population_probe.py`, and the in-run excursion check of
    `scripts/host_stability.py`. Fractions are exact. */
module LoadGates {
  import opened Wrappers

  // ----- runs -----

  /** Some `k` adjacent samples are all set. */
  ghost predicate HasRun(flags: seq<bool>, k: nat) {
    exists i :: 0 <= i <= |flags| - k && SetFrom(flags, i, k)
  }

  ghost predicate SetFrom(flags: seq<bool>, i: nat, k: nat) {
    i + k <= |flags| && forall j | i <= j < i + k :: flags[j]
  }

  ghost predicate IsLongestRun(flags: seq<bool>, best: nat) { HasRun(flags, best) && !HasRun(flags, best + 1) }

  function CountSet(flags: seq<bool>): nat {
    if flags == [] then 0 else (if flags[|flags| - 1] then 1 else 0) + CountSet(flags[..|flags| - 1])
  }

  /** The run that ends at the last sample. */
  ghost function Trailing(flags: seq<bool>): (k: nat)
    ensures k <= |flags| && forall j | |flags| - k <= j < |flags| :: flags[j]
    ensures k < |flags| ==> !flags[|flags| - k - 1]
  {
    if flags == [] || !flags[|flags| - 1] then 0 else Trailing(flags[..|flags| - 1]) + 1
  }

  lemma TrailingOfAppend(flags: seq<bool>, flag: bool)
    ensures Trailing(flags + [flag]) == if flag then Trailing(flags) + 1 else 0
  {
    assert (flags + [flag])[..|flags|] == flags;
  }

  lemma {:induction false} TrailingCovers(flags: seq<bool>, k: nat)
    requires k <= |flags| && forall j | |flags| - k <= j < |flags| :: flags[j]
    ensures k <= Trailing(flags)
  {
    if k > 0 {
      TrailingCovers(flags[..|flags| - 1], k - 1);
    }
  }

  lemma RunOfAppend(flags: seq<bool>, flag: bool, k: nat)
    ensures HasRun(flags + [flag], k) <==> HasRun(flags, k) || k <= Trailing(flags + [flag])
  {
    var more := flags + [flag];
    var run := Trailing(more);
    if HasRun(flags, k) {
      var i :| 0 <= i <= |flags| - k && SetFrom(flags, i, k);
      assert SetFrom(more, i, k);
    }
    if k <= run {
      assert SetFrom(more, |more| - k, k);
    }
    if HasRun(more, k) {
      var i :| 0 <= i <= |more| - k && SetFrom(more, i, k);
      if i + k <= |flags| {
        forall j | i <= j < i + k ensures flags[j] {
          assert more[j];
        }
        assert SetFrom(flags, i, k);
      } else {
        TrailingCovers(more, k);
      }
    }
  }

  lemma LongestOfAppend(flags: seq<bool>, flag: bool, best: nat)
    requires IsLongestRun(flags, best)
    ensures var run := Trailing(flags + [flag]); IsLongestRun(flags + [flag], if run > best then run else best)
  {
    var run := Trailing(flags + [flag]);
    var best' := if run > best then run else best;
    RunOfAppend(flags, flag, best');
    RunOfAppend(flags, flag, best' + 1);
    if HasRun(flags, best' + 1) {
      RunsNest(flags, best + 1, best' + 1);
    }
  }

  /** One more sample: the counters stay right. */
  lemma RunStep(flags: seq<bool>, i: nat, best: nat)
    requires i < |flags| && IsLongestRun(flags[..i], best)
    ensures Trailing(flags[..i + 1]) == if flags[i] then Trailing(flags[..i]) + 1 else 0
    ensures var run := Trailing(flags[..i + 1]); IsLongestRun(flags[..i + 1], if run > best then run else best)
    ensures CountSet(flags[..i + 1]) == CountSet(flags[..i]) + if flags[i] then 1 else 0
  {
    var before, flag := flags[..i], flags[i];
    assert flags[..i + 1] == before + [flag];
    TrailingOfAppend(before, flag);
    LongestOfAppend(before, flag, best);
    CountOfAppend(before, flag);
  }

  /** The counters after the first `n` samples. */
  ghost predicate Tallied(flags: seq<bool>, n: nat, count: nat, run: nat, best: nat) {
    n <= |flags| && count == CountSet(flags[..n]) && run == Trailing(flags[..n]) && IsLongestRun(flags[..n], best)
  }

  lemma TallyStep(flags: seq<bool>, n: nat, count: nat, run: nat, best: nat)
    requires Tallied(flags, n, count, run, best) && n < |flags|
    ensures if flags[n] then Tallied(flags, n + 1, count + 1, run + 1, if run + 1 > best then run + 1 else best)
            else Tallied(flags, n + 1, count, 0, best)
  {
    RunStep(flags, n, best);
  }

  lemma CountStep(flags: seq<bool>, i: nat)
    requires i < |flags|
    ensures CountSet(flags[..i + 1]) == CountSet(flags[..i]) + if flags[i] then 1 else 0
  {
    assert flags[..i + 1][..i] == flags[..i];
  }

  lemma CountOfAppend(flags: seq<bool>, flag: bool)
    ensures CountSet(flags + [flag]) == CountSet(flags) + if flag then 1 else 0
  {
    assert (flags + [flag])[..|flags|] == flags;
  }

  lemma RunsNest(flags: seq<bool>, k: nat, n: nat)
    requires k <= n && HasRun(flags, n)
    ensures HasRun(flags, k)
  {
    var i :| 0 <= i <= |flags| - n && SetFrom(flags, i, n);
    assert SetFrom(flags, i, k);
  }

  lemma LongestRunDecides(flags: seq<bool>, best: nat, k: nat)
    requires IsLongestRun(flags, best)
    ensures HasRun(flags, k) <==> k <= best
  {
    if k <= best {
      RunsNest(flags, k, best);
    } else if HasRun(flags, k) {
      RunsNest(flags, best + 1, k);
    }
  }

  method LongestRun(flags: seq<bool>) returns (best: nat)
    ensures IsLongestRun(flags, best)
  {
    var run := 0;
    best := 0;
    assert SetFrom([], 0, 0);
    for i := 0 to |flags|
      invariant run == Trailing(flags[..i]) && IsLongestRun(flags[..i], best)
    {
      RunStep(flags, i, best);
      run := if flags[i] then run + 1 else 0;
      best := if run > best then run else best;
    }
    assert flags[..|flags|] == flags;
  }

  // ----- the verdict -----

  const MAX_CONSECUTIVE := 3

  /** At most a tenth of the samples contended, and no three in a row. */
  ghost predicate Clean(flags: seq<bool>) {
    10 * CountSet(flags) <= |flags| && !HasRun(flags, MAX_CONSECUTIVE)
  }

  ghost predicate Implies(a: seq<bool>, b: seq<bool>) { |a| == |b| && forall i | 0 <= i < |a| :: a[i] ==> b[i] }

  lemma {:induction false} CountIsMonotone(a: seq<bool>, b: seq<bool>)
    requires Implies(a, b)
    ensures CountSet(a) <= CountSet(b)
  {
    if a != [] {
      CountIsMonotone(a[..|a| - 1], b[..|b| - 1]);
    }
  }

  /** A gate that calls fewer samples contended is clean whenever a stricter one is. */
  lemma StricterGateRefines(a: seq<bool>, b: seq<bool>)
    requires Implies(a, b) && Clean(b)
    ensures Clean(a)
  {
    CountIsMonotone(a, b);
    if HasRun(a, MAX_CONSECUTIVE) {
      var i :| 0 <= i <= |a| - MAX_CONSECUTIVE && SetFrom(a, i, MAX_CONSECUTIVE);
      assert SetFrom(b, i, MAX_CONSECUTIVE);
    }
  }

  // ----- the strict replay -----

  /** How many CPUs are busier than `frac`. */
  function BusyCpus(row: seq<real>, frac: real): nat {
    if row == [] then 0 else (if row[0] > frac then 1 else 0) + BusyCpus(row[1..], frac)
  }

  function Contended(rows: seq<seq<real>>, frac: real, limit: nat): seq<bool> {
    seq(|rows|, i requires 0 <= i < |rows| => BusyCpus(rows[i], frac) > limit)
  }

  method Verdict(rows: seq<seq<real>>, frac: real, limit: nat) returns (contended: nat, best: nat, clean: bool)
    ensures contended == CountSet(Contended(rows, frac, limit))
    ensures IsLongestRun(Contended(rows, frac, limit), best)
    ensures clean <==> Clean(Contended(rows, frac, limit))
  {
    var flags := Contended(rows, frac, limit);
    best := LongestRun(flags);
    contended := CountSet(flags);
    var n := if |rows| == 0 then 1 else |rows|;
    clean := 10 * contended <= n && best < MAX_CONSECUTIVE;
    LongestRunDecides(flags, best, MAX_CONSECUTIVE);
  }

  lemma {:induction false} BusyIsAntitone(row: seq<real>, low: real, high: real)
    requires low <= high
    ensures BusyCpus(row, high) <= BusyCpus(row, low)
  {
    if row != [] {
      BusyIsAntitone(row[1..], low, high);
    }
  }

  // ----- the counts as sizes of sets -----

  ghost function SetAt(flags: seq<bool>): set<nat> { set i: nat | i < |flags| && flags[i] }

  ghost function Above(row: seq<real>, frac: real): set<nat> { set i: nat | i < |row| && row[i] > frac }

  lemma {:induction false} CountIsSize(flags: seq<bool>)
    ensures CountSet(flags) == |SetAt(flags)|
  {
    if flags == [] {
      assert SetAt(flags) == {};
    } else {
      var last := |flags| - 1;
      CountIsSize(flags[..last]);
      assert SetAt(flags) == SetAt(flags[..last]) + if flags[last] then {last} else {};
    }
  }

  lemma {:induction false} BusyOfAppend(row: seq<real>, share: real, frac: real)
    ensures BusyCpus(row + [share], frac) == BusyCpus(row, frac) + if share > frac then 1 else 0
  {
    if row != [] {
      assert (row + [share])[1..] == row[1..] + [share];
      BusyOfAppend(row[1..], share, frac);
    }
  }

  /** The busy CPUs are those above the fraction. */
  lemma {:induction false} BusyIsSize(row: seq<real>, frac: real)
    ensures BusyCpus(row, frac) == |Above(row, frac)|
  {
    if row == [] {
      assert Above(row, frac) == {};
    } else {
      var last := |row| - 1;
      BusyIsSize(row[..last], frac);
      BusyOfAppend(row[..last], row[last], frac);
      assert row == row[..last] + [row[last]];
      assert Above(row, frac) == Above(row[..last], frac) + if row[last] > frac then {last} else {};
    }
  }

  /** Of the samples at most a tenth are bad, and no three in a row. */
  ghost predicate Tolerable(bad: set<nat>, samples: nat) {
    10 * |bad| <= samples && forall i: nat | i + 2 < samples :: !(i in bad && i + 1 in bad && i + 2 in bad)
  }

  lemma CleanMeans(flags: seq<bool>)
    ensures Clean(flags) <==> Tolerable(SetAt(flags), |flags|)
  {
    CountIsSize(flags);
    if i: nat :| i + 2 < |flags| && i in SetAt(flags) && i + 1 in SetAt(flags) && i + 2 in SetAt(flags) {
      assert SetFrom(flags, i, 3);
    }
    if HasRun(flags, MAX_CONSECUTIVE) {
      var i :| 0 <= i <= |flags| - 3 && SetFrom(flags, i, 3);
      assert i in SetAt(flags) && i + 1 in SetAt(flags) && i + 2 in SetAt(flags);
    }
  }

  /** The strict verdict in terms of the shares themselves. */
  lemma VerdictMeans(rows: seq<seq<real>>, frac: real, limit: nat)
    ensures Clean(Contended(rows, frac, limit))
            <==> Tolerable(set i: nat | i < |rows| && |Above(rows[i], frac)| > limit, |rows|)
  {
    var flags := Contended(rows, frac, limit);
    CleanMeans(flags);
    forall i: nat | i < |rows| ensures flags[i] <==> |Above(rows[i], frac)| > limit {
      BusyIsSize(rows[i], frac);
    }
    assert SetAt(flags) == set i: nat | i < |rows| && |Above(rows[i], frac)| > limit;
  }

  /** Raising the busy fraction or the CPU limit never turns a clean window away. */
  lemma CleanIsMonotone(rows: seq<seq<real>>, frac: real, limit: nat, frac': real, limit': nat)
    requires frac <= frac' && limit <= limit' && Clean(Contended(rows, frac, limit))
    ensures Clean(Contended(rows, frac', limit'))
  {
    forall i | 0 <= i < |rows| ensures BusyCpus(rows[i], frac') <= BusyCpus(rows[i], frac) {
      BusyIsAntitone(rows[i], frac, frac');
    }
    StricterGateRefines(Contended(rows, frac', limit'), Contended(rows, frac, limit));
  }

  /** The busy share of one CPU between two readings; no progress counts as fully busy. */
  function BusyFraction(total0: int, idle0: int, total1: int, idle1: int): (busy: real)
    ensures 0.0 <= busy <= 1.0
  {
    var total := Max(total1 - total0, 0);
    if total == 0 then 1.0
    else
      var used := Max(total - Max(idle1 - idle0, 0), 0);
      ShareIsBounded(used, total);
      used as real / total as real
  }

  /** A CPU that made progress is busy for the part of it that was not idle; one that made none, or was not
      idle at all, is fully busy. */
  lemma BusyFractionMeans(total0: int, idle0: int, total1: int, idle1: int)
    ensures total1 <= total0 || idle1 <= idle0 ==> BusyFraction(total0, idle0, total1, idle1) == 1.0
    ensures total0 < total1 && 0 <= idle1 - idle0 <= total1 - total0 ==>
              BusyFraction(total0, idle0, total1, idle1) * (total1 - total0) as real
              == ((total1 - total0) - (idle1 - idle0)) as real
    ensures total0 < total1 && idle1 - idle0 >= total1 - total0 ==> BusyFraction(total0, idle0, total1, idle1) == 0.0
  {
  }

  function Max(a: int, b: int): int { if a > b then a else b }

  lemma ShareIsBounded(part: nat, whole: nat)
    requires part <= whole && 0 < whole
    ensures 0.0 <= part as real / whole as real <= 1.0
  {
    assert part as real / whole as real <= whole as real / whole as real;
  }

  // ----- the storm-scoped probe -----

  const EXTERNAL_BUSY := 0.25
  const MAX_BUSY_CPUS: nat := 4
  const MAX_BUSY_CPUS_IN_STORM: nat := 2
  const STORM_IOWAIT := 0.10

  /** One sample of the CPUs outside the benchmark's placement. */
  datatype Sample = Sample(busy: seq<real>, iowait: seq<real>)

  function SumOf(xs: seq<real>): real { if xs == [] then 0.0 else xs[0] + SumOf(xs[1..]) }

  function Mean(xs: seq<real>): real { if xs == [] then 0.0 else SumOf(xs) / |xs| as real }

  predicate InStorm(s: Sample) { Mean(s.iowait) > STORM_IOWAIT }

  function EffectiveLimit(s: Sample): nat { if InStorm(s) then MAX_BUSY_CPUS_IN_STORM else MAX_BUSY_CPUS }

  predicate OverLimit(s: Sample) { BusyCpus(s.busy, EXTERNAL_BUSY) > EffectiveLimit(s) }

  function Scoped(samples: seq<Sample>): seq<bool> {
    seq(|samples|, i requires 0 <= i < |samples| => OverLimit(samples[i]))
  }

  function Rows(samples: seq<Sample>): seq<seq<real>> {
    seq(|samples|, i requires 0 <= i < |samples| => samples[i].busy)
  }

  function Storms(samples: seq<Sample>): seq<bool> {
    seq(|samples|, i requires 0 <= i < |samples| => InStorm(samples[i]))
  }

  method Probe(samples: seq<Sample>) returns (overLimit: nat, maxConsecutive: nat, stormSamples: nat, clean: bool)
    ensures overLimit == CountSet(Scoped(samples))
    ensures IsLongestRun(Scoped(samples), maxConsecutive)
    ensures stormSamples == CountSet(Storms(samples))
    ensures clean <==> Clean(Scoped(samples))
  {
    ghost var flags, storms := Scoped(samples), Storms(samples);
    var consecutive := 0;
    overLimit, maxConsecutive, stormSamples := 0, 0, 0;
    assert SetFrom([], 0, 0);
    for i := 0 to |samples|
      invariant stormSamples == CountSet(storms[..i])
      invariant Tallied(flags, i, overLimit, consecutive, maxConsecutive)
    {
      TallyStep(flags, i, overLimit, consecutive, maxConsecutive);
      CountStep(storms, i);
      var limit := MAX_BUSY_CPUS;
      if InStorm(samples[i]) {
        stormSamples := stormSamples + 1;
        limit := if MAX_BUSY_CPUS < MAX_BUSY_CPUS_IN_STORM then MAX_BUSY_CPUS else MAX_BUSY_CPUS_IN_STORM;
      }
      if BusyCpus(samples[i].busy, EXTERNAL_BUSY) > limit {
        overLimit, consecutive := overLimit + 1, consecutive + 1;
        maxConsecutive := if consecutive > maxConsecutive then consecutive else maxConsecutive;
      } else {
        consecutive := 0;
      }
    }
    assert flags[..|samples|] == flags && storms[..|samples|] == storms;
    clean := (|samples| == 0 || 10 * overLimit <= |samples|) && maxConsecutive < MAX_CONSECUTIVE;
    LongestRunDecides(flags, maxConsecutive, MAX_CONSECUTIVE);
  }

  lemma {:induction false} SumOfAppend(xs: seq<real>, x: real)
    ensures SumOf(xs + [x]) == SumOf(xs) + x
  {
    if xs != [] {
      assert (xs + [x])[1..] == xs[1..] + [x];
      SumOfAppend(xs[1..], x);
    }
  }

  /** A sample is in a storm when its CPUs waited, added up, more than a tenth of their number. */
  lemma StormMeans(s: Sample)
    ensures InStorm(s) <==> s.iowait != [] && 10.0 * SumOf(s.iowait) > |s.iowait| as real
  {
    if s.iowait != [] {
      var n := |s.iowait| as real;
      assert Mean(s.iowait) * n == SumOf(s.iowait);
      ScaledCompare(Mean(s.iowait), n);
    }
  }

  lemma ScaledCompare(mean: real, n: real)
    requires n > 0.0
    ensures mean > 0.1 <==> 10.0 * (mean * n) > n
  {
    assert 10.0 * (mean * n) - n == (10.0 * mean - 1.0) * n;
  }

  /** The storm-scoped verdict in terms of the shares themselves: two busy CPUs are tolerated in a storm and
      four otherwise. */
  lemma ProbeMeans(samples: seq<Sample>)
    ensures Clean(Scoped(samples))
            <==> Tolerable(set i: nat | i < |samples|
                                        && |Above(samples[i].busy, 0.25)| > if InStorm(samples[i]) then 2 else 4,
                           |samples|)
  {
    var flags := Scoped(samples);
    CleanMeans(flags);
    forall i: nat | i < |samples|
      ensures flags[i] <==> |Above(samples[i].busy, 0.25)| > if InStorm(samples[i]) then 2 else 4
    {
      BusyIsSize(samples[i].busy, 0.25);
    }
    assert SetAt(flags) == set i: nat | i < |samples|
                                        && |Above(samples[i].busy, 0.25)| > if InStorm(samples[i]) then 2 else 4;
  }

  /** The storm rule lies between the two strict replays: it never admits a window the relaxed
      limit refuses, nor refuses one the storm limit admits. */
  lemma StormRuleIsSandwiched(samples: seq<Sample>)
    ensures Clean(Contended(Rows(samples), EXTERNAL_BUSY, MAX_BUSY_CPUS_IN_STORM)) ==> Clean(Scoped(samples))
    ensures Clean(Scoped(samples)) ==> Clean(Contended(Rows(samples), EXTERNAL_BUSY, MAX_BUSY_CPUS))
  {
    var strict, relaxed := Contended(Rows(samples), EXTERNAL_BUSY, MAX_BUSY_CPUS_IN_STORM),
        Contended(Rows(samples), EXTERNAL_BUSY, MAX_BUSY_CPUS);
    if Clean(strict) {
      StricterGateRefines(Scoped(samples), strict);
    }
    if Clean(Scoped(samples)) {
      StricterGateRefines(relaxed, Scoped(samples));
    }
  }

  /** Without a storm the rule is the relaxed replay, and in a storm throughout it is the strict
      one. */
  lemma StormRuleAtItsEnds(samples: seq<Sample>)
    ensures (forall s | s in samples :: !InStorm(s))
            ==> Scoped(samples) == Contended(Rows(samples), EXTERNAL_BUSY, MAX_BUSY_CPUS)
    ensures (forall s | s in samples :: InStorm(s))
            ==> Scoped(samples) == Contended(Rows(samples), EXTERNAL_BUSY, MAX_BUSY_CPUS_IN_STORM)
  {
    forall i | 0 <= i < |samples| ensures samples[i] in samples {
    }
  }

  // ----- the excursion check -----

  const RUN_CEILING_MULTIPLE := 1.5

  function MaxReal(a: real, b: real): real { if a > b then a else b }

  function MinReal(a: real, b: real): real { if a < b then a else b }

  /** The load past which a run is in danger; `admission` is the ceiling for starting one. */
  function Threshold(launch: real, factor: real, admission: real): real { MaxReal(launch * factor, admission) }

  function InRunCeiling(ceiling: Option<real>, admission: real): real {
    match ceiling
    case None => admission * RUN_CEILING_MULTIPLE
    case Some(c) => c
  }

  function Exceeding(samples: seq<real>, limit: real): seq<bool> {
    seq(|samples|, i requires 0 <= i < |samples| => samples[i] > limit)
  }

  /** The lower of the two limits on a run in progress. */
  function Limit(launch: real, factor: real, admission: real, ceiling: Option<real>): real {
    MinReal(Threshold(launch, factor, admission), InRunCeiling(ceiling, admission))
  }

  /** Enough adjacent samples exceed the lower of the two limits; even when none are asked for,
      it takes one. */
  ghost predicate Aborts(samples: seq<real>, launch: real, factor: real, admission: real, ceiling: Option<real>,
                         consecutive: int)
  {
    launch > 0.0
    && HasRun(Exceeding(samples, Limit(launch, factor, admission, ceiling)), Max(consecutive, 1))
  }

  method Excursion(samples: seq<real>, launch: real, factor: real, admission: real, ceiling: Option<real>,
                   consecutive: int)
    returns (abort: bool)
    ensures abort <==> Aborts(samples, launch, factor, admission, ceiling, consecutive)
  {
    var limit := InRunCeiling(ceiling, admission);
    if launch <= 0.0 || samples == [] {
      return false;
    }
    var threshold := Threshold(launch, factor, admission);
    ghost var flags := Exceeding(samples, MinReal(threshold, limit));
    var run := 0;
    ghost var count: nat, best: nat := 0, 0;
    assert SetFrom([], 0, 0);
    for i := 0 to |samples|
      invariant Tallied(flags, i, count, run, best) && best < Max(consecutive, 1)
    {
      TallyStep(flags, i, count, run, best);
      if samples[i] > threshold || samples[i] > limit {
        run := run + 1;
        count, best := count + 1, if run > best then run else best;
        if run >= consecutive {
          EnoughInARow(flags, i + 1, run, Max(consecutive, 1));
          return true;
        }
      } else {
        run := 0;
      }
    }
    assert flags[..|samples|] == flags;
    LongestRunDecides(flags, best, Max(consecutive, 1));
    return false;
  }

  /** A sample that endangers a run: past both the launch load times the factor and the admission ceiling,
      or past the ceiling for runs, which is one and a half times the admission ceiling unless given. */
  ghost predicate Endangers(v: real, launch: real, factor: real, admission: real, ceiling: Option<real>) {
    || (v > launch * factor && v > admission)
    || v > match ceiling case None => admission * 3.0 / 2.0 case Some(c) => c
  }

  /** A run is aborted if and only if the launch load is known and as many samples in a row as asked for, at
      least one, endanger it. */
  lemma AbortsExactlyWhen(samples: seq<real>, launch: real, factor: real, admission: real, ceiling: Option<real>,
                          consecutive: int)
    ensures Aborts(samples, launch, factor, admission, ceiling, consecutive)
            <==> launch > 0.0
                 && exists i: nat :: EndangersFrom(samples, i, consecutive, launch, factor, admission, ceiling)
  {
    var limit, k := Limit(launch, factor, admission, ceiling), Max(consecutive, 1);
    var flags := Exceeding(samples, limit);
    forall v ensures v > limit <==> Endangers(v, launch, factor, admission, ceiling) {
    }
    if i :| 0 <= i <= |flags| - k && SetFrom(flags, i, k) {
      forall j | i <= j < i + k ensures Endangers(samples[j], launch, factor, admission, ceiling) {
        assert flags[j];
      }
      assert EndangersFrom(samples, i, consecutive, launch, factor, admission, ceiling);
    }
    if i: nat :| EndangersFrom(samples, i, consecutive, launch, factor, admission, ceiling) {
      assert SetFrom(flags, i, k);
    }
  }

  ghost predicate EndangersFrom(samples: seq<real>, i: nat, consecutive: int, launch: real, factor: real,
                                admission: real, ceiling: Option<real>)
  {
    && i < |samples| && i + consecutive <= |samples| && Endangers(samples[i], launch, factor, admission, ceiling)
    && forall j | i <= j < i + consecutive :: Endangers(samples[j], launch, factor, admission, ceiling)
  }

  lemma EnoughInARow(flags: seq<bool>, n: nat, run: nat, k: nat)
    requires n <= |flags| && k <= run == Trailing(flags[..n])
    ensures HasRun(flags, k)
  {
    assert forall j | n - run <= j < n :: flags[..n][j];
    assert SetFrom(flags, n - k, k);
  }

  /** With the default ceiling a run is never aborted at a load a new run would be admitted at. */
  lemma AdmissibleLoadNeverAborts(samples: seq<real>, launch: real, factor: real, admission: real, consecutive: int)
    requires 0.0 <= admission && forall v | v in samples :: v <= admission
    ensures !Aborts(samples, launch, factor, admission, None, consecutive)
  {
    var flags := Exceeding(samples, MinReal(Threshold(launch, factor, admission), InRunCeiling(None, admission)));
    forall i | 0 <= i < |flags| ensures !flags[i] {
      assert samples[i] in samples;
    }
    forall i: nat | i < |flags| ensures !SetFrom(flags, i, Max(consecutive, 1)) {
      assert !flags[i];
    }
  }

  /** A quieter start makes a run no sturdier. */
  lemma QuietStartIsNoSturdier(samples: seq<real>, quiet: real, busy: real, factor: real, admission: real,
                               ceiling: Option<real>, consecutive: int)
    requires 0.0 < quiet <= busy && 0.0 <= factor
    requires Aborts(samples, busy, factor, admission, ceiling, consecutive)
    ensures Aborts(samples, quiet, factor, admission, ceiling, consecutive)
  {
    ThresholdGrows(quiet, busy, factor, admission);
    LowerLimitAborts(samples, Limit(quiet, factor, admission, ceiling), Limit(busy, factor, admission, ceiling),
                     Max(consecutive, 1));
  }

  ghost predicate SameFate(samples: seq<real>, quiet: real, busy: real, factor: real, admission: real,
                           ceiling: Option<real>, consecutive: int)
  {
    Aborts(samples, busy, factor, admission, ceiling, consecutive)
    <==> Aborts(samples, quiet, factor, admission, ceiling, consecutive)
  }

  /** It makes it no more fragile either, whatever is sampled, if and only if both starts end up with
      the same limit: the factor rule is out of play for both, because of the admission ceiling below
      it or of the ceiling above it. */
  lemma LaunchLoadMattersExactlyWhen(quiet: real, busy: real, factor: real, admission: real, ceiling: Option<real>,
                                     consecutive: int)
    requires 0.0 < quiet <= busy && 0.0 <= factor
    ensures (forall samples :: SameFate(samples, quiet, busy, factor, admission, ceiling, consecutive))
            <==> Limit(quiet, factor, admission, ceiling) == Limit(busy, factor, admission, ceiling)
  {
    ThresholdGrows(quiet, busy, factor, admission);
    var low, high, k := Limit(quiet, factor, admission, ceiling), Limit(busy, factor, admission, ceiling),
        Max(consecutive, 1);
    if low < high {
      var samples := seq(k, _ => high);
      assert SetFrom(Exceeding(samples, low), 0, k);
      assert !Exceeding(samples, high)[0];
      assert !SameFate(samples, quiet, busy, factor, admission, ceiling, consecutive);
    }
  }

  /** A run launched at twenty is aborted by two samples of forty-five; one launched at thirty is not. */
  lemma QuietStartIsFragile()
    ensures Aborts([45.0, 45.0], 20.0, 2.0, 32.0, None, 2) && !Aborts([45.0, 45.0], 30.0, 2.0, 32.0, None, 2)
  {
    var samples := [45.0, 45.0];
    assert Limit(20.0, 2.0, 32.0, None) == 40.0 && Limit(30.0, 2.0, 32.0, None) == 48.0;
    assert SetFrom(Exceeding(samples, 40.0), 0, 2);
    assert !Exceeding(samples, 48.0)[0] && !Exceeding(samples, 48.0)[1];
  }

  lemma ThresholdGrows(low: real, high: real, factor: real, admission: real)
    requires low <= high && 0.0 <= factor
    ensures Threshold(low, factor, admission) <= Threshold(high, factor, admission)
    ensures high * factor <= admission ==> Threshold(low, factor, admission) == Threshold(high, factor, admission)
  {
    assert (high - low) * factor >= 0.0;
    assert high * factor == low * factor + (high - low) * factor;
  }

  lemma LowerLimitAborts(samples: seq<real>, low: real, high: real, k: nat)
    requires low <= high && HasRun(Exceeding(samples, high), k)
    ensures HasRun(Exceeding(samples, low), k)
  {
    var i :| 0 <= i <= |samples| - k && SetFrom(Exceeding(samples, high), i, k);
    forall j | i <= j < i + k ensures Exceeding(samples, low)[j] {
      assert Exceeding(samples, high)[j];
    }
    assert SetFrom(Exceeding(samples, low), i, k);
  }
}
