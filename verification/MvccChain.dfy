/** Version chains of `crates/ffs-mvcc`: the committed contents of one block in commit
    order, with unchanged contents stored as a marker. */
module MvccChain {
  import opened Wrappers

  type Bytes = seq<bv8>

  datatype Data = Full(bytes: Bytes) | Identical

  datatype Version = Version(seqno: nat, data: Data)

  type Chain = seq<Version>

  ghost predicate Ascending(chain: Chain) {
    forall i, j | 0 <= i < j < |chain| :: chain[i].seqno < chain[j].seqno
  }

  /** Ascending, with real bytes at its head for the markers to fall back on. */
  ghost predicate WellFormed(chain: Chain) {
    Ascending(chain) && (chain != [] ==> chain[0].data.Full?)
  }

  // ----- reading -----

  /** The bytes of version `i`: markers are resolved by walking back. */
  function Resolve(chain: Chain, i: nat): Option<Bytes> {
    if i >= |chain| then None
    else match chain[i].data
      case Full(bytes) => Some(bytes)
      case Identical => if i == 0 then None else Resolve(chain, i - 1)
  }

  /** How many versions of an ascending chain are visible at `high`. */
  ghost function VisibleCount(chain: Chain, high: nat): (n: nat)
    ensures n <= |chain| && (n > 0 ==> chain[n - 1].seqno <= high)
    ensures Ascending(chain) ==> forall i | 0 <= i < |chain| :: chain[i].seqno <= high <==> i < n
  {
    if chain == [] then 0
    else if chain[|chain| - 1].seqno <= high then |chain|
    else VisibleCount(chain[..|chain| - 1], high)
  }

  /** The content visible at `high`, if the chain still has it. */
  ghost function Read(chain: Chain, high: nat): Option<Bytes> {
    var n := VisibleCount(chain, high);
    if n == 0 then None else Resolve(chain, n - 1)
  }

  function LatestSeqno(chain: Chain): nat { if chain == [] then 0 else chain[|chain| - 1].seqno }

  /** The newest visible version: the last one outright, else by bisection. */
  method NewestVisibleIndex(chain: Chain, high: nat) returns (r: Option<nat>)
    requires Ascending(chain)
    ensures r == var n := VisibleCount(chain, high); if n == 0 then None else Some(n - 1)
  {
    if chain == [] {
      return None;
    }
    if chain[|chain| - 1].seqno <= high {
      return Some(|chain| - 1);
    }
    var lo, hi := 0, |chain|;
    while lo < hi
      invariant 0 <= lo <= hi <= |chain|
      invariant forall i | 0 <= i < lo :: chain[i].seqno <= high
      invariant forall i | hi <= i < |chain| :: chain[i].seqno > high
    {
      var mid := (lo + hi) / 2;
      if chain[mid].seqno <= high {
        lo := mid + 1;
      } else {
        hi := mid;
      }
    }
    VisibleCountIs(chain, high, lo);
    return if lo == 0 then None else Some(lo - 1);
  }

  lemma {:induction false} ResolvesInWellFormed(chain: Chain, i: nat)
    requires WellFormed(chain) && i < |chain|
    ensures Resolve(chain, i).Some?
  {
    if i > 0 {
      ResolvesInWellFormed(chain, i - 1);
    }
  }

  lemma {:induction false} ResolveDependsOnPrefix(a: Chain, b: Chain, i: nat)
    requires i < |a| && i < |b| && a[..i + 1] == b[..i + 1]
    ensures Resolve(a, i) == Resolve(b, i)
  {
    assert a[i] == a[..i + 1][i] && b[i] == b[..i + 1][i];
    if i > 0 {
      assert a[..i] == a[..i + 1][..i] && b[..i] == b[..i + 1][..i];
      ResolveDependsOnPrefix(a, b, i - 1);
    }
  }

  lemma VisibleCountIs(chain: Chain, high: nat, n: nat)
    requires Ascending(chain) && n <= |chain|
    requires n > 0 ==> chain[n - 1].seqno <= high
    requires n < |chain| ==> chain[n].seqno > high
    ensures VisibleCount(chain, high) == n
  {
  }

  lemma VisibleExactlyFromHead(chain: Chain, s: nat)
    requires WellFormed(chain)
    ensures Read(chain, s).Some? <==> chain != [] && chain[0].seqno <= s
  {
    var n := VisibleCount(chain, s);
    if n > 0 {
      ResolvesInWellFormed(chain, n - 1);
    }
  }

  // ----- committing -----

  /** The version a commit installs: a marker when deduplication finds the bytes unchanged. */
  function NewVersion(chain: Chain, seqno: nat, bytes: Bytes, dedup: bool): Version {
    var same := dedup && chain != [] && Resolve(chain, |chain| - 1) == Some(bytes);
    Version(seqno, if same then Identical else Full(bytes))
  }

  function Extend(chain: Chain, seqno: nat, bytes: Bytes, dedup: bool): Chain {
    chain + [NewVersion(chain, seqno, bytes, dedup)]
  }

  lemma ExtendIsWellFormed(chain: Chain, seqno: nat, bytes: Bytes, dedup: bool)
    requires WellFormed(chain) && LatestSeqno(chain) < seqno
    ensures WellFormed(Extend(chain, seqno, bytes, dedup))
    ensures LatestSeqno(Extend(chain, seqno, bytes, dedup)) == seqno
  {
  }

  lemma OlderOfExtend(chain: Chain, v: Version, i: nat)
    requires i < |chain|
    ensures Resolve(chain + [v], i) == Resolve(chain, i)
  {
    assert (chain + [v])[..i + 1] == chain[..i + 1];
    ResolveDependsOnPrefix(chain + [v], chain, i);
  }

  lemma NewestOfExtend(chain: Chain, seqno: nat, bytes: Bytes, dedup: bool)
    ensures Resolve(Extend(chain, seqno, bytes, dedup), |chain|) == Some(bytes)
  {
    var v := NewVersion(chain, seqno, bytes, dedup);
    var extended := chain + [v];
    assert extended[|chain|] == v;
    if v.data.Identical? {
      OlderOfExtend(chain, v, |chain| - 1);
    }
  }

  /** A commit is seen from its sequence number on and changes nothing below it. */
  lemma ReadOfExtend(chain: Chain, seqno: nat, bytes: Bytes, dedup: bool, high: nat)
    requires WellFormed(chain) && LatestSeqno(chain) < seqno
    ensures Read(Extend(chain, seqno, bytes, dedup), high) == if seqno <= high then Some(bytes) else Read(chain, high)
  {
    var extended := Extend(chain, seqno, bytes, dedup);
    ExtendIsWellFormed(chain, seqno, bytes, dedup);
    if seqno <= high {
      VisibleCountIs(extended, high, |chain| + 1);
      NewestOfExtend(chain, seqno, bytes, dedup);
    } else {
      OlderReadOfExtend(chain, extended[|chain|], high);
    }
  }

  lemma OlderReadOfExtend(chain: Chain, version: Version, high: nat)
    requires WellFormed(chain) && WellFormed(chain + [version]) && high < version.seqno
    ensures Read(chain + [version], high) == Read(chain, high)
  {
    var extended, n := chain + [version], VisibleCount(chain, high);
    assert n < |chain| ==> extended[n] == chain[n];
    VisibleCountIs(extended, high, n);
    if n > 0 {
      OlderOfExtend(chain, version, n - 1);
    }
  }

  // ----- trimming -----

  /** Drops the versions before `keepFrom`, first giving the new head real bytes. */
  function Trim(chain: Chain, keepFrom: nat): Chain
    requires keepFrom < |chain|
  {
    var head := match Resolve(chain, keepFrom)
                case Some(bytes) => chain[keepFrom].(data := Full(bytes))
                case None => chain[keepFrom];
    [head] + chain[keepFrom + 1..]
  }

  lemma {:induction false} ResolveOfTrim(chain: Chain, keepFrom: nat, i: nat)
    requires WellFormed(chain) && keepFrom <= i < |chain|
    ensures Resolve(Trim(chain, keepFrom), i - keepFrom) == Resolve(chain, i)
  {
    if i == keepFrom {
      ResolvesInWellFormed(chain, i);
    } else {
      ResolveOfTrim(chain, keepFrom, i - 1);
    }
  }

  lemma TrimIsWellFormed(chain: Chain, keepFrom: nat)
    requires WellFormed(chain) && keepFrom < |chain|
    ensures WellFormed(Trim(chain, keepFrom))
    ensures LatestSeqno(Trim(chain, keepFrom)) == LatestSeqno(chain)
    ensures forall i | 0 <= i < |chain| - keepFrom :: Trim(chain, keepFrom)[i].seqno == chain[keepFrom + i].seqno
  {
    ResolvesInWellFormed(chain, keepFrom);
  }

  lemma VisibleCountOfSuffix(chain: Chain, suffix: Chain, k: nat, high: nat)
    requires Ascending(chain) && k < |chain| && chain[k].seqno <= high
    requires Ascending(suffix) && |suffix| == |chain| - k
    requires forall i | 0 <= i < |suffix| :: suffix[i].seqno == chain[k + i].seqno
    ensures k < VisibleCount(chain, high) == k + VisibleCount(suffix, high)
  {
    var n := VisibleCount(chain, high) - k;
    assert suffix[n - 1].seqno == chain[k + (n - 1)].seqno;
    VisibleCountIs(suffix, high, n);
  }

  /** Trimming is invisible to every snapshot that can see the version kept at the head. */
  lemma ReadOfTrim(chain: Chain, keepFrom: nat, high: nat)
    requires WellFormed(chain) && keepFrom < |chain| && chain[keepFrom].seqno <= high
    ensures Read(Trim(chain, keepFrom), high) == Read(chain, high)
  {
    TrimIsWellFormed(chain, keepFrom);
    var trimmed := Trim(chain, keepFrom);
    VisibleCountOfSuffix(chain, trimmed, keepFrom, high);
    var newest := VisibleCount(chain, high) - 1;
    ResolveOfTrim(chain, keepFrom, newest);
    ReadOfSuffix(chain, trimmed, keepFrom, high, newest);
  }

  lemma ReadOfSuffix(chain: Chain, suffix: Chain, k: nat, high: nat, newest: nat)
    requires k <= newest && VisibleCount(chain, high) == newest + 1 && VisibleCount(suffix, high) == newest + 1 - k
    requires Resolve(suffix, newest - k) == Resolve(chain, newest)
    ensures Read(suffix, high) == Read(chain, high)
  {
  }

  /** A snapshot loses its version to a trim exactly when it saw the old head and not the new one. */
  lemma TrimKeepsReadExactlyWhen(chain: Chain, keepFrom: nat, high: nat)
    requires WellFormed(chain) && keepFrom < |chain|
    ensures Read(Trim(chain, keepFrom), high) == Read(chain, high)
            <==> !(chain[0].seqno <= high < chain[keepFrom].seqno)
  {
    TrimIsWellFormed(chain, keepFrom);
    if chain[keepFrom].seqno <= high {
      ReadOfTrim(chain, keepFrom, high);
    } else {
      VisibleExactlyFromHead(chain, high);
      VisibleExactlyFromHead(Trim(chain, keepFrom), high);
      assert Trim(chain, keepFrom)[0].seqno == chain[keepFrom].seqno;
    }
  }

  /** What a pruning decision may drop: its new head is still at or below the watermark. */
  ghost predicate SafeTrim(chain: Chain, keepFrom: nat, watermark: nat) {
    (keepFrom == 0 && chain == []) || (keepFrom < |chain| && (keepFrom == 0 || chain[keepFrom].seqno <= watermark))
  }

  /** `prune_versions_older_than` on one chain: keep the newest version at or below the
      watermark and everything after it. */
  method PrunePoint(chain: Chain, watermark: nat) returns (keepFrom: nat)
    requires Ascending(chain)
    ensures SafeTrim(chain, keepFrom, watermark)
    ensures forall i | keepFrom < i < |chain| :: chain[i].seqno > watermark
    ensures keepFrom == PruneFrom(chain, watermark)
  {
    keepFrom := 0;
    while keepFrom + 1 < |chain| && chain[keepFrom + 1].seqno <= watermark
      invariant keepFrom == 0 || (keepFrom < |chain| && chain[keepFrom].seqno <= watermark)
    {
      keepFrom := keepFrom + 1;
    }
    var n := VisibleCount(chain, watermark);
    assert n > 0 ==> !(keepFrom + 1 < n);
  }

  ghost function PruneFrom(chain: Chain, watermark: nat): nat {
    var n := VisibleCount(chain, watermark);
    if n <= 1 then 0 else n - 1
  }

  /** `trim_block_chain_to_cap`: drop only as many as the cap asks for and the watermark allows. */
  method CapPoint(chain: Chain, cap: nat, watermark: nat) returns (keepFrom: nat)
    requires Ascending(chain) && 1 <= cap
    ensures SafeTrim(chain, keepFrom, watermark)
    ensures keepFrom == CapFrom(chain, cap, watermark)
  {
    keepFrom := 0;
    while |chain| - keepFrom > cap && keepFrom + 1 < |chain| && chain[keepFrom + 1].seqno <= watermark
      invariant keepFrom == 0 || (keepFrom < |chain| && chain[keepFrom].seqno <= watermark && |chain| - keepFrom >= cap)
    {
      keepFrom := keepFrom + 1;
    }
    var n := VisibleCount(chain, watermark);
    assert keepFrom > 0 ==> keepFrom < n;
  }

  ghost function CapFrom(chain: Chain, cap: nat, watermark: nat): nat
    requires 1 <= cap
  {
    var excess := if |chain| > cap then |chain| - cap else 0;
    var allowed := PruneFrom(chain, watermark);
    if excess <= allowed then excess else allowed
  }
}
