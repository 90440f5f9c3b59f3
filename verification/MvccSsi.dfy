/** Serializable snapshot isolation as `commit_ssi` enforces it: the two-edge check made when
    a transaction commits, and how far it makes histories serializable. */
module MvccSsi {
  import opened MvccEffect
  import opened MvccSpec
  import opened Wrappers

  /** A committed transaction. Entry `i` of a history has commit sequence number `i + 1`; `snapshot` is
      the newest commit the transaction could see. The log keeps the numbers of the blocks written; what
      was done to them is carried along to say what a history means. */
  datatype Record = Record(snapshot: nat, readSet: set<Block>, writes: map<Block, Effect>) {
    function WriteSet(): set<Block> { writes.Keys }
  }

  type History = seq<Record>

  predicate Intersects(a: set<Block>, b: set<Block>) { a * b != {} }

  /** Commit `i` is invisible to a transaction with this snapshot. */
  predicate Concurrent(i: nat, snapshot: nat) { snapshot < i + 1 }

  // ----- the check -----

  /** A concurrent transaction in the log read what this one writes. The log still holds the
      commits from index `from` on. */
  ghost predicate Incoming(h: History, from: nat, txn: Record) {
    exists i :: from <= i < |h| && Concurrent(i, txn.snapshot) && Intersects(h[i].readSet, txn.WriteSet())
  }

  /** This one read what a concurrent transaction in the log wrote. */
  ghost predicate Outgoing(h: History, from: nat, txn: Record) {
    exists i :: from <= i < |h| && Concurrent(i, txn.snapshot) && Intersects(txn.readSet, h[i].WriteSet())
  }

  ghost predicate Dangerous(h: History, from: nat, txn: Record) {
    txn.WriteSet() != {} && Incoming(h, from, txn) && Outgoing(h, from, txn)
  }

  /** An edge as it is reported: the other transaction and the block both touched. */
  datatype Edge = Edge(record: nat, block: Block)

  datatype Structure = Structure(incoming: Edge, outgoing: Edge)

  /** The newest record that shares a block, and the least block it shares. */
  ghost predicate Reports(h: History, from: nat, snapshot: nat, shared: Record -> set<Block>, e: Edge) {
    && from <= e.record < |h| && Concurrent(e.record, snapshot)
    && e.block in shared(h[e.record]) && (forall b | b in shared(h[e.record]) :: e.block <= b)
    && forall i | e.record < i < |h| :: shared(h[i]) == {}
  }

  function ReadByOther(txn: Record): Record -> set<Block> { (r: Record) => r.readSet * txn.WriteSet() }

  function WrittenByOther(txn: Record): Record -> set<Block> { (r: Record) => txn.readSet * r.WriteSet() }

  /** Walks the log from its newest record down to the snapshot, looks for one edge in each
      direction, and stops as soon as it has both. */
  method DetectDangerousStructure(h: History, from: nat, txn: Record) returns (found: Option<Structure>)
    requires from <= |h|
    ensures found.Some? <==> Dangerous(h, from, txn)
    ensures found.Some? ==> Reports(h, from, txn.snapshot, ReadByOther(txn), found.value.incoming)
                            && Reports(h, from, txn.snapshot, WrittenByOther(txn), found.value.outgoing)
  {
    if txn.WriteSet() == {} {
      return None;
    }
    var incoming: Option<Edge>, outgoing: Option<Edge> := None, None;
    var i := |h|;
    while i > from && Concurrent(i - 1, txn.snapshot)
      invariant from <= i <= |h|
      invariant Sought(h, i, txn.snapshot, ReadByOther(txn), incoming)
      invariant Sought(h, i, txn.snapshot, WrittenByOther(txn), outgoing)
      invariant incoming.None? || outgoing.None?
    {
      i := i - 1;
      incoming := Seek(h, i, txn.snapshot, ReadByOther(txn), incoming);
      outgoing := Seek(h, i, txn.snapshot, WrittenByOther(txn), outgoing);
      if incoming.Some? && outgoing.Some? {
        assert Intersects(h[incoming.value.record].readSet, txn.WriteSet());
        assert Intersects(txn.readSet, h[outgoing.value.record].WriteSet());
        return Some(Structure(incoming.value, outgoing.value));
      }
    }
    assert Incoming(h, from, txn) ==> incoming.Some?;
    assert Outgoing(h, from, txn) ==> outgoing.Some?;
    return None;
  }

  /** The edge found so far, if any record from `i` on has one. */
  ghost predicate Sought(h: History, i: nat, snapshot: nat, shared: Record -> set<Block>, found: Option<Edge>) {
    match found
    case None => forall k | i <= k < |h| :: shared(h[k]) == {}
    case Some(e) => Reports(h, i, snapshot, shared, e)
  }

  /** Keeps the first edge found. */
  method Seek(h: History, i: nat, snapshot: nat, shared: Record -> set<Block>, found: Option<Edge>)
    returns (now: Option<Edge>)
    requires i < |h| && Concurrent(i, snapshot) && Sought(h, i + 1, snapshot, shared, found)
    ensures Sought(h, i, snapshot, shared, now)
  {
    now := found;
    if found.None? && shared(h[i]) != {} {
      var block := Least(shared(h[i]));
      now := Some(Edge(i, block));
    }
  }

  /** Dropping the records at or below a watermark gives the same answer to every transaction
      whose snapshot is not older than it. */
  lemma PruningTheLogIsHarmless(h: History, watermark: nat, txn: Record)
    requires watermark <= txn.snapshot
    ensures Dangerous(h, watermark, txn) <==> Dangerous(h, 0, txn)
  {
    if Incoming(h, 0, txn) {
      var i :| 0 <= i < |h| && Concurrent(i, txn.snapshot) && Intersects(h[i].readSet, txn.WriteSet());
      assert watermark <= i;
    }
    if Outgoing(h, 0, txn) {
      var i :| 0 <= i < |h| && Concurrent(i, txn.snapshot) && Intersects(txn.readSet, h[i].WriteSet());
      assert watermark <= i;
    }
  }

  /** Every transaction saw a real prefix and passed the check when it committed. Concurrent writers
      may share a block: the second then merged its change in place, or appended. */
  ghost predicate Admitted(h: History) {
    forall j | 0 <= j < |h| :: h[j].snapshot <= j && !Dangerous(h[..j], 0, h[j])
  }

  // ----- dependencies -----

  predicate WriteRead(h: History, i: nat, j: nat)
    requires i < |h| && j < |h|
  {
    !Concurrent(i, h[j].snapshot) && Intersects(h[i].WriteSet(), h[j].readSet)
  }

  /** `j` wrote over what it could see of `i`. */
  predicate Overwrites(h: History, i: nat, j: nat)
    requires i < |h| && j < |h|
  {
    !Concurrent(i, h[j].snapshot) && Intersects(h[i].WriteSet(), h[j].WriteSet())
  }

  /** Both wrote the block, and the bytes they leave depend on who went first. */
  predicate ClashesOn(h: History, i: nat, j: nat, b: Block)
    requires i < |h| && j < |h|
  {
    b in h[i].writes && b in h[j].writes && !Independent(h[i].writes[b], h[j].writes[b])
  }

  /** `j` merged with or appended to what `i` wrote without seeing it: over a whole write, over a tail,
      with a tail of its own, or in bits that `i` had changed too. */
  predicate Clashes(h: History, i: nat, j: nat)
    requires i < |h| && j < |h|
  {
    i < j && Concurrent(i, h[j].snapshot) && exists b | b in h[j].writes :: ClashesOn(h, i, j, b)
  }

  /** The bytes `j` left behind depend on `i` having come first. Changes merged in place in different
      bits do not: they give the same bytes in any order. */
  predicate WriteWrite(h: History, i: nat, j: nat)
    requires i < |h| && j < |h|
  {
    Overwrites(h, i, j) || Clashes(h, i, j)
  }

  predicate ReadWrite(h: History, i: nat, j: nat)
    requires i < |h| && j < |h|
  {
    i != j && Concurrent(j, h[i].snapshot) && Intersects(h[i].readSet, h[j].WriteSet())
  }

  /** In any equivalent serial order, `i` comes before `j`. */
  predicate Precedes(h: History, i: nat, j: nat)
    requires i < |h| && j < |h|
  {
    WriteRead(h, i, j) || WriteWrite(h, i, j) || ReadWrite(h, i, j)
  }

  /** `rank` orders the transactions so that every dependency is respected. */
  ghost predicate Serializes(h: History, rank: seq<int>) {
    |rank| == |h| && forall i, j | 0 <= i < |h| && 0 <= j < |h| && Precedes(h, i, j) :: rank[i] < rank[j]
  }

  // ----- what the check does not see -----

  /** A reader that commits last: it read what `pivot` then overwrote, and `pivot` had itself
      read what the earlier commit `first` overwrote. When `pivot` committed, the reader's edge
      was not in the log yet. */
  predicate LateReader(h: History, first: nat, pivot: nat, reader: nat)
    requires first < |h| && pivot < |h| && reader < |h|
  {
    first < pivot < reader && ReadWrite(h, reader, pivot) && ReadWrite(h, pivot, first)
  }

  /** A writer that `pivot` clashed with without seeing it, although `pivot` had read what the earlier
      commit `first` overwrote. The check looks at reads only. */
  predicate UnseenWriter(h: History, first: nat, pivot: nat, writer: nat)
    requires first < |h| && pivot < |h| && writer < |h|
  {
    first <= writer < pivot && Clashes(h, writer, pivot) && ReadWrite(h, pivot, first)
  }

  /** What the check misses at `pivot`. */
  predicate Missed(h: History, first: nat, pivot: nat, other: nat)
    requires first < |h| && pivot < |h| && other < |h|
  {
    LateReader(h, first, pivot, other) || UnseenWriter(h, first, pivot, other)
  }

  ghost predicate NothingMissed(h: History) {
    forall f, p, r | 0 <= f < |h| && 0 <= p < |h| && 0 <= r < |h| :: !Missed(h, f, p, r)
  }

  lemma PrefixHas(h: History, j: nat, i: nat)
    requires i < j <= |h|
    ensures h[..j][i] == h[i]
  {
  }

  /** A transaction that read past an earlier commit has no incoming edge from anything it
      could have been checked against. */
  lemma PivotIsCaught(h: History, i: nat, pivot: nat, first: nat)
    requires Admitted(h) && first < pivot < |h| && i < pivot
    requires ReadWrite(h, i, pivot) && ReadWrite(h, pivot, first)
    ensures !Concurrent(i, h[pivot].snapshot)
  {
    if Concurrent(i, h[pivot].snapshot) {
      assert h[pivot].WriteSet() != {};
      PrefixHas(h, pivot, i);
      PrefixHas(h, pivot, first);
      assert Incoming(h[..pivot], 0, h[pivot]) && Outgoing(h[..pivot], 0, h[pivot]);
    }
  }

  /** If `pivot` must precede an earlier commit `first`, everything that must precede `pivot`
      in an admitted history committed before `first`, except what the check misses. */
  lemma BeforeThePivot(h: History, i: nat, pivot: nat, first: nat)
    requires Admitted(h) && first < pivot < |h| && i < |h|
    requires ReadWrite(h, pivot, first) && Precedes(h, i, pivot) && !Missed(h, first, pivot, i)
    ensures i < first
  {
    if ReadWrite(h, i, pivot) && i < pivot {
      PivotIsCaught(h, i, pivot, first);
    }
  }

  // ----- serializability -----

  /** The earliest commit that `i` must precede although it committed before `i`. */
  ghost function EarliestOverwrite(h: History, i: nat): (first: nat)
    requires i < |h|
    ensures first <= i
    ensures first < i ==> ReadWrite(h, i, first)
    ensures forall j | 0 <= j < i && ReadWrite(h, i, j) :: first <= j
  {
    EarliestFrom(h, i, 0)
  }

  ghost function EarliestFrom(h: History, i: nat, from: nat): (first: nat)
    requires from <= i < |h|
    ensures from <= first <= i
    ensures first < i ==> ReadWrite(h, i, first)
    ensures forall j | from <= j < i && ReadWrite(h, i, j) :: first <= j
    decreases i - from
  {
    if from == i || ReadWrite(h, i, from) then from else EarliestFrom(h, i, from + 1)
  }

  /** Commit order, except that a transaction that read past an earlier commit is placed just
      before the earliest such commit. */
  ghost function SerialRank(h: History): (rank: seq<int>)
    ensures |rank| == |h|
  {
    seq(|h|, i requires 0 <= i < |h| =>
          var first := EarliestOverwrite(h, i); if first < i then 2 * first - 1 else 2 * i)
  }

  /** If nothing is missed, every history the check admits is serializable, in this order. */
  lemma AdmittedIsSerializable(h: History)
    requires Admitted(h) && NothingMissed(h)
    ensures Serializes(h, SerialRank(h))
  {
    forall i, j | 0 <= i < |h| && 0 <= j < |h| && Precedes(h, i, j) ensures SerialRank(h)[i] < SerialRank(h)[j] {
      var first := EarliestOverwrite(h, j);
      if first < j {
        BeforeThePivot(h, i, j, first);
      }
    }
  }

  /** A cycle of dependencies, each entry preceding the next and the last the first. */
  ghost predicate Cycle(h: History, c: seq<nat>) {
    && c != [] && (forall k | 0 <= k < |c| :: c[k] < |h|)
    && forall k | 0 <= k < |c| :: Precedes(h, c[Before(c, k)], c[k])
  }

  function Before(c: seq<nat>, k: nat): (p: nat)
    requires k < |c|
    ensures p < |c|
  {
    if k == 0 then |c| - 1 else k - 1
  }

  lemma {:induction false} EarliestInCycle(c: seq<nat>) returns (k: nat)
    requires c != []
    ensures k < |c| && forall i | 0 <= i < |c| :: c[k] <= c[i]
  {
    k := 0;
    for n := 1 to |c|
      invariant k < n && forall i | 0 <= i < n :: c[k] <= c[i]
    {
      if c[n] < c[k] {
        k := n;
      }
    }
  }

  /** The transaction was the first to commit each of its blocks since its snapshot. */
  ghost predicate FirstCommits(h: History, j: nat)
    requires j < |h|
  {
    forall i | h[j].snapshot <= i < j :: !Intersects(h[i].WriteSet(), h[j].WriteSet())
  }

  /** Without merges there is nothing to clash with. */
  lemma FirstCommitterClashesNever(h: History, i: nat, j: nat)
    requires i < |h| && j < |h| && FirstCommits(h, j)
    ensures !Clashes(h, i, j)
  {
    if h[j].snapshot <= i < j {
      forall b | b in h[j].writes ensures b !in h[i].writes {
        assert b !in h[i].WriteSet() * h[j].WriteSet();
      }
    }
  }

  /** That is the whole gap: every cycle in an admitted history passes such a place at its earliest
      commit, which is a late reader unless the pivot shares a block with a writer it did not see. */
  lemma EveryCycleIsMissed(h: History, c: seq<nat>) returns (k: nat)
    requires Admitted(h) && Cycle(h, c)
    ensures k < |c| && var p := Before(c, k); Missed(h, c[k], c[p], c[Before(c, p)])
    ensures var p := Before(c, k); FirstCommits(h, c[p]) ==> LateReader(h, c[k], c[p], c[Before(c, p)])
  {
    k := EarliestInCycle(c);
    var p := Before(c, k);
    var r := Before(c, p);
    assert Precedes(h, c[p], c[k]) && Precedes(h, c[r], c[p]);
    assert ReadWrite(h, c[p], c[k]);
    if !Missed(h, c[k], c[p], c[r]) {
      BeforeThePivot(h, c[r], c[p], c[k]);
    }
    if FirstCommits(h, c[p]) {
      FirstCommitterClashesNever(h, c[r], c[p]);
    }
  }

  // ----- exactly when -----

  /** A chain of dependencies from `i` to `j`. */
  ghost predicate Path(h: History, p: seq<nat>, i: nat, j: nat) {
    && p != [] && p[0] == i && p[|p| - 1] == j && (forall k | 0 <= k < |p| :: p[k] < |h|)
    && forall k | 1 <= k < |p| :: Precedes(h, p[k - 1], p[k])
  }

  ghost predicate Leads(h: History, i: nat, j: nat) { exists p :: Path(h, p, i, j) }

  lemma LeadsFurther(h: History, i: nat, j: nat, x: nat)
    requires i < |h| && j < |h| && Precedes(h, i, j) && Leads(h, j, x)
    ensures Leads(h, i, x)
  {
    var p :| Path(h, p, j, x);
    assert Path(h, [i] + p, i, x);
  }

  lemma ClosesCycle(h: History, s: nat, x: nat)
    requires s < |h| && x < |h| && Precedes(h, x, s) && Leads(h, s, x)
    ensures exists c :: Cycle(h, c)
  {
    var p :| Path(h, p, s, x);
    forall k | 0 <= k < |p| ensures Precedes(h, p[Before(p, k)], p[k]) {
    }
    assert Cycle(h, p);
  }

  /** `rank` respects the dependencies among the first `n` transactions. */
  ghost predicate Ranks(h: History, n: nat, rank: seq<int>) {
    n <= |h| && |rank| == n && forall i, j | 0 <= i < n && 0 <= j < n && Precedes(h, i, j) :: rank[i] < rank[j]
  }

  lemma RankBounds(rank: seq<int>) returns (low: int, high: int)
    ensures forall i | 0 <= i < |rank| :: low < rank[i] < high
  {
    low, high := 0, 1;
    for n := 0 to |rank|
      invariant forall i | 0 <= i < n :: low < rank[i] < high
    {
      low := if rank[n] <= low then rank[n] - 1 else low;
      high := if rank[n] >= high then rank[n] + 1 else high;
    }
  }

  /** The next transaction goes after everything that leads to it and before the rest. */
  ghost function Inserted(h: History, n: nat, rank: seq<int>, low: int, high: int): (r: seq<int>)
    requires n < |h| && |rank| == n
    ensures |r| == n + 1
  {
    seq(n, i requires 0 <= i < n => if Leads(h, i, n) then rank[i] else rank[i] + (high - low)) + [high]
  }

  lemma InsertedRanks(h: History, n: nat, rank: seq<int>, low: int, high: int)
    requires n < |h| && Ranks(h, n, rank) && forall i | 0 <= i < n :: low < rank[i] < high
    requires !exists c :: Cycle(h, c)
    ensures Ranks(h, n + 1, Inserted(h, n, rank, low, high))
  {
    var r := Inserted(h, n, rank, low, high);
    assert Path(h, [n], n, n);
    forall i, j | 0 <= i <= n && 0 <= j <= n && Precedes(h, i, j) ensures r[i] < r[j] {
      if Leads(h, j, n) {
        if i == n {
          ClosesCycle(h, j, n);
        }
        LeadsFurther(h, i, j, n);
      }
    }
  }

  lemma {:induction false} AcyclicIsSerializable(h: History, n: nat) returns (rank: seq<int>)
    requires n <= |h| && !exists c :: Cycle(h, c)
    ensures Ranks(h, n, rank)
  {
    if n == 0 {
      return [];
    }
    var before := AcyclicIsSerializable(h, n - 1);
    var low, high := RankBounds(before);
    InsertedRanks(h, n - 1, before, low, high);
    rank := Inserted(h, n - 1, before, low, high);
  }

  lemma CycleHasNoRank(h: History, c: seq<nat>, rank: seq<int>)
    requires Cycle(h, c)
    ensures !Serializes(h, rank)
  {
    assert Precedes(h, c[Before(c, 0)], c[0]);
    if Serializes(h, rank) {
      RankGrows(h, c, rank, |c| - 1);
    }
  }

  lemma {:induction false} RankGrows(h: History, c: seq<nat>, rank: seq<int>, k: nat)
    requires Cycle(h, c) && Serializes(h, rank) && k < |c|
    ensures rank[c[0]] <= rank[c[k]]
  {
    if k > 0 {
      RankGrows(h, c, rank, k - 1);
      assert Before(c, k) == k - 1;
      assert Precedes(h, c[k - 1], c[k]);
    }
  }

  /** A cycle with such a place. */
  ghost predicate MissedCycle(h: History, c: seq<nat>, k: nat) {
    Cycle(h, c) && k < |c| && var p := Before(c, k); Missed(h, c[k], c[p], c[Before(c, p)])
  }

  /** An admitted history is serializable if and only if no cycle passes a place the check
      misses. */
  lemma SerializableExactlyWhen(h: History)
    requires Admitted(h)
    ensures (exists rank :: Serializes(h, rank)) <==> !exists c, k: nat :: MissedCycle(h, c, k)
  {
    if rank :| Serializes(h, rank) {
      forall c, k: nat ensures !MissedCycle(h, c, k) {
        if MissedCycle(h, c, k) {
          CycleHasNoRank(h, c, rank);
        }
      }
    } else {
      if !exists c :: Cycle(h, c) {
        var rank := AcyclicIsSerializable(h, |h|);
        assert Serializes(h, rank);
      }
      var c :| Cycle(h, c);
      var k := EveryCycleIsMissed(h, c);
      assert MissedCycle(h, c, k);
    }
  }

  /** Two transactions form a cycle exactly when the later read what the earlier overwrote and clashed
      with what it wrote; in particular neither can have overwritten what the other read, as in a write
      skew. */
  lemma PairsCycleExactlyWhen(h: History, first: nat, pivot: nat)
    requires Admitted(h) && first < pivot < |h|
    ensures Precedes(h, first, pivot) && Precedes(h, pivot, first)
            <==> Clashes(h, first, pivot) && ReadWrite(h, pivot, first)
    ensures !(ReadWrite(h, first, pivot) && ReadWrite(h, pivot, first))
  {
    if ReadWrite(h, pivot, first) && ReadWrite(h, first, pivot) {
      PivotIsCaught(h, first, pivot, first);
    }
  }
}
