/** What it means, in bytes, that a serial order explains a run: performing the transactions one after
    another in that order shows every reader what it read and leaves every block as the run left it. */
module MvccReplay {
  import opened MvccChain
  import opened MvccCommit
  import opened MvccEffect
  import opened MvccPreflight
  import opened MvccReaders
  import opened MvccSpec
  import opened MvccSsi
  import opened Orders
  import opened Wrappers

  // ----- replaying transactions -----

  /** The block after the listed transactions, performed one after another. */
  ghost function Content(h: History, order: seq<nat>, b: Block): Option<Bytes>
    requires Within(order, |h|)
  {
    if order == [] then None
    else
      var last, before := order[|order| - 1], Content(h, order[..|order| - 1], b);
      if b in h[last].writes then Some(Perform(h[last].writes[b], before.GetOr([]))) else before
  }

  /** The log holds what the run left: each commit's effects on what was there. */
  ghost predicate Recorded(h: History, log: Log) {
    |log| == |h| && forall j | 0 <= j < |h| :: RecordedAt(h[j], log, j)
  }

  ghost predicate RecordedAt(record: Record, log: Log, j: nat)
    requires j < |log|
  {
    && log[j].Keys == record.WriteSet()
    && forall b | b in record.writes :: log[j][b] == Perform(record.writes[b], ValueAt(log, b, j).GetOr([]))
  }

  /** Performed in this order, each transaction reads what it read in the run. */
  ghost predicate ExplainsReads(h: History, log: Log, order: seq<nat>) {
    Lists(order, |h|) && forall n, b | 0 <= n < |order| && b in h[order[n]].readSet ::
      Content(h, order[..n], b) == ValueAt(log, b, h[order[n]].snapshot)
  }

  ghost predicate ExplainsContent(h: History, log: Log, order: seq<nat>, b: Block) {
    Lists(order, |h|) && Content(h, order, b) == ValueAt(log, b, |log|)
  }

  /** A serial order explains a run: everybody reads what they read, and the blocks end up as they
      did. */
  ghost predicate Explains(h: History, log: Log, order: seq<nat>) {
    ExplainsReads(h, log, order) && forall b: Block :: ExplainsContent(h, log, order, b)
  }

  ghost predicate Respects(h: History, order: seq<nat>) {
    Lists(order, |h|) && forall x, y | 0 <= x < |order| && 0 <= y < |order| && Precedes(h, order[x], order[y]) :: x < y
  }

  // ----- moving an effect to the end -----

  lemma ContentOfAppend(h: History, order: seq<nat>, i: nat, b: Block)
    requires i < |h| && Within(order, |h|)
    ensures Content(h, order + [i], b)
            == if b in h[i].writes then Some(Perform(h[i].writes[b], Content(h, order, b).GetOr([])))
               else Content(h, order, b)
  {
    assert (order + [i])[..|order|] == order;
  }

  /** A writer that is independent of every later writer of the block may as well come last. */
  lemma {:induction false} MovesToTheEnd(h: History, before: seq<nat>, k: nat, later: seq<nat>, b: Block)
    requires k < |h| && b in h[k].writes && Within(before, |h|) && Within(later, |h|)
    requires forall i | i in later && b in h[i].writes :: Independent(h[k].writes[b], h[i].writes[b])
    ensures Content(h, before + [k] + later, b) == Content(h, before + later + [k], b)
    decreases |later|
  {
    if later == [] {
      assert before + [k] + later == before + later + [k];
    } else {
      var rest, m := later[..|later| - 1], later[|later| - 1];
      assert later == rest + [m];
      assert before + [k] + later == before + [k] + rest + [m] && before + later == before + rest + [m];
      MovesToTheEnd(h, before, k, rest, b);
      ContentOfAppend(h, before + [k] + rest, m, b);
      ContentOfAppend(h, before + rest, k, b);
      ContentOfAppend(h, before + rest, m, b);
      ContentOfAppend(h, before + later, k, b);
      if b in h[m].writes {
        IndependentCommute(h[k].writes[b], h[m].writes[b], Content(h, before + rest, b).GetOr([]));
      }
    }
  }

  // ----- an order against the commit order -----

  predicate BothWrite(h: History, i: nat, k: nat, b: Block) {
    i < |h| && k < |h| && b in h[i].writes && b in h[k].writes
  }

  /** The writers of `b` that are listed are those among the first `s` commits, and two of them stand
      against their commit order only if they are independent there. */
  ghost predicate Rearranges(h: History, order: seq<nat>, b: Block, s: nat) {
    && s <= |h| && Within(order, |h|)
    && (forall x, y | 0 <= x < y < |order| :: order[x] != order[y])
    && (forall i: nat | i < |h| && b in h[i].writes :: i in order <==> i < s)
    && forall x, y | 0 <= x < y < |order| && order[y] < order[x] && BothWrite(h, order[x], order[y], b) ::
         Independent(h[order[x]].writes[b], h[order[y]].writes[b])
  }

  lemma {:induction false} NobodyWrites(h: History, order: seq<nat>, b: Block)
    requires Within(order, |h|) && forall i | i in order :: b !in h[i].writes
    ensures Content(h, order, b) == None
  {
    if order != [] {
      NobodyWrites(h, order[..|order| - 1], b);
    }
  }

  /** Without the newest writer it is still a rearrangement. */
  lemma WithoutNewest(h: History, order: seq<nat>, b: Block, s: nat, x: nat)
    requires 0 < s && Rearranges(h, order, b, s) && b in h[s - 1].writes && x < |order| && order[x] == s - 1
    ensures Rearranges(h, order[..x] + order[x + 1..], b, s - 1)
    ensures forall i | i in order[x + 1..] && b in h[i].writes :: Independent(h[s - 1].writes[b], h[i].writes[b])
  {
    var rest := order[..x] + order[x + 1..];
    Without(order, x);
    forall i | i in order[x + 1..] && b in h[i].writes ensures Independent(h[s - 1].writes[b], h[i].writes[b]) {
      var y :| x < y < |order| && order[y] == i;
      assert i in order;
    }
  }

  /** The newest writer may as well come last. */
  lemma NewestLast(h: History, order: seq<nat>, b: Block, s: nat) returns (rest: seq<nat>)
    requires 0 < s && Rearranges(h, order, b, s) && b in h[s - 1].writes
    ensures Rearranges(h, rest, b, s - 1)
    ensures Content(h, order, b) == Some(Perform(h[s - 1].writes[b], Content(h, rest, b).GetOr([])))
  {
    var x :| 0 <= x < |order| && order[x] == s - 1;
    var before, later := order[..x], order[x + 1..];
    rest := before + later;
    WithoutNewest(h, order, b, s, x);
    assert order == before + [s - 1] + later;
    MovesToTheEnd(h, before, s - 1, later, b);
    ContentOfAppend(h, rest, s - 1, b);
  }

  /** A rearrangement of the first `s` commits leaves the block as they did. */
  lemma {:induction false} RearrangedContent(h: History, log: Log, order: seq<nat>, b: Block, s: nat)
    requires Recorded(h, log) && Rearranges(h, order, b, s)
    ensures Content(h, order, b) == ValueAt(log, b, s)
    decreases s
  {
    if s == 0 {
      NobodyWrites(h, order, b);
    } else if b in h[s - 1].writes {
      var rest := NewestLast(h, order, b, s);
      RearrangedContent(h, log, rest, b, s - 1);
      assert RecordedAt(h[s - 1], log, s - 1);
    } else {
      RearrangedContent(h, log, order, b, s - 1);
      assert RecordedAt(h[s - 1], log, s - 1);
    }
  }

  // ----- an order that respects the dependencies explains the run -----

  lemma InvertedAreIndependent(h: History, order: seq<nat>, b: Block, x: nat, y: nat)
    requires Respects(h, order) && x < y < |order| && order[y] < order[x]
    requires BothWrite(h, order[x], order[y], b)
    ensures Independent(h[order[x]].writes[b], h[order[y]].writes[b])
  {
    var i, k := order[y], order[x];
    assert !Precedes(h, i, k);
    assert b in h[i].WriteSet() * h[k].WriteSet();
    assert !ClashesOn(h, i, k, b);
  }

  /** The writers a reader finds before it are those it could see. */
  lemma SeesItsWriters(h: History, order: seq<nat>, n: nat, b: Block, i: nat)
    requires Respects(h, order) && n < |order| && b in h[order[n]].readSet
    requires h[order[n]].snapshot <= order[n] && i < |h| && b in h[i].writes
    ensures i in order[..n] <==> i < h[order[n]].snapshot
  {
    var j := order[n];
    assert i in order;
    var y :| 0 <= y < |order| && order[y] == i;
    ListedBefore(order, |h|, n);
    assert b in h[i].WriteSet() * h[j].readSet && b in h[j].readSet * h[i].WriteSet();
    assert i != j ==> Precedes(h, i, j) || Precedes(h, j, i);
  }

  lemma ReplayShowsReads(h: History, log: Log, order: seq<nat>, n: nat, b: Block)
    requires Recorded(h, log) && Respects(h, order) && n < |order| && b in h[order[n]].readSet
    requires h[order[n]].snapshot <= order[n]
    ensures Content(h, order[..n], b) == ValueAt(log, b, h[order[n]].snapshot)
  {
    var s := h[order[n]].snapshot;
    forall i: nat | i < |h| && b in h[i].writes ensures i in order[..n] <==> i < s {
      SeesItsWriters(h, order, n, b, i);
    }
    forall x, y | 0 <= x < y < n && order[y] < order[x] && BothWrite(h, order[x], order[y], b)
      ensures Independent(h[order[x]].writes[b], h[order[y]].writes[b])
    {
      InvertedAreIndependent(h, order, b, x, y);
    }
    RearrangedContent(h, log, order[..n], b, s);
  }

  lemma ReplayLeavesContent(h: History, log: Log, order: seq<nat>, b: Block)
    requires Recorded(h, log) && Respects(h, order)
    ensures Content(h, order, b) == ValueAt(log, b, |log|)
  {
    forall x, y | 0 <= x < y < |order| && order[y] < order[x] && BothWrite(h, order[x], order[y], b)
      ensures Independent(h[order[x]].writes[b], h[order[y]].writes[b])
    {
      InvertedAreIndependent(h, order, b, x, y);
    }
    RearrangedContent(h, log, order, b, |h|);
  }

  /** Every order that respects the dependencies explains the run, reads and final contents alike. */
  lemma SerialOrderExplainsRun(h: History, log: Log, order: seq<nat>)
    requires Admitted(h) && Recorded(h, log) && Respects(h, order)
    ensures Explains(h, log, order)
  {
    forall n, b | 0 <= n < |order| && b in h[order[n]].readSet
      ensures Content(h, order[..n], b) == ValueAt(log, b, h[order[n]].snapshot)
    {
      ReplayShowsReads(h, log, order, n, b);
    }
    forall b: Block ensures ExplainsContent(h, log, order, b) {
      ReplayLeavesContent(h, log, order, b);
    }
  }

  // ----- from ranks to orders -----

  /** Sorting by a rank that respects the dependencies gives an order that does. */
  lemma RankedOrderRespects(h: History, rank: seq<int>) returns (order: seq<nat>)
    requires Serializes(h, rank)
    ensures Respects(h, order) && SortedByRank(order, rank)
  {
    order := OrderByRank(rank, |h|);
    forall x, y | 0 <= x < |order| && 0 <= y < |order| && Precedes(h, order[x], order[y]) ensures x < y {
      assert rank[order[x]] < rank[order[y]];
    }
  }

  /** An admitted run in which no cycle passes a place the check misses is explained by a serial
      order. */
  lemma AdmittedRunIsExplained(h: History, log: Log) returns (order: seq<nat>)
    requires Admitted(h) && Recorded(h, log) && !exists c, k: nat :: MissedCycle(h, c, k)
    ensures Explains(h, log, order)
  {
    SerializableExactlyWhen(h);
    var rank :| Serializes(h, rank);
    order := RankedOrderRespects(h, rank);
    SerialOrderExplainsRun(h, log, order);
  }

  // ----- whole runs of the store -----

  /** The store, its log, and the transactions in it. */
  datatype Run = Run(world: World, history: History)

  datatype Call = CommitSsi(txn: Transaction, readSet: set<Block>, order: seq<Block>, settings: Settings)
                | Other(action: Action)

  ghost function RecordOf(log: Log, txn: Transaction, readSet: set<Block>): Record {
    Record(txn.snapshot, readSet, map b | b in txn.writes :: EffectOf(log, txn, b))
  }

  /** A transaction commits if it passes the preflight and the two-edge check and its writes resolve. */
  ghost function Make(r: Run, call: Call): Run
    requires Possible(r, call)
  {
    match call
    case Other(action) => r.(world := Apply(r.world, action))
    case CommitSsi(txn, readSet, order, settings) =>
      var record := RecordOf(r.world.log, txn, readSet);
      match Commit(r.world.store, txn, order, settings)
      case Aborted(store, _) => r.(world := World(store, r.world.log))
      case Committed(store, entry) =>
        if Dangerous(r.history, 0, record)
        then r.(world := World(Preflight(r.world.store, txn, order, settings).store, r.world.log))
        else Run(World(store, r.world.log + [entry]), r.history + [record])
  }

  /** Everybody commits with the check, against a snapshot that can still be read. */
  ghost predicate Possible(r: Run, call: Call) {
    match call
    case Other(action) => Allowed(action) && !action.DoCommit?
    case CommitSsi(txn, _, order, _) =>
      && ListsWrites(order, txn)
      && txn.snapshot <= |r.world.log| && Intact(r.world.store, r.world.log, txn.snapshot)
  }

  ghost predicate Sound(r: Run) {
    Valid(r.world.store, r.world.log) && Admitted(r.history) && Recorded(r.history, r.world.log)
  }

  const START := Run(World(Store(1, map[], map[], map[]), []), [])

  lemma StartIsSound()
    ensures Sound(START)
  {
  }

  lemma {:induction false} ResolvedKeys(store: Store, txn: Transaction, order: seq<Block>, policy: ConflictPolicy,
                                        done: map<Block, Bytes>)
    requires forall b | b in order :: b in txn.writes
    ensures var r := ResolveAll(store, txn, order, policy, done);
            r.Entry? ==> forall b | b in r.bytes :: b in done || b in order
    decreases |order|
  {
    if order != [] {
      var bytes := InstallBytes(store, txn, order[0], policy);
      if bytes.Some? {
        ResolvedKeys(store, txn, order[1..], policy, done[order[0] := bytes.value]);
      }
    }
  }

  /** A commit writes the blocks it staged and no others. */
  lemma CommittedKeys(store: Store, txn: Transaction, order: seq<Block>, settings: Settings)
    requires ListsWrites(order, txn) && Commit(store, txn, order, settings).Committed?
    ensures Commit(store, txn, order, settings).entry.Keys == txn.writes.Keys
  {
    var entry := Commit(store, txn, order, settings).entry;
    ResolvedKeys(Preflight(store, txn, order, settings).store, txn, order, settings.installPolicy, map[]);
    forall b | b in txn.writes ensures b in entry {
      CommittedEntry(store, txn, order, settings, b);
    }
  }

  lemma CommitIsRecorded(store: Store, log: Log, h: History, txn: Transaction, readSet: set<Block>, order: seq<Block>,
                         settings: Settings)
    requires Valid(store, log) && Intact(store, log, txn.snapshot) && ListsWrites(order, txn) && txn.snapshot <= |log|
    requires Recorded(h, log) && Commit(store, txn, order, settings).Committed?
    ensures Recorded(h + [RecordOf(log, txn, readSet)], log + [Commit(store, txn, order, settings).entry])
  {
    var record, entry := RecordOf(log, txn, readSet), Commit(store, txn, order, settings).entry;
    CommittedKeys(store, txn, order, settings);
    forall b | b in record.writes
      ensures entry[b] == Perform(record.writes[b], ValueAt(log, b, |log|).GetOr([]))
    {
      CommitPerforms(store, log, txn, order, settings, b);
    }
    RecordedGrows(h, log, record, entry);
  }

  lemma RecordedGrows(h: History, log: Log, record: Record, entry: map<Block, Bytes>)
    requires Recorded(h, log) && entry.Keys == record.WriteSet()
    requires forall b | b in record.writes :: entry[b] == Perform(record.writes[b], ValueAt(log, b, |log|).GetOr([]))
    ensures Recorded(h + [record], log + [entry])
  {
    forall j | 0 <= j <= |h| ensures RecordedAt((h + [record])[j], log + [entry], j) {
      forall b | b in (h + [record])[j].writes ensures ValueAt(log + [entry], b, j) == ValueAt(log, b, j) {
        ValueAtOfAppend(log, entry, b, j);
      }
      assert j < |h| ==> RecordedAt(h[j], log, j);
    }
  }

  lemma AdmittedGrows(h: History, record: Record)
    requires Admitted(h) && record.snapshot <= |h| && !Dangerous(h, 0, record)
    ensures Admitted(h + [record])
  {
    forall j | 0 <= j <= |h| ensures !Dangerous((h + [record])[..j], 0, (h + [record])[j]) {
      assert (h + [record])[..j] == h[..j];
      assert h[..|h|] == h;
    }
  }

  lemma MakeIsSound(r: Run, call: Call)
    requires Sound(r) && Possible(r, call)
    ensures Sound(Make(r, call))
  {
    match call
    case Other(action) => StepKeeps(r.world, action, 0);
    case CommitSsi(txn, readSet, order, settings) =>
      StepKeeps(r.world, DoCommit(txn, order, settings), 0);
      PreflightKeepsHistory(r.world.store, txn, order, settings);
      ReferencesDoNotMatter(r.world.store, Preflight(r.world.store, txn, order, settings).store, r.world.log, 0);
      var outcome := Commit(r.world.store, txn, order, settings);
      if outcome.Committed? && !Dangerous(r.history, 0, RecordOf(r.world.log, txn, readSet)) {
        CommitIsRecorded(r.world.store, r.world.log, r.history, txn, readSet, order, settings);
        AdmittedGrows(r.history, RecordOf(r.world.log, txn, readSet));
      }
  }

  // ----- when a serializable commit goes through -----

  /** No transaction that committed since the snapshot read what this one writes. */
  ghost predicate NobodyRead(h: History, snapshot: nat, written: set<Block>) {
    forall i: nat, b | snapshot <= i < |h| && b in h[i].readSet :: b !in written
  }

  /** No transaction that committed since the snapshot wrote what this one read. */
  ghost predicate NobodyWrote(h: History, snapshot: nat, read: set<Block>) {
    forall i: nat, b | snapshot <= i < |h| && b in h[i].writes :: b !in read
  }

  lemma DangerousExactlyWhen(h: History, record: Record)
    ensures Dangerous(h, 0, record)
            <==> && record.writes.Keys != {} && !NobodyRead(h, record.snapshot, record.writes.Keys)
                 && !NobodyWrote(h, record.snapshot, record.readSet)
  {
    if i: nat, b :| record.snapshot <= i < |h| && b in h[i].readSet && b in record.writes.Keys {
      assert b in h[i].readSet * record.WriteSet();
    }
    if i: nat, b :| record.snapshot <= i < |h| && b in h[i].writes && b in record.readSet {
      assert b in record.readSet * h[i].WriteSet();
    }
    if Incoming(h, 0, record) {
      var i :| 0 <= i < |h| && Concurrent(i, record.snapshot) && Intersects(h[i].readSet, record.WriteSet());
      var b :| b in h[i].readSet * record.WriteSet();
    }
    if Outgoing(h, 0, record) {
      var i :| 0 <= i < |h| && Concurrent(i, record.snapshot) && Intersects(record.readSet, h[i].WriteSet());
      var b :| b in record.readSet * h[i].WriteSet();
    }
  }

  /** The two-edge check stops nothing. */
  ghost predicate Safe(h: History, txn: Transaction, readSet: set<Block>) {
    || txn.writes.Keys == {}
    || NobodyRead(h, txn.snapshot, txn.writes.Keys)
    || NobodyWrote(h, txn.snapshot, readSet)
  }

  /** A serializable commit goes through if and only if the plain one does and the transaction writes
      nothing, or nobody since its snapshot read what it writes, or nobody since then wrote what it read.
      It then does what the plain one does and is added to the history; otherwise references aside nothing
      happens. */
  lemma CommitsSsiExactlyWhen(r: Run, txn: Transaction, readSet: set<Block>, order: seq<Block>, settings: Settings)
    requires Possible(r, CommitSsi(txn, readSet, order, settings))
    ensures var next, outcome := Make(r, CommitSsi(txn, readSet, order, settings)),
                                 Commit(r.world.store, txn, order, settings);
            if outcome.Committed? && Safe(r.history, txn, readSet)
            then && next.world == World(outcome.store, r.world.log + [outcome.entry])
                 && |next.history| == |r.history| + 1 && next.history[..|r.history|] == r.history
                 && next.history[|r.history|].snapshot == txn.snapshot
                 && next.history[|r.history|].readSet == readSet
                 && next.history[|r.history|].writes.Keys == txn.writes.Keys
            else && next.history == r.history && next.world.log == r.world.log
                 && OnlyReferencesChanged(r.world.store, next.world.store)
  {
    SafeMeans(r, txn, readSet);
    PreflightKeepsHistory(r.world.store, txn, order, settings);
    AbortInstallsNothing(r.world.store, txn, order, settings);
  }

  lemma SafeMeans(r: Run, txn: Transaction, readSet: set<Block>)
    ensures var record := RecordOf(r.world.log, txn, readSet);
            && record.writes.Keys == txn.writes.Keys
            && (Safe(r.history, txn, readSet) <==> !Dangerous(r.history, 0, record))
  {
    var record := RecordOf(r.world.log, txn, readSet);
    assert record.writes.Keys == txn.writes.Keys;
    DangerousExactlyWhen(r.history, record);
  }

  /** Said of the history alone. */
  lemma SsiCommitDecision(r: Run, txn: Transaction, readSet: set<Block>, order: seq<Block>, settings: Settings)
    requires Sound(r) && Counted(r.world.store) && Possible(r, CommitSsi(txn, readSet, order, settings))
    ensures |Make(r, CommitSsi(txn, readSet, order, settings)).history| > |r.history|
            <==> && txn.id != 0 && txn.id != 0xFFFF_FFFF_FFFF_FFFF && |r.world.log| + 1 < 0xFFFF_FFFF_FFFF_FFFF
                 && AllMergeable(r.world.log, txn, settings) && Safe(r.history, txn, readSet)
                 && (settings.cap.Some? ==> Unpressed(r.world.store, order, settings.cap.value))
  {
    CommitsSsiExactlyWhen(r, txn, readSet, order, settings);
    CommitsExactlyWhen(r.world.store, r.world.log, txn, order, settings);
  }

  ghost predicate RunsTo(r: Run, calls: seq<Call>, end: Run)
    decreases |calls|
  {
    if calls == [] then end == r else Possible(r, calls[0]) && RunsTo(Make(r, calls[0]), calls[1..], end)
  }

  lemma {:induction false} RunIsSound(r: Run, calls: seq<Call>, end: Run)
    requires Sound(r) && RunsTo(r, calls, end)
    ensures Sound(end)
    decreases |calls|
  {
    if calls != [] {
      MakeIsSound(r, calls[0]);
      RunIsSound(Make(r, calls[0]), calls[1..], end);
    }
  }

  lemma ExplainedIsRead(r: Run, order: seq<nat>, b: Block)
    requires Sound(r) && Explains(r.history, r.world.log, order)
    ensures Read(r.world.store.ChainOf(b), |r.world.log|) == Content(r.history, order, b)
  {
    assert ExplainsContent(r.history, r.world.log, order, b);
  }

  /** Over every run of the store, commits, aborts, prunes, registrations and releases: unless a cycle
      passes a place the two-edge check misses, one serial order of the committed transactions shows each
      of them what it read and leaves every block as the store now reads it. */
  lemma RunIsSerializable(calls: seq<Call>, end: Run) returns (order: seq<nat>)
    requires RunsTo(START, calls, end)
    requires !exists c, k: nat :: MissedCycle(end.history, c, k)
    ensures Explains(end.history, end.world.log, order)
    ensures forall b: Block ::
              Read(end.world.store.ChainOf(b), |end.world.log|) == Content(end.history, order, b)
  {
    StartIsSound();
    RunIsSound(START, calls, end);
    order := AdmittedRunIsExplained(end.history, end.world.log);
    forall b: Block ensures Read(end.world.store.ChainOf(b), |end.world.log|) == Content(end.history, order, b) {
      ExplainedIsRead(end, order, b);
    }
  }
}
