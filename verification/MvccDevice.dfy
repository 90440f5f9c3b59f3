/** The device below the version store: flushing versions to their home locations in coalesced
    runs, evicting chains that are durable there, and what readers and a crash see. */
module MvccDevice {
  import opened MvccChain
  import opened MvccSpec
  import opened Wrappers

  type Blocks = map<Block, Bytes>

  // ----- ranged writes -----

  /** Consecutive blocks written one by one. */
  ghost function WriteAll(blocks: Blocks, start: Block, chunks: seq<Bytes>): Blocks
    decreases |chunks|
  {
    if chunks == [] then blocks else WriteAll(blocks[start := chunks[0]], start + 1, chunks[1..])
  }

  ghost function Concat(chunks: seq<Bytes>): Bytes {
    if chunks == [] then [] else chunks[0] + Concat(chunks[1..])
  }

  ghost function Split(data: Bytes, size: nat): seq<Bytes>
    requires 0 < size
  {
    if |data| < size then [] else [data[..size]] + Split(data[size..], size)
  }

  lemma {:induction false} SplitOfConcat(chunks: seq<Bytes>, size: nat)
    requires 0 < size && forall c | c in chunks :: |c| == size
    ensures Split(Concat(chunks), size) == chunks
  {
    if chunks != [] {
      var data := Concat(chunks);
      assert data[..size] == chunks[0] && data[size..] == Concat(chunks[1..]);
      SplitOfConcat(chunks[1..], size);
    }
  }

  lemma {:induction false} ConcatOfAppend(chunks: seq<Bytes>, c: Bytes)
    ensures Concat(chunks + [c]) == Concat(chunks) + c
  {
    if chunks == [] {
      assert [c][1..] == [];
      assert Concat([c]) == c + [];
    } else {
      assert (chunks + [c])[1..] == chunks[1..] + [c];
      ConcatOfAppend(chunks[1..], c);
    }
  }

  lemma {:induction false} WriteAllOfAppend(blocks: Blocks, start: Block, chunks: seq<Bytes>, c: Bytes)
    ensures WriteAll(blocks, start, chunks + [c]) == WriteAll(blocks, start, chunks)[start + |chunks| := c]
    decreases |chunks|
  {
    if chunks != [] {
      assert (chunks + [c])[1..] == chunks[1..] + [c];
      WriteAllOfAppend(blocks[start := chunks[0]], start + 1, chunks[1..], c);
    }
  }

  ghost predicate AllSized(chunks: seq<Bytes>, size: nat) { forall c | c in chunks :: |c| == size }

  lemma {:induction false} SplitIsSized(data: Bytes, size: nat)
    requires 0 < size
    ensures AllSized(Split(data, size), size)
  {
    if |data| >= size {
      SplitIsSized(data[size..], size);
    }
  }

  /** Gathered blocks come apart again as they were if and only if each has the device's block size. */
  lemma RunsComeApartExactlyWhen(chunks: seq<Bytes>, size: nat)
    requires 0 < size
    ensures Split(Concat(chunks), size) == chunks <==> AllSized(chunks, size)
  {
    SplitIsSized(Concat(chunks), size);
    if AllSized(chunks, size) {
      SplitOfConcat(chunks, size);
    }
  }

  /** Two versions of the wrong size whose bytes happen to fill two blocks are written without an
      error, and neither block gets its own bytes. */
  lemma WrongSizesShiftBytes()
    ensures var chunks: seq<Bytes> := [[1], [2, 3, 4]];
            |Concat(chunks)| % 2 == 0 && Split(Concat(chunks), 2) == [[1, 2], [3, 4]]
  {
    var chunks: seq<Bytes> := [[1], [2, 3, 4]];
    assert chunks[1..] == [[2, 3, 4]] && chunks[1..][1..] == [];
    var data: Bytes := [1, 2, 3, 4];
    assert Concat(chunks) == data;
    assert data[..2] == [1, 2] && data[2..] == [3, 4];
    assert data[2..][..2] == [3, 4] && data[2..][2..] == [];
  }

  lemma {:induction false} SizedLength(chunks: seq<Bytes>, size: nat)
    requires AllSized(chunks, size)
    ensures |Concat(chunks)| == |chunks| * size
  {
    if chunks != [] {
      SizedLength(chunks[1..], size);
      Distribute(|chunks[1..]|, size);
    }
  }

  lemma WholeBlocks(n: nat, size: nat)
    requires 0 < size
    ensures (n * size) % size == 0 && (n * size) / size == n
  {
    var q, r := (n * size) / size, (n * size) % size;
    assert n * size == q * size + r;
    SameQuotient(n, 0, q, r, size);
  }

  lemma Distribute(q: nat, size: nat)
    ensures (q + 1) * size == q * size + size
  {
  }

  lemma SameQuotient(q: nat, r: nat, q': nat, r': nat, size: nat)
    requires r < size && r' < size && q * size + r == q' * size + r'
    ensures q == q' && r == r'
  {
    if q < q' {
      Grows(q, q', size);
    } else if q' < q {
      Grows(q', q, size);
    }
  }

  lemma {:induction false} Grows(low: nat, high: nat, size: nat)
    requires low < high
    ensures low * size + size <= high * size
  {
    if low + 1 < high {
      Grows(low, high - 1, size);
      Distribute(high - 1, size);
    } else {
      Distribute(low, size);
    }
  }

  /** Whole blocks, all of them on a device of that many. */
  predicate Writable(start: Block, data: Bytes, size: nat, count: nat) {
    0 < size && |data| % size == 0 && (0 < |data| ==> start + |data| / size <= count)
  }

  class BlockDevice {
    var blocks: Blocks
    const size: nat
    const count: nat

    constructor (blocks: Blocks, size: nat, count: nat)
      ensures this.blocks == blocks && this.size == size && this.count == count
    {
      this.blocks := blocks;
      this.size := size;
      this.count := count;
    }

    method WriteContiguous(start: Block, data: Bytes) returns (ok: bool)
      modifies this
      ensures ok <==> Writable(start, data, size, count)
      ensures blocks == if ok then WriteAll(old(blocks), start, Split(data, size)) else old(blocks)
    {
      if !Writable(start, data, size, count) {
        return false;
      }
      var block, rest := start, data;
      while |rest| >= size
        invariant WriteAll(blocks, block, Split(rest, size)) == WriteAll(old(blocks), start, Split(data, size))
        decreases |rest|
      {
        blocks := blocks[block := rest[..size]];
        block, rest := block + 1, rest[size..];
      }
      return true;
    }
  }

  // ----- flushing -----

  /** The block has a version newer than the last flush. */
  predicate Dirty(chain: Chain, after: nat) { LatestSeqno(chain) > after }

  ghost function Newest(chain: Chain): Bytes
    requires WellFormed(chain) && chain != []
  {
    ResolvesInWellFormed(chain, |chain| - 1);
    Resolve(chain, |chain| - 1).value
  }

  /** The device after the newest version of each dirty block among `done` is written home. */
  ghost function FlushedPart(blocks: Blocks, chains: map<Block, Chain>, after: nat, done: set<Block>): Blocks
    requires forall b | b in chains :: WellFormed(chains[b])
  {
    map b | b in blocks.Keys + chains.Keys && (b in blocks || (b in done && Dirty(chains[b], after))) ::
      if b in done && b in chains && Dirty(chains[b], after) then Newest(chains[b]) else blocks[b]
  }

  /** The device after every dirty block's newest version is written home. */
  ghost function Flushed(blocks: Blocks, chains: map<Block, Chain>, after: nat): Blocks
    requires forall b | b in chains :: WellFormed(chains[b])
  {
    FlushedPart(blocks, chains, after, chains.Keys)
  }

  /** A flush cut short, whichever blocks it had reached, is made good by the next one. */
  lemma RetryCompletes(blocks: Blocks, chains: map<Block, Chain>, after: nat, done: set<Block>)
    requires forall b | b in chains :: WellFormed(chains[b])
    ensures Flushed(FlushedPart(blocks, chains, after, done), chains, after) == Flushed(blocks, chains, after)
  {
  }

  /** The same, one block at a time. */
  ghost function FlushedSoFar(blocks: Blocks, chains: map<Block, Chain>, after: nat, order: seq<Block>): Blocks
    requires forall b | b in order :: b in chains && WellFormed(chains[b])
  {
    if order == [] then blocks
    else
      var done, b := FlushedSoFar(blocks, chains, after, order[..|order| - 1]), order[|order| - 1];
      if Dirty(chains[b], after) then done[b := Newest(chains[b])] else done
  }

  lemma {:induction false} FlushedSoFarAt(blocks: Blocks, chains: map<Block, Chain>, after: nat, order: seq<Block>)
    requires forall b | b in order :: b in chains && WellFormed(chains[b])
    ensures FlushedSoFar(blocks, chains, after, order).Keys
            == blocks.Keys + set b | b in order && Dirty(chains[b], after)
    ensures forall b | b in FlushedSoFar(blocks, chains, after, order) ::
              FlushedSoFar(blocks, chains, after, order)[b]
              == if b in order && Dirty(chains[b], after) then Newest(chains[b]) else blocks[b]
  {
    if order != [] {
      var rest, b := order[..|order| - 1], order[|order| - 1];
      assert order == rest + [b];
      FlushedSoFarAt(blocks, chains, after, rest);
    }
  }

  lemma FlushedIsBlockwise(blocks: Blocks, chains: map<Block, Chain>, after: nat, order: seq<Block>)
    requires forall b | b in order :: b in chains
    requires forall b | b in chains :: WellFormed(chains[b])
    ensures FlushedSoFar(blocks, chains, after, order) == FlushedPart(blocks, chains, after, set b | b in order)
    ensures (forall b | b in chains :: b in order) ==>
              FlushedSoFar(blocks, chains, after, order) == Flushed(blocks, chains, after)
  {
    PartIsBlockwise(blocks, chains, after, order);
    if forall b | b in chains :: b in order {
      assert (set b | b in order) == chains.Keys;
    }
  }

  lemma PartIsBlockwise(blocks: Blocks, chains: map<Block, Chain>, after: nat, order: seq<Block>)
    requires forall b | b in order :: b in chains
    requires forall b | b in chains :: WellFormed(chains[b])
    ensures FlushedSoFar(blocks, chains, after, order) == FlushedPart(blocks, chains, after, set b | b in order)
  {
    FlushedSoFarAt(blocks, chains, after, order);
  }

  // ----- runs of neighbouring blocks -----

  /** Neighbouring blocks written with one ranged write. */
  datatype Ranged = Ranged(start: Block, chunks: seq<Bytes>) {
    ghost function End(): Block { start + |chunks| }
    ghost function Data(): Bytes { Concat(chunks) }
  }

  ghost predicate Sound(chains: map<Block, Chain>, order: seq<Block>) {
    forall b | b in order :: b in chains && WellFormed(chains[b])
  }

  /** The dirty blocks among those listed, in maximal runs of neighbours. */
  ghost function RunsOf(chains: map<Block, Chain>, after: nat, order: seq<Block>): seq<Ranged>
    requires Sound(chains, order)
  {
    if order == [] then []
    else
      var runs, b := RunsOf(chains, after, order[..|order| - 1]), order[|order| - 1];
      if Dirty(chains[b], after) then Gather(runs, b, Newest(chains[b])) else runs
  }

  /** One more block: it continues the last run or starts another. */
  ghost function Gather(runs: seq<Ranged>, b: Block, data: Bytes): (r: seq<Ranged>)
    ensures r != []
  {
    if runs != [] && runs[|runs| - 1].End() == b
    then runs[..|runs| - 1] + [Ranged(runs[|runs| - 1].start, runs[|runs| - 1].chunks + [data])]
    else runs + [Ranged(b, [data])]
  }

  /** The device accepts a ranged write of whole blocks that it has. */
  ghost predicate Accepts(run: Ranged, size: nat, count: nat) { Writable(run.start, run.Data(), size, count) }

  /** What a ranged write leaves, whatever the sizes of the versions: the bytes, cut into blocks. */
  ghost function Written(blocks: Blocks, run: Ranged, size: nat): Blocks {
    if size == 0 then blocks else WriteAll(blocks, run.start, Split(run.Data(), size))
  }

  ghost function WriteRuns(blocks: Blocks, runs: seq<Ranged>, size: nat): Blocks {
    if runs == [] then blocks else Written(WriteRuns(blocks, runs[..|runs| - 1], size), runs[|runs| - 1], size)
  }

  /** All but the last run are final. */
  lemma {:induction false} RunsAreFinal(chains: map<Block, Chain>, after: nat, order: seq<Block>, n: nat, k: nat)
    requires Sound(chains, order) && n <= |order| && k < |RunsOf(chains, after, order[..n])|
    ensures k < |RunsOf(chains, after, order)|
    ensures k < |RunsOf(chains, after, order[..n])| - 1 ==>
              RunsOf(chains, after, order)[k] == RunsOf(chains, after, order[..n])[k]
    decreases |order| - n
  {
    if n == |order| {
      assert order[..n] == order;
    } else {
      assert order[..n + 1][..n] == order[..n];
      RunsAreFinal(chains, after, order, n + 1, k);
    }
  }

  // ----- the runs are the dirty blocks, as long as they can be -----

  /** The blocks of the runs with their bytes, one after another. */
  ghost function Flattened(runs: seq<Ranged>): seq<(Block, Bytes)> {
    if runs == [] then [] else Flattened(runs[..|runs| - 1]) + Numbered(runs[|runs| - 1].start, runs[|runs| - 1].chunks)
  }

  ghost function Numbered(start: Block, chunks: seq<Bytes>): seq<(Block, Bytes)> {
    seq(|chunks|, i requires 0 <= i < |chunks| => (start + i, chunks[i]))
  }

  /** The listed blocks with a version newer than the last flush, each with its newest content. */
  ghost function DirtyBlocks(chains: map<Block, Chain>, after: nat, order: seq<Block>): seq<(Block, Bytes)>
    requires Sound(chains, order)
  {
    if order == [] then []
    else
      var rest, b := DirtyBlocks(chains, after, order[..|order| - 1]), order[|order| - 1];
      if chains[b] != [] && chains[b][|chains[b]| - 1].seqno > after
      then rest + [(b, Resolve(chains[b], |chains[b]| - 1).GetOr([]))] else rest
  }

  /** No run could be joined to the one before it, and none is empty. */
  ghost predicate Maximal(runs: seq<Ranged>) {
    && (forall k | 0 <= k < |runs| :: runs[k].chunks != [])
    && forall k | 0 <= k < |runs| - 1 :: runs[k].End() != runs[k + 1].start
  }

  lemma GatherAddsOne(runs: seq<Ranged>, b: Block, data: Bytes)
    requires Maximal(runs)
    ensures Maximal(Gather(runs, b, data)) && Flattened(Gather(runs, b, data)) == Flattened(runs) + [(b, data)]
  {
    var more := Gather(runs, b, data);
    if runs != [] && runs[|runs| - 1].End() == b {
      var rest, last := runs[..|runs| - 1], runs[|runs| - 1];
      assert more[..|more| - 1] == rest;
      assert Numbered(last.start, last.chunks + [data]) == Numbered(last.start, last.chunks) + [(b, data)];
    } else {
      assert more[..|more| - 1] == runs;
      assert Numbered(b, [data]) == [(b, data)];
    }
  }

  /** The runs are the dirty blocks in the order listed, each run as long as it can be. */
  lemma {:induction false} RunsAreMaximal(chains: map<Block, Chain>, after: nat, order: seq<Block>)
    requires Sound(chains, order)
    ensures Maximal(RunsOf(chains, after, order))
    ensures Flattened(RunsOf(chains, after, order)) == DirtyBlocks(chains, after, order)
  {
    if order != [] {
      var shorter, b := order[..|order| - 1], order[|order| - 1];
      RunsAreMaximal(chains, after, shorter);
      DirtyBlocksStep(chains, after, order);
      if Dirty(chains[b], after) {
        GatherAddsOne(RunsOf(chains, after, shorter), b, Newest(chains[b]));
      }
    }
  }

  lemma DirtyBlocksStep(chains: map<Block, Chain>, after: nat, order: seq<Block>)
    requires order != [] && Sound(chains, order)
    ensures var rest, b := DirtyBlocks(chains, after, order[..|order| - 1]), order[|order| - 1];
            DirtyBlocks(chains, after, order)
            == if Dirty(chains[b], after) then rest + [(b, Newest(chains[b]))] else rest
  {
    var chain := chains[order[|order| - 1]];
    if chain != [] {
      ResolvesInWellFormed(chain, |chain| - 1);
    }
  }

  // ----- the flush -----

  /** The run being gathered, as the loop keeps it. */
  datatype Run = NoRun | Run(start: Block, next: Block, buf: Bytes)

  ghost predicate Gathered(run: Run, last: seq<Ranged>) {
    match run
    case NoRun => last == []
    case Run(start, next, buf) =>
      |last| == 1 && start == last[0].start && next == last[0].End() && buf == last[0].Data() && last[0].chunks != []
  }

  /** Writes the run out, or nothing if the device refuses it. */
  method WriteRun(run: Run, ghost last: seq<Ranged>, device: BlockDevice) returns (ok: bool)
    requires Gathered(run, last)
    modifies device
    ensures ok <==> forall r | r in last :: Accepts(r, device.size, device.count)
    ensures if ok then device.blocks == WriteRuns(old(device.blocks), last, device.size)
            else device.blocks == old(device.blocks)
  {
    if run.NoRun? {
      return true;
    }
    ok := device.WriteContiguous(run.start, run.buf);
    assert last[0] in last && last[..0] == [];
  }

  predicate Continues(run: Run, block: Block) { run.Run? && block == run.next }

  /** Adds a block to the run, writing the old run out first if the block does not continue it. */
  method AddToRun(run: Run, ghost last: seq<Ranged>, block: Block, data: Bytes, device: BlockDevice)
    returns (ok: bool, run': Run, ghost out: seq<Ranged>, ghost last': seq<Ranged>)
    requires Gathered(run, last)
    modifies device
    ensures ok ==> Gathered(run', last') && run'.Run? && out + last' == Gather(last, block, data)
                   && device.blocks == WriteRuns(old(device.blocks), out, device.size)
                   && forall r | r in out :: Accepts(r, device.size, device.count)
    ensures !ok ==> last != [] && out == [] && device.blocks == old(device.blocks) && !Continues(run, block)
                    && !Accepts(last[0], device.size, device.count)
  {
    ok, run', out, last' := true, run, [], last;
    if Continues(run, block) {
      ConcatOfAppend(last[0].chunks, data);
      last' := [Ranged(last[0].start, last[0].chunks + [data])];
      run' := Run(run.start, block + 1, run.buf + data);
    } else {
      ok := WriteRun(run, last, device);
      if ok {
        ConcatOfAppend([], data);
        assert [data][1..] == [];
        out, last' := last, [Ranged(block, [data])];
        run' := Run(block, block + 1, data);
      }
    }
  }

  /** Where a flush stands after `i` blocks: `out` are the runs written, `last` the one being gathered. */
  ghost predicate Underway(before: Blocks, now: Blocks, chains: map<Block, Chain>, after: nat, order: seq<Block>,
                           i: nat, out: seq<Ranged>, last: seq<Ranged>, size: nat, count: nat)
    requires i <= |order| && Sound(chains, order)
  {
    && RunsOf(chains, after, order[..i]) == out + last
    && now == WriteRuns(before, out, size) && forall r | r in out :: Accepts(r, size, count)
  }

  lemma {:induction false} WriteRunsOfAppend(blocks: Blocks, runs: seq<Ranged>, more: seq<Ranged>, size: nat)
    ensures WriteRuns(blocks, runs + more, size) == WriteRuns(WriteRuns(blocks, runs, size), more, size)
    decreases |more|
  {
    if more == [] {
      assert runs + more == runs;
    } else {
      var rest := more[..|more| - 1];
      assert (runs + more)[..|runs + more| - 1] == runs + rest;
      WriteRunsOfAppend(blocks, runs, rest, size);
    }
  }

  lemma GatherAfter(out: seq<Ranged>, last: seq<Ranged>, block: Block, data: Bytes)
    requires |last| <= 1 && (last == [] ==> out == [])
    ensures out + Gather(last, block, data) == Gather(out + last, block, data)
  {
    if last != [] {
      assert (out + last)[|out + last| - 1] == last[0] && (out + last)[..|out + last| - 1] == out;
    }
  }

  lemma TakeDirty(before: Blocks, now: Blocks, next: Blocks, chains: map<Block, Chain>, after: nat, order: seq<Block>,
                  i: nat, out: seq<Ranged>, last: seq<Ranged>, more: seq<Ranged>, last': seq<Ranged>, size: nat,
                  count: nat)
    requires i < |order| && Sound(chains, order) && |last| <= 1 && (last == [] ==> out == [])
    requires Underway(before, now, chains, after, order, i, out, last, size, count)
    requires Dirty(chains[order[i]], after) && more + last' == Gather(last, order[i], Newest(chains[order[i]]))
    requires next == WriteRuns(now, more, size) && forall r | r in more :: Accepts(r, size, count)
    ensures Underway(before, next, chains, after, order, i + 1, out + more, last', size, count)
  {
    assert order[..i + 1][..i] == order[..i];
    GatherAfter(out, last, order[i], Newest(chains[order[i]]));
    WriteRunsOfAppend(before, out, more, size);
    assert (out + more) + last' == out + (more + last');
  }

  /** One block of the walk. */
  method FlushOne(ghost before: Blocks, chains: map<Block, Chain>, order: seq<Block>, i: nat, after: nat,
                  device: BlockDevice, run: Run, ghost out: seq<Ranged>, ghost last: seq<Ranged>)
    returns (ok: bool, run': Run, ghost out': seq<Ranged>, ghost last': seq<Ranged>)
    requires i < |order| && Sound(chains, order) && Gathered(run, last) && (last == [] ==> out == [])
    requires Underway(before, device.blocks, chains, after, order, i, out, last, device.size, device.count)
    modifies device
    ensures ok ==> Gathered(run', last') && (last' == [] ==> out' == [])
    ensures ok ==>
              Underway(before, device.blocks, chains, after, order, i + 1, out', last', device.size, device.count)
    ensures !ok ==> out' == out
    ensures !ok ==> Refused(before, device.blocks, chains, after, order, |out|, device.size, device.count)
  {
    var chain := chains[order[i]];
    ghost var now := device.blocks;
    ok, run', out', last' := true, run, out, last;
    if !Dirty(chain, after) {
      SkipClean(before, now, chains, after, order, i, out, last, device.size, device.count);
      return;
    }
    var data := Resolved(chain, |chain| - 1);
    ghost var more;
    ok, run', more, last' := AddToRun(run, last, order[i], data, device);
    if ok {
      TakeDirty(before, now, device.blocks, chains, after, order, i, out, last, more, last', device.size,
                device.count);
      out' := out + more;
    } else {
      RefusedRun(before, now, chains, after, order, i, out, last, device.size, device.count);
    }
  }

  lemma SkipClean(before: Blocks, now: Blocks, chains: map<Block, Chain>, after: nat, order: seq<Block>, i: nat,
                  out: seq<Ranged>, last: seq<Ranged>, size: nat, count: nat)
    requires i < |order| && Sound(chains, order) && !Dirty(chains[order[i]], after)
    requires Underway(before, now, chains, after, order, i, out, last, size, count)
    ensures Underway(before, now, chains, after, order, i + 1, out, last, size, count)
  {
    assert order[..i + 1][..i] == order[..i];
  }

  /** The first `k` runs were written and the next one refused. */
  ghost predicate Refused(before: Blocks, now: Blocks, chains: map<Block, Chain>, after: nat, order: seq<Block>, k: nat,
                          size: nat, count: nat)
    requires Sound(chains, order)
  {
    var runs := RunsOf(chains, after, order);
    && k < |runs| && now == WriteRuns(before, runs[..k], size)
    && (forall r | r in runs[..k] :: Accepts(r, size, count)) && !Accepts(runs[k], size, count)
  }

  /** A run that the next block does not continue is final. */
  lemma RefusedRun(before: Blocks, now: Blocks, chains: map<Block, Chain>, after: nat, order: seq<Block>, i: nat,
                   out: seq<Ranged>, last: seq<Ranged>, size: nat, count: nat)
    requires i < |order| && Sound(chains, order) && |last| == 1
    requires Underway(before, now, chains, after, order, i, out, last, size, count)
    requires Dirty(chains[order[i]], after) && last[0].End() != order[i] && !Accepts(last[0], size, count)
    ensures Refused(before, now, chains, after, order, |out|, size, count)
  {
    var runs, run := RunsOf(chains, after, order), last[0];
    assert out + last == out + [run];
    assert order[..i + 1][..i] == order[..i];
    assert RunsOf(chains, after, order[..i + 1]) == out + [run] + [Ranged(order[i], [Newest(chains[order[i]])])];
    forall k | 0 <= k <= |out| ensures k < |runs| && runs[k] == (out + [run])[k] {
      RunsAreFinal(chains, after, order, i + 1, k);
    }
    assert runs[..|out|] == out;
  }

  /** Every run was written. */
  ghost predicate Completed(before: Blocks, now: Blocks, chains: map<Block, Chain>, after: nat, order: seq<Block>,
                            size: nat, count: nat)
    requires Sound(chains, order)
  {
    var runs := RunsOf(chains, after, order);
    now == WriteRuns(before, runs, size) && forall r | r in runs :: Accepts(r, size, count)
  }

  /** Walks the blocks and writes each run of neighbouring dirty blocks with one ranged write. The
      source walks them in ascending order, which makes the runs maximal; the outcome does not depend
      on it. Whatever the sizes of the versions, exactly the runs before the first refused one are
      written, `written` of them. */
  method FlushRuns(chains: map<Block, Chain>, order: seq<Block>, after: nat, device: BlockDevice)
    returns (ok: bool, ghost written: nat)
    requires Sound(chains, order)
    modifies device
    ensures ok ==> Completed(old(device.blocks), device.blocks, chains, after, order, device.size, device.count)
    ensures !ok ==>
              Refused(old(device.blocks), device.blocks, chains, after, order, written, device.size, device.count)
  {
    ok, written := true, 0;
    ghost var before := device.blocks;
    var run := NoRun;
    ghost var out: seq<Ranged>, last: seq<Ranged> := [], [];
    for i := 0 to |order|
      invariant Gathered(run, last) && (last == [] ==> out == [])
      invariant Underway(before, device.blocks, chains, after, order, i, out, last, device.size, device.count)
    {
      ok, run, out, last := FlushOne(before, chains, order, i, after, device, run, out, last);
      if !ok {
        written := |out|;
        return;
      }
    }
    ghost var now := device.blocks;
    ok := WriteRun(run, last, device);
    written := |out|;
    if ok {
      LastRunWritten(before, now, chains, after, order, out, last, device.size, device.count);
    } else {
      LastRunRefused(before, now, chains, after, order, out, last, device.size, device.count);
    }
  }

  /** The run still being gathered at the end is the last one. */
  lemma LastRunWritten(before: Blocks, now: Blocks, chains: map<Block, Chain>, after: nat, order: seq<Block>,
                       out: seq<Ranged>, last: seq<Ranged>, size: nat, count: nat)
    requires Sound(chains, order) && (forall r | r in last :: Accepts(r, size, count))
    requires Underway(before, now, chains, after, order, |order|, out, last, size, count)
    ensures Completed(before, WriteRuns(now, last, size), chains, after, order, size, count)
  {
    assert order[..|order|] == order;
    WriteRunsOfAppend(before, out, last, size);
  }

  lemma LastRunRefused(before: Blocks, now: Blocks, chains: map<Block, Chain>, after: nat, order: seq<Block>,
                       out: seq<Ranged>, last: seq<Ranged>, size: nat, count: nat)
    requires Sound(chains, order) && |last| == 1 && !Accepts(last[0], size, count)
    requires Underway(before, now, chains, after, order, |order|, out, last, size, count)
    ensures Refused(before, now, chains, after, order, |out|, size, count)
  {
    assert order[..|order|] == order;
    assert (out + last)[..|out|] == out && (out + last)[|out|] == last[0];
  }

  /** The whole flush: nothing if nothing was committed since, else the runs. With versions of the
      device's block size it succeeds exactly when the device has every dirty block; each then holds its
      newest version, and a refused flush has brought some of the blocks, as listed, to theirs. */
  method FlushAfter(chains: map<Block, Chain>, order: seq<Block>, current: nat, after: nat, device: BlockDevice)
    returns (ok: bool, through: nat, ghost written: nat, ghost reached: nat)
    requires forall b :: b in order <==> b in chains
    requires forall b | b in chains :: WellFormed(chains[b]) && LatestSeqno(chains[b]) <= current
    modifies device
    ensures ok ==> through == current
    ensures if ok then Completed(old(device.blocks), device.blocks, chains, after, order, device.size, device.count)
            else Refused(old(device.blocks), device.blocks, chains, after, order, written, device.size, device.count)
    ensures AllBlockSized(chains, device.size) ==>
              && (ok <==> forall b | b in chains && Dirty(chains[b], after) :: b < device.count)
              && reached <= |order|
              && device.blocks == if ok then Flushed(old(device.blocks), chains, after)
                                  else FlushedSoFar(old(device.blocks), chains, after, order[..reached])
  {
    ghost var before := device.blocks;
    ok, through, written, reached := true, current, 0, 0;
    if current <= after {
      NothingDirty(chains, after, order);
    } else {
      ok, written := FlushRuns(chains, order, after, device);
    }
    if AllBlockSized(chains, device.size) {
      SizedFlushCompletes(before, chains, after, order, device.size, device.count);
      if !ok {
        reached := SizedFlushStops(before, device.blocks, chains, after, order, written, device.size, device.count);
      }
    }
  }

  lemma {:induction false} NothingDirty(chains: map<Block, Chain>, after: nat, order: seq<Block>)
    requires Sound(chains, order) && forall b | b in order :: !Dirty(chains[b], after)
    ensures RunsOf(chains, after, order) == []
  {
    if order != [] {
      NothingDirty(chains, after, order[..|order| - 1]);
    }
  }

  /** The bytes of a version, markers resolved by walking back. */
  method Resolved(chain: Chain, i: nat) returns (data: Bytes)
    requires WellFormed(chain) && i < |chain|
    ensures Resolve(chain, i) == Some(data)
  {
    var k := i;
    while chain[k].data.Identical?
      invariant 0 <= k <= i && Resolve(chain, k) == Resolve(chain, i)
      decreases k
    {
      k := k - 1;
    }
    return chain[k].data.bytes;
  }

  // ----- versions of the device's block size -----

  ghost predicate BlockSized(chain: Chain, size: nat) {
    forall v | v in chain && v.data.Full? :: |v.data.bytes| == size
  }

  ghost predicate AllBlockSized(chains: map<Block, Chain>, size: nat) {
    0 < size && forall b | b in chains :: BlockSized(chains[b], size)
  }

  lemma {:induction false} ResolvedIsSized(chain: Chain, i: nat, size: nat)
    requires BlockSized(chain, size) && Resolve(chain, i).Some?
    ensures |Resolve(chain, i).value| == size
  {
    assert chain[i] in chain;
    if chain[i].data.Identical? {
      ResolvedIsSized(chain, i - 1, size);
    }
  }

  ghost predicate SizedRun(run: Ranged, size: nat) { run.chunks != [] && AllSized(run.chunks, size) }

  lemma SizedRunWrites(blocks: Blocks, run: Ranged, size: nat, count: nat)
    requires 0 < size && SizedRun(run, size)
    ensures Written(blocks, run, size) == WriteAll(blocks, run.start, run.chunks)
    ensures Accepts(run, size, count) <==> run.End() <= count
  {
    SplitOfConcat(run.chunks, size);
    SizedLength(run.chunks, size);
    WholeBlocks(|run.chunks|, size);
    Distribute(|run.chunks| - 1, size);
  }

  lemma SizedGather(blocks: Blocks, runs: seq<Ranged>, b: Block, data: Bytes, size: nat)
    requires 0 < size && |data| == size && forall r | r in runs :: SizedRun(r, size)
    ensures forall r | r in Gather(runs, b, data) :: SizedRun(r, size)
    ensures WriteRuns(blocks, Gather(runs, b, data), size) == WriteRuns(blocks, runs, size)[b := data]
  {
    if runs != [] && runs[|runs| - 1].End() == b {
      var rest, last := runs[..|runs| - 1], runs[|runs| - 1];
      assert runs == rest + [last] && last in runs;
      LongerRun(WriteRuns(blocks, rest, size), last, data, size);
      WriteRunsOfOne(blocks, rest, Ranged(last.start, last.chunks + [data]), size);
    } else {
      FreshRun(WriteRuns(blocks, runs, size), b, data, size);
      WriteRunsOfOne(blocks, runs, Ranged(b, [data]), size);
    }
  }

  lemma WriteRunsOfOne(blocks: Blocks, runs: seq<Ranged>, run: Ranged, size: nat)
    ensures WriteRuns(blocks, runs + [run], size) == Written(WriteRuns(blocks, runs, size), run, size)
  {
    assert (runs + [run])[..|runs|] == runs;
  }

  lemma LongerRun(blocks: Blocks, run: Ranged, data: Bytes, size: nat)
    requires 0 < size && |data| == size && SizedRun(run, size)
    ensures var longer := Ranged(run.start, run.chunks + [data]);
            SizedRun(longer, size) && Written(blocks, longer, size) == Written(blocks, run, size)[run.End() := data]
  {
    var longer := Ranged(run.start, run.chunks + [data]);
    assert SizedRun(longer, size);
    WriteAllOfAppend(blocks, run.start, run.chunks, data);
    SizedRunWrites(blocks, run, size, 0);
    SizedRunWrites(blocks, longer, size, 0);
  }

  lemma FreshRun(blocks: Blocks, b: Block, data: Bytes, size: nat)
    requires 0 < size && |data| == size
    ensures SizedRun(Ranged(b, [data]), size) && Written(blocks, Ranged(b, [data]), size) == blocks[b := data]
  {
    SizedRunWrites(blocks, Ranged(b, [data]), size, 0);
    assert [data][1..] == [];
  }

  /** Then writing the runs is writing block by block. */
  lemma {:induction false} SizedRuns(blocks: Blocks, chains: map<Block, Chain>, after: nat, order: seq<Block>,
                                     size: nat)
    requires Sound(chains, order) && AllBlockSized(chains, size)
    ensures forall r | r in RunsOf(chains, after, order) :: SizedRun(r, size)
    ensures WriteRuns(blocks, RunsOf(chains, after, order), size) == FlushedSoFar(blocks, chains, after, order)
  {
    if order != [] {
      var shorter, b := order[..|order| - 1], order[|order| - 1];
      SizedRuns(blocks, chains, after, shorter, size);
      if Dirty(chains[b], after) {
        ResolvesInWellFormed(chains[b], |chains[b]| - 1);
        ResolvedIsSized(chains[b], |chains[b]| - 1, size);
        SizedGather(blocks, RunsOf(chains, after, shorter), b, Newest(chains[b]), size);
      }
    }
  }

  /** The first `k` runs are those of some of the blocks. */
  lemma {:induction false} RunsOfPrefix(chains: map<Block, Chain>, after: nat, order: seq<Block>, k: nat)
    returns (reached: nat)
    requires Sound(chains, order) && k <= |RunsOf(chains, after, order)|
    ensures reached <= |order| && RunsOf(chains, after, order[..reached]) == RunsOf(chains, after, order)[..k]
  {
    var runs := RunsOf(chains, after, order);
    if k == |runs| {
      assert order[..|order|] == order && runs[..k] == runs;
      return |order|;
    }
    var shorter := order[..|order| - 1];
    assert runs[..k] == RunsOf(chains, after, shorter)[..k];
    reached := RunsOfPrefix(chains, after, shorter, k);
    assert shorter[..reached] == order[..reached];
  }

  lemma {:induction false} RunsCover(chains: map<Block, Chain>, after: nat, order: seq<Block>, count: nat)
    requires Sound(chains, order)
    ensures (forall r | r in RunsOf(chains, after, order) :: r.End() <= count)
            <==> forall b | b in order && Dirty(chains[b], after) :: b < count
  {
    if order != [] {
      var shorter, b := order[..|order| - 1], order[|order| - 1];
      var runs, more := RunsOf(chains, after, shorter), RunsOf(chains, after, order);
      assert order == shorter + [b];
      RunsCover(chains, after, shorter, count);
      if Dirty(chains[b], after) {
        GatherEnds(runs, b, Newest(chains[b]), count);
      }
    }
  }

  lemma GatherEnds(runs: seq<Ranged>, b: Block, data: Bytes, count: nat)
    ensures (forall r | r in Gather(runs, b, data) :: r.End() <= count)
            <==> (forall r | r in runs :: r.End() <= count) && b < count
  {
    var more := Gather(runs, b, data);
    var rest, last := more[..|more| - 1], more[|more| - 1];
    assert more == rest + [last] && last.End() == b + 1;
    assert forall r :: r in more <==> r in rest || r == last;
    if runs != [] && runs[|runs| - 1].End() == b {
      assert runs == rest + [runs[|runs| - 1]];
      assert forall r :: r in runs <==> r in rest || r == runs[|runs| - 1];
    }
  }

  /** With versions of the device's block size, a flush succeeds exactly when the device has every dirty
      block, and then each holds its newest version. */
  lemma SizedFlushCompletes(before: Blocks, chains: map<Block, Chain>, after: nat, order: seq<Block>, size: nat,
                            count: nat)
    requires (forall b :: b in order <==> b in chains) && (forall b | b in chains :: WellFormed(chains[b]))
    requires AllBlockSized(chains, size)
    ensures (forall r | r in RunsOf(chains, after, order) :: Accepts(r, size, count))
            <==> forall b | b in chains && Dirty(chains[b], after) :: b < count
    ensures WriteRuns(before, RunsOf(chains, after, order), size) == Flushed(before, chains, after)
  {
    SizedRuns(before, chains, after, order, size);
    RunsCover(chains, after, order, count);
    FlushedIsBlockwise(before, chains, after, order);
    forall r | r in RunsOf(chains, after, order) ensures Accepts(r, size, count) <==> r.End() <= count {
      SizedRunWrites(before, r, size, count);
    }
  }

  /** A refused one leaves a device on which some of the blocks, as listed, hold theirs. */
  lemma SizedFlushStops(before: Blocks, now: Blocks, chains: map<Block, Chain>, after: nat, order: seq<Block>, k: nat,
                        size: nat, count: nat)
    returns (reached: nat)
    requires Sound(chains, order) && AllBlockSized(chains, size)
    requires Refused(before, now, chains, after, order, k, size, count)
    ensures reached <= |order| && now == FlushedSoFar(before, chains, after, order[..reached])
  {
    reached := RunsOfPrefix(chains, after, order, k);
    SizedRuns(before, chains, after, order[..reached], size);
  }
}
