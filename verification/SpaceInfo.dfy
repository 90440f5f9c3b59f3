/** The sized ioctl and its retry protocol from `scripts/ffs_space_info.py`, against a filesystem
    whose number of space records may change between any two calls. */
module SpaceInfo {

  const HEADER_SIZE := 16
  const RECORD_SIZE := 24
  const MAX_SLOTS := (0x3FFF - HEADER_SIZE) / RECORD_SIZE
  const MAX_ATTEMPTS := 3
  const UNWRITTEN := 0xFFFF_FFFF_FFFF_FFFF

  // ----- the command word -----

  const LEGACY_COMMAND: bv32 := 0xC010_9414
  const SIZE_MASK: bv32 := 0x3FFF_0000

  function BufferSize(slots: nat): nat { HEADER_SIZE + slots * RECORD_SIZE }

  function Command(size: bv32): bv32 { (LEGACY_COMMAND & !SIZE_MASK) | (size << 16) }

  /** The size field holds the buffer size and the rest of the word is the legacy command's. */
  lemma CommandEncodesSize(size: bv32)
    requires size <= 0x3FFF
    ensures (Command(size) & SIZE_MASK) >> 16 == size
    ensures Command(size) & !SIZE_MASK == LEGACY_COMMAND & !SIZE_MASK
  {
  }

  /** Every request the protocol can make has a size that fits the field, and asking for no
      records is the legacy command. */
  lemma EveryRequestFits(slots: nat)
    requires slots <= MAX_SLOTS
    ensures MAX_SLOTS == 681 && BufferSize(681 + 1) > 0x3FFF
    ensures BufferSize(slots) <= 0x3FFF
    ensures BufferSize(0) == 16 && Command(16) == 0xC010_9414
  {
  }

  // ----- one query -----

  datatype Record = Record(flags: nat, totalBytes: nat, usedBytes: nat)

  /** What the kernel leaves behind: its return value, the total in the header, and the record
      slots of the buffer. */
  datatype Reply = Reply(ret: int, total: nat, slots: seq<Record>)

  datatype Result<+T> = Ok(value: T) | OsError | ValueError | Again

  datatype Answer = Answer(total: nat, records: seq<Record>)

  predicate Written(r: Record) { r.flags != UNWRITTEN && r.totalBytes != UNWRITTEN && r.usedBytes != UNWRITTEN }

  /** No field is still the fill pattern, and no more is used than there is. */
  ghost predicate Sound(r: Record) {
    && 0xFFFF_FFFF_FFFF_FFFF !in {r.flags, r.totalBytes, r.usedBytes}
    && r.usedBytes <= r.totalBytes
  }

  function Min(a: nat, b: nat): nat { if a < b then a else b }

  /** The filesystem: its reply to the `call`-th ioctl, with room for `slots` records. */
  type Kernel = (nat, nat) -> Reply

  ghost predicate Answers(kernel: Kernel) { forall call, slots :: |kernel(call, slots).slots| == slots }

  ghost predicate Answered(reply: Reply, answer: Answer) {
    && reply.ret == 0 && reply.total <= 681 && answer.total == reply.total
    && answer.records == reply.slots[..Min(reply.total, |reply.slots|)]
    && forall r | r in answer.records :: Sound(r)
  }

  /** The reply to this call is an error, or incomplete or unsound. */
  ghost predicate Unanswered(kernel: Kernel, call: nat, slots: nat) {
    forall answer :: !Answered(kernel(call, slots), answer)
  }

  /** The error reported for such a reply: the system's own, or a bad value. */
  ghost predicate Refused<T(!new)>(kernel: Kernel, call: nat, slots: nat, r: Result<T>) {
    Unanswered(kernel, call, slots) && r == if kernel(call, slots).ret != 0 then OsError else ValueError
  }

  method Query(kernel: Kernel, call: nat, slots: nat) returns (r: Result<Answer>)
    requires |kernel(call, slots).slots| == slots
    ensures r.Ok? ==> slots <= 681 && Answered(kernel(call, slots), r.value)
    ensures !r.Ok? ==> if slots > 681 then r == ValueError else Refused(kernel, call, slots, r)
  {
    if slots > MAX_SLOTS {
      return ValueError;
    }
    var reply := kernel(call, slots);
    if reply.ret != 0 {
      return OsError;
    }
    if reply.total > MAX_SLOTS {
      return ValueError;
    }
    var records: seq<Record> := [];
    for index := 0 to Min(reply.total, slots)
      invariant records == reply.slots[..index] && forall r | r in records :: Sound(r)
    {
      var record := reply.slots[index];
      if !Written(record) || record.usedBytes > record.totalBytes {
        assert record in reply.slots[..Min(reply.total, slots)];
        return ValueError;
      }
      records := records + [record];
    }
    return Ok(Answer(reply.total, records));
  }

  // ----- the retry protocol -----

  /** The requests of a run: how many slots each call asked for, and what it was told. */
  datatype Exchange = Exchange(slots: nat, answer: Answer)

  ghost predicate Happened(kernel: Kernel, log: seq<Exchange>) {
    forall i | 0 <= i < |log| :: log[i].slots <= MAX_SLOTS && Answered(kernel(i, log[i].slots), log[i].answer)
  }

  /** The count a request starts from, in either mode. */
  function LastTotal(log: seq<Exchange>): nat { if log == [] then 0 else log[|log| - 1].answer.total }

  /** The count rose between the request before and this one. */
  ghost predicate Grew(log: seq<Exchange>, i: nat) { 1 <= i < |log| && log[i - 1].answer.total < log[i].answer.total }

  /** In FUSE mode the `k`-th request asks for what the one before it reported. */
  ghost predicate FollowsCounts(log: seq<Exchange>) {
    forall i | 1 <= i < |log| :: log[i].slots == log[i - 1].answer.total
  }

  /** Reading through FUSE: each attempt asks for the count the one before it reported, until a
      count stops growing. `log` holds the exchanges that succeeded. */
  method SpaceInfoFuse(kernel: Kernel) returns (r: Result<seq<Record>>, calls: nat, ghost log: seq<Exchange>)
    requires Answers(kernel)
    ensures calls <= 4 && calls == |log| + if r.OsError? || r.ValueError? then 1 else 0
    ensures Happened(kernel, log) && FollowsCounts(log) && (log != [] ==> log[0].slots == 0)
    ensures forall i | 1 <= i < |log| - 1 :: Grew(log, i)
    ensures r.Ok? ==> |log| >= 2 && !Grew(log, |log| - 1)
                      && r.value == log[|log| - 1].answer.records && |r.value| == LastTotal(log)
                      && forall x | x in r.value :: Sound(x)
    ensures r.Again? ==> |log| == 4 && Grew(log, 3)
    ensures r.OsError? || r.ValueError? ==> Refused(kernel, |log|, LastTotal(log), r)
  {
    log := [];
    var first := Query(kernel, 0, 0);
    calls := 1;
    if !first.Ok? {
      r := Failure(first);
      return;
    }
    log := [Exchange(0, first.value)];
    var total := first.value.total;
    for attempt := 0 to MAX_ATTEMPTS
      invariant |log| == calls == attempt + 1 && log[0].slots == 0 && total == LastTotal(log) <= MAX_SLOTS
      invariant Happened(kernel, log) && FollowsCounts(log)
      invariant forall i | 1 <= i < |log| :: Grew(log, i)
    {
      var next := Query(kernel, attempt + 1, total);
      calls := calls + 1;
      if !next.Ok? {
        r := Failure(next);
        return;
      }
      StableCountSuffices(kernel, attempt + 1, total, next.value);
      ExtendLog(kernel, log, Exchange(total, next.value));
      log := log + [Exchange(total, next.value)];
      total := next.value.total;
      if |next.value.records| == total {
        r := Ok(next.value.records);
        return;
      }
    }
    r := Again;
  }

  lemma ExtendLog(kernel: Kernel, log: seq<Exchange>, e: Exchange)
    requires log != [] && Happened(kernel, log) && FollowsCounts(log)
    requires e.slots == LastTotal(log) <= MAX_SLOTS && Answered(kernel(|log|, e.slots), e.answer)
    ensures Happened(kernel, log + [e]) && FollowsCounts(log + [e]) && LastTotal(log + [e]) == e.answer.total
    ensures forall i | 1 <= i < |log| :: Grew(log + [e], i) <==> Grew(log, i)
    ensures Grew(log + [e], |log|) <==> LastTotal(log) < e.answer.total
  {
  }

  function Failure<T, U>(r: Result<T>): (f: Result<U>)
    requires r.OsError? || r.ValueError?
    ensures if r.OsError? then f.OsError? else f.ValueError?
  {
    if r.OsError? then OsError else ValueError
  }

  /** One attempt on a native mount: the array, and the fresh count it is held against. */
  datatype Round = Round(slots: nat, filled: Answer, count: Answer)

  function CountBefore(first: Answer, rounds: seq<Round>, i: nat): nat
    requires i <= |rounds|
  {
    if i == 0 then first.total else rounds[i - 1].count.total
  }

  ghost predicate RoundHappened(kernel: Kernel, first: Answer, rounds: seq<Round>, i: nat)
    requires i < |rounds|
  {
    && rounds[i].slots == CountBefore(first, rounds, i) <= MAX_SLOTS
    && Answered(kernel(2 * i + 1, rounds[i].slots), rounds[i].filled) && Answered(kernel(2 * i + 2, 0), rounds[i].count)
  }

  /** Reading a native mount: after each array a fresh count decides whether it was whole. */
  method SpaceInfoKernel(kernel: Kernel)
    returns (r: Result<seq<Record>>, calls: nat, ghost first: Answer, ghost rounds: seq<Round>)
    requires Answers(kernel)
    ensures calls <= 7 && |rounds| <= 3
    ensures forall i | 0 <= i < |rounds| :: RoundHappened(kernel, first, rounds, i)
    ensures rounds != [] ==> Answered(kernel(0, 0), first)
    ensures forall i | 0 <= i < |rounds| - 1 :: |rounds[i].filled.records| != rounds[i].count.total
    ensures r.Ok? ==> rounds != [] && var last := rounds[|rounds| - 1];
                      && r.value == last.filled.records && |r.value| == last.count.total
                      && forall x | x in r.value :: Sound(x)
    ensures r.Again? ==>
              |rounds| == 3 && var last := rounds[|rounds| - 1]; |last.filled.records| != last.count.total
    ensures r.Ok? || r.Again? ==> calls == 1 + 2 * |rounds|
    ensures r.OsError? || r.ValueError? ==>
              || (calls == 1 && rounds == [] && Refused(kernel, 0, 0, r))
              || (calls == 2 + 2 * |rounds| && Answered(kernel(0, 0), first)
                  && Refused(kernel, calls - 1, CountBefore(first, rounds, |rounds|), r))
              || (calls == 3 + 2 * |rounds| && Answered(kernel(0, 0), first) && Refused(kernel, calls - 1, 0, r))
  {
    rounds, first := [], Answer(0, []);
    var start := Query(kernel, 0, 0);
    calls := 1;
    if !start.Ok? {
      r := Failure(start);
      return;
    }
    first := start.value;
    var total := start.value.total;
    for attempt := 0 to MAX_ATTEMPTS
      invariant Answered(kernel(0, 0), first)
      invariant |rounds| == attempt && calls == 1 + 2 * attempt
                && total == CountBefore(first, rounds, attempt) <= MAX_SLOTS
      invariant forall i | 0 <= i < |rounds| :: RoundHappened(kernel, first, rounds, i)
      invariant forall i | 0 <= i < |rounds| :: |rounds[i].filled.records| != rounds[i].count.total
    {
      var filled := Query(kernel, 2 * attempt + 1, total);
      calls := calls + 1;
      if !filled.Ok? {
        r := Failure(filled);
        return;
      }
      var count := Query(kernel, 2 * attempt + 2, 0);
      calls := calls + 1;
      if !count.Ok? {
        r := Failure(count);
        return;
      }
      ghost var before := rounds;
      rounds := rounds + [Round(total, filled.value, count.value)];
      forall i | 0 <= i < |rounds| ensures RoundHappened(kernel, first, rounds, i) {
        assert i < attempt ==> RoundHappened(kernel, first, before, i);
      }
      total := count.value.total;
      if |filled.value.records| == total {
        r := Ok(filled.value.records);
        return;
      }
    }
    r := Again;
  }

  /** Through FUSE, a count that does not grow is enough: the array it was read with is whole. */
  lemma StableCountSuffices(kernel: Kernel, call: nat, slots: nat, answer: Answer)
    requires |kernel(call, slots).slots| == slots && Answered(kernel(call, slots), answer)
    ensures |answer.records| == answer.total <==> answer.total <= slots
  {
  }
}
