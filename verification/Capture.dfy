/** The capture loop of `scripts/ffs_inspect_sandbox.py`: what the supervisor keeps of a child's
    output and why it stops reading. */
module Capture {

  type Bytes = seq<bv8>

  datatype Stream = Stdout | Stderr | Status

  /** What the selector reports, in the order it is handled. */
  datatype Event = Chunk(stream: Stream, bytes: Bytes) | Eof(stream: Stream) | Deadline

  datatype Reason = Finished | WallTimeLimit | StatusLimit | OutputLimit

  const CHUNK: nat := 65536

  datatype Captured = Captured(stdout: Bytes, stderr: Bytes, status: Bytes) {
    function Of(s: Stream): Bytes { match s case Stdout => stdout case Stderr => stderr case Status => status }

    function Extend(s: Stream, more: Bytes): Captured {
      match s
      case Stdout => this.(stdout := stdout + more)
      case Stderr => this.(stderr := stderr + more)
      case Status => this.(status := status + more)
    }

    /** How much of the budget shared by a stream's kind is used. */
    function Used(s: Stream): nat { if s.Status? then |status| else |stdout| + |stderr| }
  }

  function Budget(s: Stream, limit: nat): nat { if s.Status? then CHUNK else limit }

  /** Everything the child produced, without any limit. */
  ghost function Produced(events: seq<Event>): Captured {
    if events == [] then Captured([], [], [])
    else
      var before, last := Produced(events[..|events| - 1]), events[|events| - 1];
      if last.Chunk? then before.Extend(last.stream, last.bytes) else before
  }

  lemma {:induction false} ProducedGrows(events: seq<Event>, n: nat, s: Stream)
    requires n <= |events|
    ensures Produced(events[..n]).Of(s) <= Produced(events).Of(s)
  {
    if n < |events| {
      var shorter := events[..|events| - 1];
      assert shorter[..n] == events[..n];
      ProducedGrows(shorter, n, s);
    } else {
      assert events[..n] == events;
    }
  }

  /** Event `i` takes its stream over a budget that sufficed until then. */
  ghost predicate Overflows(events: seq<Event>, i: nat, limit: nat) {
    && i < |events| && events[i].Chunk?
    && var s := events[i].stream; Produced(events[..i]).Used(s) <= Budget(s, limit) < Produced(events[..i + 1]).Used(s)
  }

  /** Reads until a limit is hit or the events end; `n` counts the events handled. */
  method Supervise(events: seq<Event>, limit: nat) returns (kept: Captured, reason: Reason, ghost n: nat)
    ensures n <= |events|
    ensures |kept.stdout| + |kept.stderr| <= limit && |kept.status| <= 65536
    ensures forall s :: kept.Of(s) <= Produced(events[..n]).Of(s) <= Produced(events).Of(s)
    ensures reason == Finished ==> n == |events| && kept == Produced(events)
    ensures reason == WallTimeLimit ==> n < |events| && events[n].Deadline? && kept == Produced(events[..n])
    ensures reason == OutputLimit ==>
              && 1 <= n && Overflows(events, n - 1, limit) && !events[n - 1].stream.Status?
              && |kept.stdout| + |kept.stderr| == limit
    ensures reason == StatusLimit ==>
              1 <= n && Overflows(events, n - 1, limit) && events[n - 1].stream.Status? && |kept.status| == 65536
    ensures forall m | 0 <= m < n && !(reason in {OutputLimit, StatusLimit} && m == n - 1) ::
              !events[m].Deadline? && !Overflows(events, m, limit)
  {
    kept, reason, n := Captured([], [], []), Finished, 0;
    for i := 0 to |events|
      invariant n == i && kept == Produced(events[..i])
      invariant kept.Used(Stdout) <= limit && kept.Used(Status) <= CHUNK
      invariant forall m | 0 <= m < i :: !events[m].Deadline? && !Overflows(events, m, limit)
    {
      assert events[..i + 1][..i] == events[..i];
      if events[i].Deadline? {
        PrefixesOfProduced(events, i);
        reason := WallTimeLimit;
        return;
      }
      n := i + 1;
      if events[i].Chunk? {
        var s, over := events[i].stream, false;
        kept, over := Keep(kept, s, events[i].bytes, limit);
        if over {
          PrefixesOfProduced(events, i + 1);
          reason := if s.Status? then StatusLimit else OutputLimit;
          return;
        }
      }
    }
    assert events[..|events|] == events;
  }

  lemma PrefixesOfProduced(events: seq<Event>, n: nat)
    requires n <= |events|
    ensures forall s :: Produced(events[..n]).Of(s) <= Produced(events).Of(s)
  {
    forall s ensures Produced(events[..n]).Of(s) <= Produced(events).Of(s) {
      ProducedGrows(events, n, s);
    }
  }

  /** Keeps as much of a chunk as the budget allows. */
  method Keep(kept: Captured, s: Stream, bytes: Bytes, limit: nat) returns (kept': Captured, over: bool)
    requires kept.Used(s) <= Budget(s, limit)
    ensures over <==> kept.Extend(s, bytes).Used(s) > Budget(s, limit)
    ensures !over ==> kept' == kept.Extend(s, bytes)
    ensures over ==> kept'.Used(s) == Budget(s, limit)
    ensures forall t :: kept'.Of(t) <= kept.Extend(s, bytes).Of(t)
    ensures kept'.Used(if s.Status? then Stdout else Status) == kept.Used(if s.Status? then Stdout else Status)
  {
    var available := Budget(s, limit) - kept.Used(s);
    var part := bytes[..Min(|bytes|, Max(0, available))];
    kept' := kept.Extend(s, part);
    over := |bytes| > available;
    assert !over ==> part == bytes;
  }

  function Min(a: int, b: int): int { if a < b then a else b }

  function Max(a: int, b: int): int { if a > b then a else b }

  predicate Fits(produced: Captured, limit: nat) { produced.Used(Stdout) <= limit && produced.Used(Status) <= CHUNK }

  /** Nothing is lost exactly when no deadline passed and both budgets sufficed. */
  lemma {:induction false} BudgetsSufficeExactlyWhen(events: seq<Event>, limit: nat)
    ensures (forall m | 0 <= m < |events| :: !Overflows(events, m, limit))
            <==> Fits(Produced(events), limit)
  {
    if events != [] {
      var last, shorter := |events| - 1, events[..|events| - 1];
      BudgetsSufficeExactlyWhen(shorter, limit);
      forall m | 0 <= m < last ensures Overflows(events, m, limit) <==> Overflows(shorter, m, limit) {
        assert shorter[..m + 1] == events[..m + 1] && shorter[..m] == events[..m];
      }
      LastOverflows(events, limit);
    }
  }

  /** The last event overflows if the budgets sufficed before it and do not after it. */
  lemma LastOverflows(events: seq<Event>, limit: nat)
    requires events != []
    ensures Fits(Produced(events), limit) <==>
            Fits(Produced(events[..|events| - 1]), limit) && !Overflows(events, |events| - 1, limit)
  {
    var before, last := Produced(events[..|events| - 1]), events[|events| - 1];
    assert events[..|events|] == events;
    if last.Chunk? {
      UsedOfExtend(before, last.stream, last.bytes, Stdout);
      UsedOfExtend(before, last.stream, last.bytes, Status);
      UsedOfExtend(before, last.stream, last.bytes, last.stream);
      assert before.Used(Stderr) == before.Used(Stdout);
    }
  }

  lemma UsedOfExtend(c: Captured, s: Stream, more: Bytes, t: Stream)
    ensures c.Extend(s, more).Used(t) == c.Used(t) + if s.Status? == t.Status? then |more| else 0
  {
  }
}
