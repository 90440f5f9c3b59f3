/** `parse_trace` of `scripts/fsync_flush_count.py`: how often each system call was made, and how
    many bytes reached the image. */
module TraceFlush {
  import opened Trace
  import opened Wrappers

  datatype Outcome = Outcome(name: string, ret: int)

  const WRITE_SYSCALLS := {"write", "pwrite64", "writev", "pwritev", "pwritev2"}

  /** The bytes a call wrote, by its return value; a failed call wrote none. */
  function BytesWritten(call: Call<Outcome>): nat {
    if call.outcome.name in WRITE_SYSCALLS && call.outcome.ret > 0 then call.outcome.ret else 0
  }

  function CallsOf(name: string): Call<Outcome> -> int {
    (call: Call<Outcome>) => if call.outcome.name == name then 1 else 0
  }

  /** Bytes to one descriptor, or to any when none is given. */
  function BytesTo(image: Option<int>): Call<Outcome> -> int {
    (call: Call<Outcome>) => if image == None || call.fd == image then BytesWritten(call) else 0
  }

  function Count(calls: map<string, nat>, name: string): nat { if name in calls then calls[name] else 0 }

  method ParseTrace(lines: seq<Line<Outcome>>, image: Option<int>) returns (calls: map<string, nat>, written: nat)
    ensures forall name :: Count(calls, name) == Total(lines, map[], CallsOf(name))
    ensures forall name | name in calls :: calls[name] > 0
    ensures written == Total(lines, map[], BytesTo(image))
  {
    calls, written := map[], 0;
    var pending: Pending := map[];
    for i := 0 to |lines|
      invariant forall name ::
                  Count(calls, name) + Total(lines[i..], pending, CallsOf(name)) == Total(lines, map[], CallsOf(name))
      invariant forall name | name in calls :: calls[name] > 0
      invariant written + Total(lines[i..], pending, BytesTo(image)) == Total(lines, map[], BytesTo(image))
    {
      assert lines[i..][1..] == lines[i + 1..];
      match lines[i] {
        case Resumed(pid, outcome) =>
          calls, written := Record(calls, written, Call(FdOf(pending, pid), outcome), image);
          pending := pending - {pid};
        case Unfinished(pid, fd) =>
          pending := pending[pid := fd];
        case Complete(_, fd, outcome) =>
          calls, written := Record(calls, written, Call(fd, outcome), image);
        case Other(_) =>
      }
    }
  }

  method Record(calls: map<string, nat>, written: nat, call: Call<Outcome>, image: Option<int>)
    returns (calls': map<string, nat>, written': nat)
    ensures forall name :: Count(calls', name) == Count(calls, name) + CallsOf(name)(call)
    ensures (forall n | n in calls :: calls[n] > 0) ==> forall n | n in calls' :: calls'[n] > 0
    ensures written' == written + BytesTo(image)(call)
  {
    var name := call.outcome.name;
    calls' := calls[name := Count(calls, name) + 1];
    written' := written;
    if name in WRITE_SYSCALLS && call.outcome.ret > 0 && (image == None || call.fd == image) {
      written' := written + call.outcome.ret;
    }
  }

  // ----- every byte is attributed once -----

  /** Bytes to a descriptor outside the list, or to one the trace does not show. */
  function BytesElsewhere(fds: seq<int>): Call<Outcome> -> int {
    (call: Call<Outcome>) => if call.fd.Some? && call.fd.value in fds then 0 else BytesWritten(call)
  }

  ghost function PerDescriptor(lines: seq<Line<Outcome>>, fds: seq<int>): int {
    if fds == [] then 0 else Total(lines, map[], BytesTo(Some(fds[0]))) + PerDescriptor(lines, fds[1..])
  }

  lemma {:induction false} TotalAgrees<P(!new)>(lines: seq<Line<P>>, pending: Pending, f: Call<P> -> int,
                                                g: Call<P> -> int)
    requires forall c :: f(c) == g(c)
    ensures Total(lines, pending, f) == Total(lines, pending, g)
  {
    if lines != [] {
      TotalAgrees(lines[1..], After(pending, lines[0]), f, g);
    }
  }

  /** What was written anywhere is what was written to each descriptor of any list, plus the rest. */
  lemma {:induction false} BytesAreConserved(lines: seq<Line<Outcome>>, fds: seq<int>)
    requires forall i, j | 0 <= i < j < |fds| :: fds[i] != fds[j]
    ensures Total(lines, map[], BytesTo(None)) == PerDescriptor(lines, fds) + Total(lines, map[], BytesElsewhere(fds))
  {
    if fds == [] {
      TotalAgrees(lines, map[], BytesTo(None), BytesElsewhere([]));
    } else {
      var first, rest := fds[0], fds[1..];
      assert fds == [first] + rest;
      BytesAreConserved(lines, rest);
      TotalAdds(lines, map[], BytesTo(Some(first)), BytesElsewhere(fds), BytesElsewhere(rest));
    }
  }

  /** The counts and the bytes of an interleaved, split trace are those of its whole calls. */
  lemma TraceMeansItsCalls(lines: seq<Line<Outcome>>, whole: seq<Line<Outcome>>, image: Option<int>, name: string)
    requires ShowsAll(lines, whole, map[])
    ensures Total(lines, map[], BytesTo(image)) == Total(whole, map[], BytesTo(image))
    ensures Total(lines, map[], CallsOf(name)) == Total(whole, map[], CallsOf(name))
  {
    SplittingIsIrrelevant(lines, whole, map[], BytesTo(image));
    SplittingIsIrrelevant(lines, whole, map[], CallsOf(name));
  }

  // ----- in numbers -----

  /** A call moves as many bytes as it returns, if it is a write that did not fail and, when a descriptor is
      asked for, to that descriptor. */
  ghost function Moved(line: Line<Outcome>, image: Option<int>): nat {
    if && line.Complete? && line.outcome.ret > 0
       && line.outcome.name in {"write", "pwrite64", "writev", "pwritev", "pwritev2"}
       && (image.None? || line.fd == image)
    then line.outcome.ret else 0
  }

  ghost function SumMoved(whole: seq<Line<Outcome>>, image: Option<int>): nat {
    if whole == [] then 0 else SumMoved(whole[..|whole| - 1], image) + Moved(whole[|whole| - 1], image)
  }

  ghost function NamedAt(whole: seq<Line<Outcome>>, name: string): set<nat> {
    set i: nat | i < |whole| && whole[i].Complete? && whole[i].outcome.name == name
  }

  ghost predicate AllComplete(whole: seq<Line<Outcome>>) { forall line | line in whole :: line.Complete? }

  lemma CompleteShares(whole: seq<Line<Outcome>>, i: nat, image: Option<int>, name: string)
    requires AllComplete(whole) && i < |whole|
    ensures Share(whole, i, BytesTo(image)) == Moved(whole[i], image)
    ensures Share(whole, i, CallsOf(name)) == if i in NamedAt(whole, name) then 1 else 0
  {
    assert whole[i] in whole;
  }

  lemma {:induction false} SharesAreMoved(whole: seq<Line<Outcome>>, n: nat, image: Option<int>)
    requires AllComplete(whole) && n <= |whole|
    ensures SumOfShares(whole, n, BytesTo(image)) == SumMoved(whole[..n], image)
  {
    if n > 0 {
      SharesAreMoved(whole, n - 1, image);
      CompleteShares(whole, n - 1, image, "");
      assert whole[..n][..n - 1] == whole[..n - 1];
    }
  }

  lemma {:induction false} ShownIsComplete(lines: seq<Line<Outcome>>, whole: seq<Line<Outcome>>)
    requires Shows(lines, whole)
    ensures AllComplete(whole)
    decreases |lines|
  {
    if lines != [] {
      if whole != [] {
        assert whole == [whole[0]] + whole[1..];
      }
      match lines[0]
      case Other(_) => ShownIsComplete(lines[1..], whole);
      case Complete(_, _, _) => ShownIsComplete(lines[1..], whole[1..]);
      case Unfinished(_, _) =>
        if |lines| > 1 {
          ShownIsComplete(lines[2..], whole[1..]);
        }
    }
  }

  /** The bytes of a split, interleaved trace are the returns of its successful writes added up, and the
      count of a call is how many of its whole calls have that name. */
  lemma TraceInNumbers(lines: seq<Line<Outcome>>, whole: seq<Line<Outcome>>, image: Option<int>, name: string)
    requires ShowsAll(lines, whole, map[])
    ensures Total(lines, map[], BytesTo(image)) == SumMoved(whole, image)
    ensures Total(lines, map[], CallsOf(name)) == |NamedAt(whole, name)|
  {
    TraceMeansItsCalls(lines, whole, image, name);
    forall line | line in whole ensures line.Complete? {
      InItsProjection(whole, line);
      assert Shows(Project(lines, line.pid), Project(whole, line.pid));
      ShownIsComplete(Project(lines, line.pid), Project(whole, line.pid));
    }
    TotalIsSumOfShares(whole, BytesTo(image));
    TotalIsSumOfShares(whole, CallsOf(name));
    SharesAreMoved(whole, |whole|, image);
    assert whole[..|whole|] == whole;
    forall i: nat | i < |whole| ensures Share(whole, i, CallsOf(name)) == if i in NamedAt(whole, name) then 1 else 0 {
      CompleteShares(whole, i, image, name);
    }
    SumIsSize(whole, |whole|, CallsOf(name), NamedAt(whole, name));
    assert Below(NamedAt(whole, name), |whole|) == NamedAt(whole, name);
  }
}
