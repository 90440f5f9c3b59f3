/** `parse_trace` of `scripts/btrfs_readdir_node_reads.py`: the sizes and offsets of the reads of
    the image, with a count of all reads to hold them against. */
module TraceReads {
  import opened Trace
  import opened Wrappers

  datatype Span = Span(size: nat, offset: nat)

  const IMAGE_FD := 3

  type Histogram = map<nat, nat>

  predicate OfImage(call: Call<Span>) { call.fd == Some(IMAGE_FD) }

  function AnyImage(): Call<Span> -> int { call => if OfImage(call) then 1 else 0 }

  function OfSize(size: nat): Call<Span> -> int {
    (call: Call<Span>) => if OfImage(call) && call.outcome.size == size then 1 else 0
  }

  function AtOffset(offset: nat): Call<Span> -> int {
    (call: Call<Span>) => if OfImage(call) && call.outcome.offset == offset then 1 else 0
  }

  function Count(h: Histogram, k: nat): nat { if k in h then h[k] else 0 }

  function Add(h: Histogram, k: nat): Histogram { h[k := Count(h, k) + 1] }

  /** The lines that begin a read. */
  ghost function Started(lines: seq<Line<Span>>): nat {
    if lines == [] then 0
    else (if lines[0].Unfinished? || lines[0].Complete? then 1 else 0) + Started(lines[1..])
  }

  /** Lines naming the call in none of the three shapes. */
  ghost function Unparsed(lines: seq<Line<Span>>): nat {
    if lines == [] then 0 else (if lines[0].Other? then 1 else 0) + Unparsed(lines[1..])
  }

  method ParseTrace(lines: seq<Line<Span>>) returns (offsets: Histogram, sizes: Histogram, seen: nat, unparsed: nat)
    ensures forall k :: Count(offsets, k) == Total(lines, map[], AtOffset(k))
    ensures forall k :: Count(sizes, k) == Total(lines, map[], OfSize(k))
    ensures Sum(offsets) == Sum(sizes) == Total(lines, map[], AnyImage())
    ensures seen == Started(lines) && unparsed == Unparsed(lines)
  {
    offsets, sizes, seen, unparsed := map[], map[], 0, 0;
    var pending: Pending := map[];
    for i := 0 to |lines|
      invariant forall k ::
                  Count(offsets, k) + Total(lines[i..], pending, AtOffset(k)) == Total(lines, map[], AtOffset(k))
      invariant forall k :: Count(sizes, k) + Total(lines[i..], pending, OfSize(k)) == Total(lines, map[], OfSize(k))
      invariant Sum(offsets) == Sum(sizes) == Total(lines, map[], AnyImage()) - Total(lines[i..], pending, AnyImage())
      invariant seen + Started(lines[i..]) == Started(lines)
      invariant unparsed + Unparsed(lines[i..]) == Unparsed(lines)
    {
      assert lines[i..][1..] == lines[i + 1..];
      match lines[i] {
        case Unfinished(pid, fd) =>
          seen := seen + 1;
          pending := pending[pid := fd];
        case Resumed(pid, span) =>
          offsets, sizes := CountRead(offsets, sizes, Call(FdOf(pending, pid), span));
          pending := pending - {pid};
        case Complete(_, fd, span) =>
          seen := seen + 1;
          offsets, sizes := CountRead(offsets, sizes, Call(fd, span));
        case Other(_) =>
          unparsed := unparsed + 1;
      }
    }
  }

  method CountRead(offsets: Histogram, sizes: Histogram, call: Call<Span>)
    returns (offsets': Histogram, sizes': Histogram)
    ensures forall k :: Count(offsets', k) == Count(offsets, k) + AtOffset(k)(call)
    ensures forall k :: Count(sizes', k) == Count(sizes, k) + OfSize(k)(call)
    ensures Sum(offsets') == Sum(offsets) + AnyImage()(call) && Sum(sizes') == Sum(sizes) + AnyImage()(call)
  {
    offsets', sizes' := offsets, sizes;
    if OfImage(call) {
      SumOfAdd(offsets, call.outcome.offset);
      SumOfAdd(sizes, call.outcome.size);
      offsets', sizes' := Add(offsets, call.outcome.offset), Add(sizes, call.outcome.size);
    }
  }

  // ----- histogram totals -----

  ghost function Sum(h: Histogram): nat
    decreases |h|
  {
    if h == map[] then 0
    else
      var k :| k in h;
      h[k] + Sum(h - {k})
  }

  lemma {:induction false} SumWithout(h: Histogram, k: nat)
    requires k in h
    ensures Sum(h) == h[k] + Sum(h - {k})
    decreases |h|
  {
    var first :| first in h && Sum(h) == h[first] + Sum(h - {first});
    if first != k {
      SumWithout(h - {first}, k);
      SumWithout(h - {k}, first);
      assert h - {first} - {k} == h - {k} - {first};
    }
  }

  lemma SumOfAdd(h: Histogram, k: nat)
    ensures Sum(Add(h, k)) == Sum(h) + 1
  {
    SumWithout(Add(h, k), k);
    if k in h {
      SumWithout(h, k);
      assert Add(h, k) - {k} == h - {k};
    } else {
      assert Add(h, k) - {k} == h;
    }
  }

  // ----- accounting -----

  ghost function AfterAll(pending: Pending, lines: seq<Line<Span>>): Pending
    decreases |lines|
  {
    if lines == [] then pending else AfterAll(After(pending, lines[0]), lines[1..])
  }

  /** Reads whose beginning and end are both in the trace. */
  ghost function Answered(lines: seq<Line<Span>>, pending: Pending): nat
    decreases |lines|
  {
    if lines == [] then 0
    else (if lines[0].Complete? || (lines[0].Resumed? && lines[0].pid in pending) then 1 else 0)
         + Answered(lines[1..], After(pending, lines[0]))
  }

  /** Reads whose end never came before the same process began another. */
  ghost function Dropped(lines: seq<Line<Span>>, pending: Pending): nat
    decreases |lines|
  {
    if lines == [] then 0
    else (if lines[0].Unfinished? && lines[0].pid in pending then 1 else 0)
         + Dropped(lines[1..], After(pending, lines[0]))
  }

  /** Of every trace: each read seen was answered, dropped, or is still in flight. */
  lemma {:induction false} ReadsAreAccountedFor(lines: seq<Line<Span>>, pending: Pending)
    ensures Started(lines) + |pending|
            == Answered(lines, pending) + Dropped(lines, pending) + |AfterAll(pending, lines)|
    decreases |lines|
  {
    if lines != [] {
      var after := After(pending, lines[0]);
      PendingSize(pending, lines[0]);
      ReadsAreAccountedFor(lines[1..], after);
    }
  }

  lemma PendingSize(pending: Pending, line: Line<Span>)
    ensures |After(pending, line)| == |pending|
            + (if line.Unfinished? && line.pid !in pending then 1 else 0)
            - (if line.Resumed? && line.pid in pending then 1 else 0)
  {
    var after := After(pending, line);
    assert after.Keys
        == if line.Unfinished? then pending.Keys + {line.pid}
           else if line.Resumed? then pending.Keys - {line.pid}
           else pending.Keys;
    assert |after| == |after.Keys| && |pending| == |pending.Keys|;
  }

  /** One process's lines: a read is never begun while another is open, and only an open one is
      resumed. */
  ghost predicate Alternates(lines: seq<Line<Span>>, open: bool) {
    if lines == [] then true
    else match lines[0]
      case Unfinished(_, _) => !open && Alternates(lines[1..], true)
      case Resumed(_, _) => open && Alternates(lines[1..], false)
      case Complete(_, _, _) => !open && Alternates(lines[1..], open)
      case Other(_) => Alternates(lines[1..], open)
  }

  ghost predicate AllAlternate(lines: seq<Line<Span>>, pending: Pending) {
    forall q :: Alternates(Project(lines, q), q in pending)
  }

  /** The reads a trace shows the end of. */
  ghost function Ended(lines: seq<Line<Span>>): nat {
    if lines == [] then 0 else (if lines[0].Resumed? || lines[0].Complete? then 1 else 0) + Ended(lines[1..])
  }

  lemma AlternationContinues(lines: seq<Line<Span>>, pending: Pending)
    requires lines != [] && AllAlternate(lines, pending)
    ensures AllAlternate(lines[1..], After(pending, lines[0]))
    ensures lines[0].Unfinished? ==> lines[0].pid !in pending
    ensures lines[0].Resumed? ==> lines[0].pid in pending
  {
    var pid := lines[0].pid;
    ProjectOfTail(lines, pid);
    assert Alternates(Project(lines, pid), pid in pending);
    forall q ensures Alternates(Project(lines[1..], q), q in After(pending, lines[0])) {
      ProjectOfTail(lines, q);
      assert Alternates(Project(lines, q), q in pending);
    }
  }

  /** In a well-formed trace nothing is dropped and every end is matched. */
  lemma {:induction false} NothingIsDropped(lines: seq<Line<Span>>, pending: Pending)
    requires AllAlternate(lines, pending)
    ensures Dropped(lines, pending) == 0 && Answered(lines, pending) == Ended(lines)
    decreases |lines|
  {
    if lines != [] {
      AlternationContinues(lines, pending);
      NothingIsDropped(lines[1..], After(pending, lines[0]));
    }
  }

  /** So there the reads seen are exactly those that ended and those still in flight. */
  lemma SeenIsEndedAndInFlight(lines: seq<Line<Span>>)
    requires AllAlternate(lines, map[])
    ensures Started(lines) == Ended(lines) + |AfterAll(map[], lines)|
  {
    NothingIsDropped(lines, map[]);
    ReadsAreAccountedFor(lines, map[]);
  }

  lemma {:induction false} ImageReadsAreAnswered(lines: seq<Line<Span>>, pending: Pending)
    ensures 0 <= Total(lines, pending, AnyImage()) <= Answered(lines, pending)
    decreases |lines|
  {
    if lines != [] {
      ImageReadsAreAnswered(lines[1..], After(pending, lines[0]));
    }
  }

  /** The reads the histograms count, and those still in flight, never exceed the reads seen. */
  lemma CountedNeverExceedsSeen(lines: seq<Line<Span>>)
    ensures Total(lines, map[], AnyImage()) + |AfterAll(map[], lines)| <= Started(lines)
  {
    ImageReadsAreAnswered(lines, map[]);
    ReadsAreAccountedFor(lines, map[]);
  }

  /** The reads seen are all the lines naming the call exactly when none is the second half of a
      split call and none has an unknown shape. */
  lemma {:induction false} SeenIsEveryLineExactlyWhen(lines: seq<Line<Span>>)
    ensures Started(lines) <= |lines|
    ensures Started(lines) == |lines| <==> forall line | line in lines :: line.Unfinished? || line.Complete?
  {
    if lines != [] {
      SeenIsEveryLineExactlyWhen(lines[1..]);
      assert lines == [lines[0]] + lines[1..];
    }
  }

  /** A call split over two lines names itself twice and is seen once. */
  lemma SplitReadIsSeenOnce(span: Span)
    ensures var lines: seq<Line<Span>> := [Unfinished("1", Some(IMAGE_FD)), Resumed("1", span)];
            Started(lines) == 1 < |lines|
  {
    var lines: seq<Line<Span>> := [Unfinished("1", Some(IMAGE_FD)), Resumed("1", span)];
    assert lines[1..] == [Resumed("1", span)] && lines[1..][1..] == [];
    assert Started(lines[1..]) == 0;
  }

  // ----- a split, interleaved trace means its whole calls -----

  function Any(): Call<Span> -> int { (_: Call<Span>) => 1 }

  lemma {:induction false} EndedIsTotal(lines: seq<Line<Span>>, pending: Pending)
    ensures Total(lines, pending, Any()) == Ended(lines)
    decreases |lines|
  {
    if lines != [] {
      EndedIsTotal(lines[1..], After(pending, lines[0]));
    }
  }

  lemma {:induction false} ShownAlternates(lines: seq<Line<Span>>, whole: seq<Line<Span>>)
    requires Shows(lines, whole)
    ensures Alternates(lines, false) && forall line | line in whole :: line.Complete?
    decreases |lines|
  {
    if lines != [] {
      if whole != [] {
        assert whole == [whole[0]] + whole[1..];
      }
      match lines[0]
      case Other(_) => ShownAlternates(lines[1..], whole);
      case Complete(_, _, _) => ShownAlternates(lines[1..], whole[1..]);
      case Unfinished(_, _) =>
        if |lines| > 1 {
          assert lines[1..][1..] == lines[2..];
          ShownAlternates(lines[2..], whole[1..]);
        }
    }
  }

  lemma {:induction false} CompleteAllEnd(whole: seq<Line<Span>>)
    requires forall line | line in whole :: line.Complete?
    ensures Ended(whole) == Started(whole) == |whole|
  {
    if whole != [] {
      assert whole[0] in whole;
      CompleteAllEnd(whole[1..]);
    }
  }

  /** The histograms of an interleaved, split trace are those of its whole calls, and the reads seen are
      its whole calls and those still in flight. */
  lemma TraceMeansItsReads(lines: seq<Line<Span>>, whole: seq<Line<Span>>, k: nat)
    requires ShowsAll(lines, whole, map[])
    ensures Total(lines, map[], AtOffset(k)) == Total(whole, map[], AtOffset(k))
    ensures Total(lines, map[], OfSize(k)) == Total(whole, map[], OfSize(k))
    ensures Started(lines) == Started(whole) + |AfterAll(map[], lines)| && Started(whole) == |whole|
  {
    SplittingIsIrrelevant(lines, whole, map[], AtOffset(k));
    SplittingIsIrrelevant(lines, whole, map[], OfSize(k));
    SplittingIsIrrelevant(lines, whole, map[], Any());
    EndedIsTotal(lines, map[]);
    EndedIsTotal(whole, map[]);
    forall q ensures Alternates(Project(lines, q), false) && forall line | line in Project(whole, q) :: line.Complete? {
      assert Shows(Project(lines, q), Project(whole, q));
      ShownAlternates(Project(lines, q), Project(whole, q));
    }
    SeenIsEndedAndInFlight(lines);
    forall line | line in whole ensures line.Complete? {
      InItsProjection(whole, line);
    }
    CompleteAllEnd(whole);
  }

  // ----- in numbers -----

  ghost predicate AllComplete(whole: seq<Line<Span>>) { forall line | line in whole :: line.Complete? }

  /** The reads of descriptor three at an offset, and those of a size. */
  ghost function ReadsAtOffset(whole: seq<Line<Span>>, offset: nat): set<nat> {
    set i: nat | i < |whole| && whole[i].Complete? && whole[i].fd == Some(3) && whole[i].outcome.offset == offset
  }

  ghost function ReadsOfSize(whole: seq<Line<Span>>, size: nat): set<nat> {
    set i: nat | i < |whole| && whole[i].Complete? && whole[i].fd == Some(3) && whole[i].outcome.size == size
  }

  lemma CompleteShares(whole: seq<Line<Span>>, i: nat, k: nat)
    requires AllComplete(whole) && i < |whole|
    ensures Share(whole, i, AtOffset(k)) == if i in ReadsAtOffset(whole, k) then 1 else 0
    ensures Share(whole, i, OfSize(k)) == if i in ReadsOfSize(whole, k) then 1 else 0
  {
    assert whole[i] in whole;
  }

  /** Each entry of a histogram is the number of whole reads of the image with that offset or size. */
  lemma TraceInNumbers(lines: seq<Line<Span>>, whole: seq<Line<Span>>, k: nat)
    requires ShowsAll(lines, whole, map[])
    ensures Total(lines, map[], AtOffset(k)) == |ReadsAtOffset(whole, k)|
    ensures Total(lines, map[], OfSize(k)) == |ReadsOfSize(whole, k)|
  {
    TraceMeansItsReads(lines, whole, k);
    forall line | line in whole ensures line.Complete? {
      InItsProjection(whole, line);
      assert Shows(Project(lines, line.pid), Project(whole, line.pid));
      ShownAlternates(Project(lines, line.pid), Project(whole, line.pid));
    }
    TotalIsSumOfShares(whole, AtOffset(k));
    TotalIsSumOfShares(whole, OfSize(k));
    forall i: nat | i < |whole|
      ensures Share(whole, i, AtOffset(k)) == if i in ReadsAtOffset(whole, k) then 1 else 0
      ensures Share(whole, i, OfSize(k)) == if i in ReadsOfSize(whole, k) then 1 else 0
    {
      CompleteShares(whole, i, k);
    }
    SumIsSize(whole, |whole|, AtOffset(k), ReadsAtOffset(whole, k));
    SumIsSize(whole, |whole|, OfSize(k), ReadsOfSize(whole, k));
    assert Below(ReadsAtOffset(whole, k), |whole|) == ReadsAtOffset(whole, k);
    assert Below(ReadsOfSize(whole, k), |whole|) == ReadsOfSize(whole, k);
  }
}
