/** Reading `strace -f` output. A call that another thread interrupts is split over two lines:
    the first names the descriptor, the second the outcome, and they are matched by process. */
module Trace {
  import opened Wrappers

  type Pid = string

  /** A line after classification; `P` is what a finished call reports besides its descriptor. */
  datatype Line<P> =
    | Complete(pid: Pid, fd: Option<int>, outcome: P)
    | Unfinished(pid: Pid, fd: Option<int>)
    | Resumed(pid: Pid, outcome: P)
    | Other(pid: Pid)

  datatype Call<P> = Call(fd: Option<int>, outcome: P)

  type Pending = map<Pid, Option<int>>

  function After<P>(pending: Pending, line: Line<P>): Pending {
    match line
    case Unfinished(pid, fd) => pending[pid := fd]
    case Resumed(pid, _) => pending - {pid}
    case _ => pending
  }

  function FdOf(pending: Pending, pid: Pid): Option<int> { if pid in pending then pending[pid] else None }

  /** The call a line finishes, if any. */
  function Finished<P>(pending: Pending, line: Line<P>): Option<Call<P>> {
    match line
    case Complete(_, fd, outcome) => Some(Call(fd, outcome))
    case Resumed(pid, outcome) => Some(Call(FdOf(pending, pid), outcome))
    case _ => None
  }

  function Weigh<P>(pending: Pending, line: Line<P>, f: Call<P> -> int): int {
    match Finished(pending, line)
    case Some(call) => f(call)
    case None => 0
  }

  /** Any tally over the finished calls of a trace, `f` giving each call's share. */
  ghost function Total<P>(lines: seq<Line<P>>, pending: Pending, f: Call<P> -> int): int {
    if lines == [] then 0
    else Weigh(pending, lines[0], f) + Total(lines[1..], After(pending, lines[0]), f)
  }

  lemma {:induction false} TotalAdds<P(!new)>(lines: seq<Line<P>>, pending: Pending, f: Call<P> -> int,
                                              g: Call<P> -> int, sum: Call<P> -> int)
    requires forall c :: sum(c) == f(c) + g(c)
    ensures Total(lines, pending, sum) == Total(lines, pending, f) + Total(lines, pending, g)
  {
    if lines != [] {
      TotalAdds(lines[1..], After(pending, lines[0]), f, g, sum);
    }
  }

  // ----- interleaving -----

  lemma TotalOfCons<P>(line: Line<P>, rest: seq<Line<P>>, pending: Pending, f: Call<P> -> int)
    ensures Total([line] + rest, pending, f) == Weigh(pending, line, f) + Total(rest, After(pending, line), f)
  {
    assert ([line] + rest)[1..] == rest;
  }

  lemma ProcessesAreIndependent<P>(a: Line<P>, b: Line<P>, pending: Pending, f: Call<P> -> int)
    requires a.pid != b.pid
    ensures Weigh(After(pending, a), b, f) == Weigh(pending, b, f)
    ensures After(After(pending, a), b) == After(After(pending, b), a)
  {
  }

  lemma SwapNeighbours<P>(a: Line<P>, b: Line<P>, rest: seq<Line<P>>, pending: Pending, f: Call<P> -> int)
    requires a.pid != b.pid
    ensures Total([a] + ([b] + rest), pending, f) == Total([b] + ([a] + rest), pending, f)
  {
    TotalOfCons(a, [b] + rest, pending, f);
    TotalOfCons(b, [a] + rest, pending, f);
    TotalOfCons(b, rest, After(pending, a), f);
    TotalOfCons(a, rest, After(pending, b), f);
    ProcessesAreIndependent(a, b, pending, f);
    ProcessesAreIndependent(b, a, pending, f);
  }

  function Without<P>(lines: seq<Line<P>>, k: nat): seq<Line<P>>
    requires k < |lines|
  {
    lines[..k] + lines[k + 1..]
  }

  lemma {:induction false} MoveToFront<P>(lines: seq<Line<P>>, k: nat, pending: Pending, f: Call<P> -> int)
    requires k < |lines| && forall i | 0 <= i < k :: lines[i].pid != lines[k].pid
    ensures Total(lines, pending, f) == Total([lines[k]] + Without(lines, k), pending, f)
  {
    if k == 0 {
      assert [lines[0]] + Without(lines, 0) == lines;
    } else {
      var first, line, tail := lines[0], lines[k], lines[1..];
      var rest := Without(tail, k - 1);
      assert lines == [first] + tail && Without(lines, k) == [first] + rest;
      TotalOfCons(first, tail, pending, f);
      MoveToFront(tail, k - 1, After(pending, first), f);
      TotalOfCons(first, [line] + rest, pending, f);
      SwapNeighbours(first, line, rest, pending, f);
    }
  }

  /** The lines of one process, in order. */
  ghost function Project<P>(lines: seq<Line<P>>, pid: Pid): seq<Line<P>> {
    if lines == [] then []
    else (if lines[0].pid == pid then [lines[0]] else []) + Project(lines[1..], pid)
  }

  lemma ProjectOfTail<P>(lines: seq<Line<P>>, pid: Pid)
    requires lines != []
    ensures Project(lines[1..], pid) == if lines[0].pid == pid then Project(lines, pid)[1..] else Project(lines, pid)
    ensures lines[0].pid == pid ==> Project(lines, pid)[0] == lines[0]
  {
  }

  /** Where a process's first line stands. */
  lemma {:induction false} FirstOf<P>(lines: seq<Line<P>>, pid: Pid) returns (k: nat)
    requires Project(lines, pid) != []
    ensures k < |lines| && lines[k].pid == pid && forall i | 0 <= i < k :: lines[i].pid != pid
  {
    if lines[0].pid == pid {
      k := 0;
    } else {
      k := FirstOf(lines[1..], pid);
      k := k + 1;
    }
  }

  /** Taking a process's first line out changes no other process. */
  lemma {:induction false} ProjectWithout<P>(lines: seq<Line<P>>, k: nat, q: Pid)
    requires k < |lines| && forall i | 0 <= i < k :: lines[i].pid != lines[k].pid
    ensures if q == lines[k].pid then Project(lines, q) == [lines[k]] + Project(Without(lines, k), q)
            else Project(lines, q) == Project(Without(lines, k), q)
  {
    ProjectOfTail(lines, q);
    if k == 0 {
      assert Without(lines, 0) == lines[1..];
    } else {
      var rest := Without(lines[1..], k - 1);
      assert Without(lines, k) == [lines[0]] + rest;
      ProjectWithout(lines[1..], k - 1, q);
      ProjectOfTail([lines[0]] + rest, q);
      assert ([lines[0]] + rest)[1..] == rest;
    }
  }

  /** How the processes are interleaved does not matter: traces in which every process shows the
      same lines in the same order give the same tally. */
  lemma {:induction false} InterleavingIsIrrelevant<P(!new)>(a: seq<Line<P>>, b: seq<Line<P>>, pending: Pending,
                                                             f: Call<P> -> int)
    requires forall q :: Project(a, q) == Project(b, q)
    ensures Total(a, pending, f) == Total(b, pending, f)
    decreases |a|
  {
    if a == [] {
      assert b != [] ==> Project(a, b[0].pid) == Project(b, b[0].pid);
    } else {
      var line := a[0];
      assert Project(a, line.pid) == Project(b, line.pid);
      var k := FirstOf(b, line.pid);
      ProjectWithout(b, k, line.pid);
      ProjectOfTail(a, line.pid);
      assert b[k] == line;
      MoveToFront(b, k, pending, f);
      var rest := Without(b, k);
      assert ([line] + rest)[1..] == rest;
      forall q ensures Project(a[1..], q) == Project(rest, q) {
        assert Project(a, q) == Project(b, q);
        ProjectWithout(b, k, q);
        ProjectOfTail(a, q);
      }
      InterleavingIsIrrelevant(a[1..], rest, After(pending, line), f);
    }
  }

  lemma {:induction false} InItsProjection<P>(lines: seq<Line<P>>, line: Line<P>)
    requires line in lines
    ensures line in Project(lines, line.pid)
  {
    if lines[0] != line {
      assert lines == [lines[0]] + lines[1..];
      InItsProjection(lines[1..], line);
    }
  }

  // ----- splitting -----

  /** `lines`, of one process, shows the calls `whole`: each on one line or split in two, with
      other lines in between and perhaps one call still in flight at the end. */
  ghost predicate Shows<P(!new)>(lines: seq<Line<P>>, whole: seq<Line<P>>) {
    if lines == [] then whole == []
    else match lines[0]
      case Other(_) => Shows(lines[1..], whole)
      case Complete(_, _, _) => whole != [] && whole[0] == lines[0] && Shows(lines[1..], whole[1..])
      case Unfinished(pid, fd) =>
        if |lines| == 1 then whole == []
        else
          && lines[1].Resumed? && whole != [] && whole[0] == Complete(pid, fd, lines[1].outcome)
          && Shows(lines[2..], whole[1..])
      case Resumed(_, _) => false
  }

  ghost predicate ShowsAll<P(!new)>(lines: seq<Line<P>>, whole: seq<Line<P>>, pending: Pending) {
    && (forall q :: Shows(Project(lines, q), Project(whole, q)))
    && (forall q | q in pending :: Project(lines, q) == [])
  }

  /** Splitting does not matter either: a trace of any number of processes, interleaved and split
      in any way, gives the tally of the whole calls it shows. */
  lemma {:induction false} SplittingIsIrrelevant<P(!new)>(lines: seq<Line<P>>, whole: seq<Line<P>>, pending: Pending,
                                                          f: Call<P> -> int)
    requires ShowsAll(lines, whole, pending)
    ensures Total(lines, pending, f) == Total(whole, map[], f)
    decreases |lines|
  {
    if lines == [] {
      assert whole != [] ==> Shows(Project(lines, whole[0].pid), Project(whole, whole[0].pid));
    } else {
      var line, pid := lines[0], lines[0].pid;
      var shown := Project(lines, pid);
      assert Shows(shown, Project(whole, pid));
      assert shown[0] == line && shown[1..] == Project(lines[1..], pid);
      match line
      case Other(_) => DropLine(lines, whole, pending, f);
      case Complete(_, _, _) => MatchWhole(lines, whole, pending, f);
      case Unfinished(_, fd) =>
        if |shown| == 1 {
          DropLine(lines, whole, pending, f);
        } else {
          JoinSplit(lines, whole, pending, f);
        }
    }
  }

  /** A line that finishes nothing now or later. */
  lemma {:induction false} DropLine<P(!new)>(lines: seq<Line<P>>, whole: seq<Line<P>>, pending: Pending,
                                             f: Call<P> -> int)
    requires lines != [] && ShowsAll(lines, whole, pending)
    requires lines[0].Other? || (lines[0].Unfinished? && |Project(lines, lines[0].pid)| == 1)
    ensures Total(lines, pending, f) == Total(whole, map[], f)
    decreases |lines|, 0
  {
    var after := After(pending, lines[0]);
    forall q ensures Shows(Project(lines[1..], q), Project(whole, q)) {
      ProjectOfTail(lines, q);
      assert Shows(Project(lines, q), Project(whole, q));
    }
    forall q | q in after ensures Project(lines[1..], q) == [] {
      assert q in pending ==> Project(lines, q) == [];
    }
    SplittingIsIrrelevant(lines[1..], whole, after, f);
  }

  lemma {:induction false} MatchWhole<P(!new)>(lines: seq<Line<P>>, whole: seq<Line<P>>, pending: Pending,
                                               f: Call<P> -> int)
    requires lines != [] && ShowsAll(lines, whole, pending) && lines[0].Complete?
    ensures Total(lines, pending, f) == Total(whole, map[], f)
    decreases |lines|, 0
  {
    var pid := lines[0].pid;
    assert Shows(Project(lines, pid), Project(whole, pid));
    var k := FirstOf(whole, pid);
    ProjectWithout(whole, k, pid);
    var rest := Without(whole, k);
    MoveToFront(whole, k, map[], f);
    assert ([whole[k]] + rest)[1..] == rest;
    forall q ensures Shows(Project(lines[1..], q), Project(rest, q)) {
      ProjectOfTail(lines, q);
      ProjectWithout(whole, k, q);
      assert Shows(Project(lines, q), Project(whole, q));
    }
    forall q | q in pending ensures Project(lines[1..], q) == [] {
      assert Project(lines, q) == [];
    }
    SplittingIsIrrelevant(lines[1..], rest, pending, f);
  }

  /** What remains once a split call has been taken from the trace and from the whole calls. */
  lemma ShowsRest<P(!new)>(lines: seq<Line<P>>, whole: seq<Line<P>>, i: nat, k: nat, q: Pid)
    requires lines != [] && lines[0].Unfinished? && i < |lines| - 1 && k < |whole|
    requires Shows(Project(lines, q), Project(whole, q)) && (q == lines[0].pid ==> |Project(lines, q)| > 1)
    requires Project(Without(lines[1..], i), q)
             == if q == lines[0].pid then Project(lines[1..], q)[1..] else Project(lines[1..], q)
    requires Project(Without(whole, k), q)
             == if q == lines[0].pid && Project(whole, q) != [] then Project(whole, q)[1..] else Project(whole, q)
    ensures Shows(Project(Without(lines[1..], i), q), Project(Without(whole, k), q))
  {
    ProjectOfTail(lines, q);
    if q == lines[0].pid {
      var shown := Project(lines, q);
      assert shown[1..][1..] == shown[2..];
    }
  }

  /** Where the second half of a split call and the whole call stand. */
  lemma SplitPositions<P(!new)>(lines: seq<Line<P>>, whole: seq<Line<P>>, pending: Pending) returns (i: nat, k: nat)
    requires lines != [] && ShowsAll(lines, whole, pending) && lines[0].Unfinished?
             && |Project(lines, lines[0].pid)| > 1
    ensures i < |lines| - 1 && lines[1..][i].Resumed? && lines[1..][i].pid == lines[0].pid
    ensures forall n | 0 <= n < i :: lines[1..][n].pid != lines[0].pid
    ensures k < |whole| && whole[k] == Complete(lines[0].pid, lines[0].fd, lines[1..][i].outcome)
    ensures forall n | 0 <= n < k :: whole[n].pid != whole[k].pid
    ensures forall q :: Shows(Project(Without(lines[1..], i), q), Project(Without(whole, k), q))
    ensures forall q | q != lines[0].pid :: Project(Without(lines[1..], i), q) == Project(lines, q)
  {
    var pid := lines[0].pid;
    ProjectOfTail(lines, pid);
    assert Shows(Project(lines, pid), Project(whole, pid));
    i := FirstOf(lines[1..], pid);
    k := FirstOf(whole, pid);
    ProjectWithout(lines[1..], i, pid);
    ProjectWithout(whole, k, pid);
    forall q ensures Shows(Project(Without(lines[1..], i), q), Project(Without(whole, k), q)) {
      ProjectWithout(lines[1..], i, q);
      ProjectWithout(whole, k, q);
      assert Shows(Project(lines, q), Project(whole, q));
      ShowsRest(lines, whole, i, k, q);
    }
    forall q | q != pid ensures Project(Without(lines[1..], i), q) == Project(lines, q) {
      ProjectWithout(lines[1..], i, q);
      ProjectOfTail(lines, q);
    }
  }

  lemma {:induction false} JoinSplit<P(!new)>(lines: seq<Line<P>>, whole: seq<Line<P>>, pending: Pending,
                                              f: Call<P> -> int)
    requires lines != [] && ShowsAll(lines, whole, pending) && lines[0].Unfinished?
             && |Project(lines, lines[0].pid)| > 1
    ensures Total(lines, pending, f) == Total(whole, map[], f)
    decreases |lines|, 0
  {
    var i, k := SplitPositions(lines, whole, pending);
    var rest, left := Without(lines[1..], i), Without(whole, k);
    assert lines[0].pid !in pending;
    SplittingIsIrrelevant(rest, left, pending, f);
    JoinedTotal(lines, i, pending, f);
    MoveToFront(whole, k, map[], f);
    assert ([whole[k]] + left)[1..] == left;
  }

  /** The two halves of a split call, brought together, weigh what the whole call weighs. */
  lemma JoinedTotal<P>(lines: seq<Line<P>>, i: nat, pending: Pending, f: Call<P> -> int)
    requires lines != [] && lines[0].Unfinished? && lines[0].pid !in pending
    requires i < |lines| - 1 && lines[1..][i].Resumed? && lines[1..][i].pid == lines[0].pid
    requires forall n | 0 <= n < i :: lines[1..][n].pid != lines[0].pid
    ensures Total(lines, pending, f)
            == f(Call(lines[0].fd, lines[1..][i].outcome)) + Total(Without(lines[1..], i), pending, f)
  {
    var tail := lines[1..];
    var rest := Without(tail, i);
    MoveToFront(tail, i, After(pending, lines[0]), f);
    assert ([tail[i]] + rest)[1..] == rest;
    assert After(After(pending, lines[0]), tail[i]) == pending;
  }

  // ----- any trace, line by line -----

  /** Line `j` begins the call that line `i` of the same process ends: nothing of that process between them
      begins or ends a call. */
  ghost predicate Opens<P>(lines: seq<Line<P>>, j: nat, i: nat) {
    && j < i < |lines| && lines[j].Unfinished? && lines[j].pid == lines[i].pid
    && forall k | j < k < i && lines[k].pid == lines[i].pid :: !lines[k].Unfinished? && !lines[k].Resumed?
  }

  /** The descriptor of the call that line `i` ends, if the trace shows its beginning. */
  ghost function DescriptorAt<P>(lines: seq<Line<P>>, i: nat): Option<int>
    requires i < |lines|
  {
    if lines[i].Complete? then lines[i].fd
    else if j: nat :| Opens(lines, j, i) then lines[j].fd
    else None
  }

  /** What line `i` adds to a tally. */
  ghost function Share<P>(lines: seq<Line<P>>, i: nat, f: Call<P> -> int): int
    requires i < |lines|
  {
    if lines[i].Complete? || lines[i].Resumed? then f(Call(DescriptorAt(lines, i), lines[i].outcome)) else 0
  }

  ghost function SumOfShares<P>(lines: seq<Line<P>>, n: nat, f: Call<P> -> int): int
    requires n <= |lines|
  {
    if n == 0 then 0 else SumOfShares(lines, n - 1, f) + Share(lines, n - 1, f)
  }

  ghost function PendingAfter<P>(lines: seq<Line<P>>, n: nat): Pending
    requires n <= |lines|
  {
    if n == 0 then map[] else After(PendingAfter(lines, n - 1), lines[n - 1])
  }

  /** Line `j` begins a call that nothing of its process before line `n` follows up. */
  ghost predicate Open<P>(lines: seq<Line<P>>, j: nat, n: nat) {
    && j < n <= |lines| && lines[j].Unfinished?
    && forall k | j < k < n && lines[k].pid == lines[j].pid :: !lines[k].Unfinished? && !lines[k].Resumed?
  }

  lemma {:induction false} PendingIsOpen<P>(lines: seq<Line<P>>, n: nat, pid: Pid)
    requires n <= |lines|
    ensures pid in PendingAfter(lines, n) <==> exists j: nat :: Open(lines, j, n) && lines[j].pid == pid
    ensures forall j: nat | Open(lines, j, n) && lines[j].pid == pid :: PendingAfter(lines, n)[pid] == lines[j].fd
  {
    if n > 0 {
      PendingIsOpen(lines, n - 1, pid);
      var line := lines[n - 1];
      forall j: nat | j < n - 1
        ensures Open(lines, j, n)
                <==> Open(lines, j, n - 1) && !(line.pid == lines[j].pid && (line.Unfinished? || line.Resumed?))
      {
      }
      if line.Unfinished? {
        assert Open(lines, n - 1, n);
      }
    }
  }

  lemma FinishedIsShare<P>(lines: seq<Line<P>>, n: nat, f: Call<P> -> int)
    requires n < |lines|
    ensures Weigh(PendingAfter(lines, n), lines[n], f) == Share(lines, n, f)
  {
    if lines[n].Resumed? {
      var pid := lines[n].pid;
      PendingIsOpen(lines, n, pid);
      forall j: nat ensures Opens(lines, j, n) <==> Open(lines, j, n) && lines[j].pid == pid {
      }
    }
  }

  lemma {:induction false} TotalFrom<P>(lines: seq<Line<P>>, n: nat, f: Call<P> -> int)
    requires n <= |lines|
    ensures Total(lines[n..], PendingAfter(lines, n), f) == SumOfShares(lines, |lines|, f) - SumOfShares(lines, n, f)
    decreases |lines| - n
  {
    if n < |lines| {
      TotalFrom(lines, n + 1, f);
      FinishedIsShare(lines, n, f);
      assert lines[n..][1..] == lines[n + 1..];
    }
  }

  /** Of every trace, whatever its shape: the tally adds up what each line that ends a call reports, against
      the descriptor named by the line that began it. */
  lemma TotalIsSumOfShares<P>(lines: seq<Line<P>>, f: Call<P> -> int)
    ensures Total(lines, map[], f) == SumOfShares(lines, |lines|, f)
  {
    TotalFrom(lines, 0, f);
    assert lines[0..] == lines;
  }

  ghost function Below(hits: set<nat>, n: nat): set<nat> { set i | i in hits && i < n }

  /** A tally that adds one for some lines and nothing for the others counts those lines. */
  lemma {:induction false} SumIsSize<P>(lines: seq<Line<P>>, n: nat, f: Call<P> -> int, hits: set<nat>)
    requires n <= |lines| && forall i: nat | i < n :: Share(lines, i, f) == if i in hits then 1 else 0
    ensures SumOfShares(lines, n, f) == |Below(hits, n)|
  {
    if n == 0 {
      assert Below(hits, 0) == {};
    } else {
      SumIsSize(lines, n - 1, f, hits);
      assert Below(hits, n) == if n - 1 in hits then Below(hits, n - 1) + {n - 1} else Below(hits, n - 1);
    }
  }
}
