/** The performance ledger's rows and the lines they span, from
    `scripts/perf_ledger_preflight.py`. Lines come classified; line numbers start at one. */
module Ledger {

  datatype Line = TableRow | Heading(depth: nat) | Text(blank: bool)

  /** A row: the line it starts on and the lines of its text. */
  datatype Row = Row(line: nat, text: seq<Line>)

  datatype Pending = Idle | Entry(line: nat, text: seq<Line>)

  predicate EndsEntry(ln: Line, level: nat) { ln.Heading? && ln.depth <= level }

  predicate StartsRow(ln: Line, level: nat) { ln.TableRow? || (ln.Heading? && ln.depth == level) }

  // ----- parsing -----

  function Flush(pending: Pending): seq<Row> { if pending.Entry? then [Row(pending.line, pending.text)] else [] }

  /** The rows from line index `i` on, given the entry being read. */
  ghost function RowsFrom(lines: seq<Line>, i: nat, pending: Pending, level: nat): seq<Row>
    requires i <= |lines|
    decreases |lines| - i
  {
    if i == |lines| then Flush(pending)
    else
      var ln := lines[i];
      if ln.TableRow? then [Row(i + 1, [ln])] + RowsFrom(lines, i + 1, pending, level)
      else if ln.Heading? && ln.depth < level then Flush(pending) + RowsFrom(lines, i + 1, Idle, level)
      else if ln.Heading? && ln.depth == level then Flush(pending) + RowsFrom(lines, i + 1, Entry(i + 1, [ln]), level)
      else if pending.Entry? then RowsFrom(lines, i + 1, pending.(text := pending.text + [ln]), level)
      else RowsFrom(lines, i + 1, pending, level)
  }

  method ParseText(lines: seq<Line>, level: nat) returns (rows: seq<Row>)
    ensures rows == RowsFrom(lines, 0, Idle, level)
  {
    rows := [];
    var pending := Idle;
    for i := 0 to |lines|
      invariant rows + RowsFrom(lines, i, pending, level) == RowsFrom(lines, 0, Idle, level)
    {
      var ln := lines[i];
      if ln.TableRow? {
        AssociateRows(rows, [Row(i + 1, [ln])], RowsFrom(lines, i + 1, pending, level));
        rows := rows + [Row(i + 1, [ln])];
      } else if ln.Heading? && ln.depth < level {
        AssociateRows(rows, Flush(pending), RowsFrom(lines, i + 1, Idle, level));
        rows := rows + Flush(pending);
        pending := Idle;
      } else if ln.Heading? && ln.depth == level {
        AssociateRows(rows, Flush(pending), RowsFrom(lines, i + 1, Entry(i + 1, [ln]), level));
        rows := rows + Flush(pending);
        pending := Entry(i + 1, [ln]);
      } else if pending.Entry? {
        pending := pending.(text := pending.text + [ln]);
      }
    }
    rows := rows + Flush(pending);
  }

  lemma AssociateRows(x: seq<Row>, y: seq<Row>, z: seq<Row>)
    ensures x + (y + z) == (x + y) + z
  {
  }

  // ----- what the rows are -----

  ghost function CountStarts(lines: seq<Line>, i: nat, level: nat): nat
    requires i <= |lines|
    decreases |lines| - i
  {
    if i == |lines| then 0 else (if StartsRow(lines[i], level) then 1 else 0) + CountStarts(lines, i + 1, level)
  }

  /** As many rows as table rows and headings at the entry level. */
  lemma {:induction false} RowCount(lines: seq<Line>, i: nat, pending: Pending, level: nat)
    requires i <= |lines|
    ensures |RowsFrom(lines, i, pending, level)| == |Flush(pending)| + CountStarts(lines, i, level)
    decreases |lines| - i
  {
    if i < |lines| {
      var ln := lines[i];
      if ln.TableRow? {
        RowCount(lines, i + 1, pending, level);
      } else if ln.Heading? && ln.depth < level {
        RowCount(lines, i + 1, Idle, level);
      } else if ln.Heading? && ln.depth == level {
        RowCount(lines, i + 1, Entry(i + 1, [ln]), level);
      } else if pending.Entry? {
        RowCount(lines, i + 1, pending.(text := pending.text + [ln]), level);
      } else {
        RowCount(lines, i + 1, pending, level);
      }
    }
  }

  /** The body of an entry whose heading is just before index `j`: everything up to the next
      heading that ends it, except table rows. */
  ghost function Body(lines: seq<Line>, j: nat, level: nat): seq<Line>
    requires j <= |lines|
    decreases |lines| - j
  {
    if j == |lines| || EndsEntry(lines[j], level) then []
    else if lines[j].TableRow? then Body(lines, j + 1, level)
    else [lines[j]] + Body(lines, j + 1, level)
  }

  /** The row a line starts. */
  ghost function RowAt(lines: seq<Line>, i: nat, level: nat): Row
    requires i < |lines| && StartsRow(lines[i], level)
  {
    if lines[i].TableRow? then Row(i + 1, [lines[i]]) else Row(i + 1, [lines[i]] + Body(lines, i + 1, level))
  }

  /** The entry being read will end up with the text it has and the body still to come. */
  ghost function Completed(lines: seq<Line>, i: nat, pending: Pending, level: nat): seq<Row>
    requires i <= |lines|
  {
    if pending.Entry? then [Row(pending.line, pending.text + Body(lines, i, level))] else []
  }

  /** Every row is the row its line starts, or the entry being read. */
  lemma {:induction false} RowsAreTheirLines(lines: seq<Line>, i: nat, pending: Pending, level: nat, row: Row)
    requires i <= |lines|
    ensures row in RowsFrom(lines, i, pending, level)
            <==> row in Completed(lines, i, pending, level)
                 || (i < row.line <= |lines| && StartsRow(lines[row.line - 1], level)
                     && row == RowAt(lines, row.line - 1, level))
    decreases |lines| - i
  {
    if i < |lines| {
      var ln := lines[i];
      if ln.TableRow? {
        RowsAreTheirLines(lines, i + 1, pending, level, row);
      } else if ln.Heading? && ln.depth < level {
        RowsAreTheirLines(lines, i + 1, Idle, level, row);
        assert pending.Entry? ==> pending.text + [] == pending.text;
      } else if ln.Heading? && ln.depth == level {
        RowsAreTheirLines(lines, i + 1, Entry(i + 1, [ln]), level, row);
        assert pending.Entry? ==> pending.text + [] == pending.text;
      } else if pending.Entry? {
        RowsAreTheirLines(lines, i + 1, pending.(text := pending.text + [ln]), level, row);
        assert pending.text + [ln] + Body(lines, i + 1, level) == pending.text + ([ln] + Body(lines, i + 1, level));
      } else {
        RowsAreTheirLines(lines, i + 1, pending, level, row);
      }
    } else {
      assert pending.Entry? ==> pending.text + [] == pending.text;
    }
  }

  /** A ledger's rows are exactly those its table rows and entry headings start. */
  lemma ParsedRows(lines: seq<Line>, level: nat, row: Row)
    ensures row in RowsFrom(lines, 0, Idle, level)
            <==> && 1 <= row.line <= |lines| && StartsRow(lines[row.line - 1], level)
                 && row == RowAt(lines, row.line - 1, level)
  {
    RowsAreTheirLines(lines, 0, Idle, level, row);
  }

  /** Where an entry read up to `j` ends: at the next heading that ends it, or with the ledger. */
  ghost function EndOf(lines: seq<Line>, j: nat, level: nat): nat
    requires j <= |lines|
    decreases |lines| - j
  {
    if j == |lines| || EndsEntry(lines[j], level) then j else EndOf(lines, j + 1, level)
  }

  /** The line index at which a row is complete. */
  ghost function CompleteAt(lines: seq<Line>, row: Row, level: nat): nat {
    if !(1 <= row.line <= |lines|) then 0
    else if lines[row.line - 1].TableRow? then row.line - 1 else EndOf(lines, row.line, level)
  }

  ghost predicate InOrder(lines: seq<Line>, rows: seq<Row>, from: nat, level: nat) {
    && (forall p | 0 <= p < |rows| :: from <= CompleteAt(lines, rows[p], level))
    && (forall p, q | 0 <= p < q < |rows| :: CompleteAt(lines, rows[p], level) < CompleteAt(lines, rows[q], level))
  }

  /** The entry being read is one that is still open. */
  ghost predicate StillOpen(lines: seq<Line>, i: nat, pending: Pending, level: nat)
    requires i <= |lines|
  {
    pending.Entry? ==> && 1 <= pending.line <= i && !lines[pending.line - 1].TableRow?
                       && EndOf(lines, pending.line, level) == EndOf(lines, i, level)
  }

  lemma InOrderAfter(lines: seq<Line>, first: seq<Row>, rest: seq<Row>, i: nat, level: nat)
    requires |first| <= 1 && (forall row | row in first :: CompleteAt(lines, row, level) == i)
    requires InOrder(lines, rest, i + 1, level)
    ensures InOrder(lines, first + rest, i, level)
  {
    assert first != [] ==> first[0] in first;
  }

  /** The rows that line `i` completes, and the entry being read after it. */
  ghost function Emitted(lines: seq<Line>, i: nat, pending: Pending, level: nat): seq<Row>
    requires i < |lines|
  {
    if lines[i].TableRow? then [Row(i + 1, [lines[i]])]
    else if EndsEntry(lines[i], level) then Flush(pending) else []
  }

  ghost function PendingAfter(lines: seq<Line>, i: nat, pending: Pending, level: nat): Pending
    requires i < |lines|
  {
    if EndsEntry(lines[i], level) then if lines[i].depth == level then Entry(i + 1, [lines[i]]) else Idle
    else if pending.Entry? && !lines[i].TableRow? then pending.(text := pending.text + [lines[i]]) else pending
  }

  lemma RowsFromStep(lines: seq<Line>, i: nat, pending: Pending, level: nat)
    requires i < |lines|
    ensures RowsFrom(lines, i, pending, level)
            == Emitted(lines, i, pending, level) + RowsFrom(lines, i + 1, PendingAfter(lines, i, pending, level), level)
  {
    var rest := RowsFrom(lines, i + 1, PendingAfter(lines, i, pending, level), level);
    assert [] + rest == rest;
  }

  lemma StillOpenAfter(lines: seq<Line>, i: nat, pending: Pending, level: nat)
    requires i < |lines| && StillOpen(lines, i, pending, level)
    ensures StillOpen(lines, i + 1, PendingAfter(lines, i, pending, level), level)
    ensures forall row | row in Emitted(lines, i, pending, level) :: CompleteAt(lines, row, level) == i
  {
  }

  /** The rows come in the order in which they are complete: a table row inside an entry before
      the entry. */
  lemma {:induction false} RowsInOrder(lines: seq<Line>, i: nat, pending: Pending, level: nat)
    requires i <= |lines| && StillOpen(lines, i, pending, level)
    ensures InOrder(lines, RowsFrom(lines, i, pending, level), i, level)
    decreases |lines| - i
  {
    if i < |lines| {
      var next := PendingAfter(lines, i, pending, level);
      StillOpenAfter(lines, i, pending, level);
      RowsFromStep(lines, i, pending, level);
      RowsInOrder(lines, i + 1, next, level);
      InOrderAfter(lines, Emitted(lines, i, pending, level), RowsFrom(lines, i + 1, next, level), i, level);
    }
  }

  /** The headings reported as filed at the wrong depth; what makes one suspicious is left open. */
  ghost predicate Unlinted(lines: seq<Line>, line: nat, level: nat, suspicious: nat -> bool) {
    1 <= line <= |lines| && lines[line - 1].Heading? && lines[line - 1].depth < level && suspicious(line)
  }

  /** None of them is a row, so nothing is reported twice. */
  lemma UnlintedIsNoRow(lines: seq<Line>, level: nat, line: nat, suspicious: nat -> bool, row: Row)
    requires Unlinted(lines, line, level, suspicious) && row in RowsFrom(lines, 0, Idle, level)
    ensures row.line != line
  {
    ParsedRows(lines, level, row);
  }

  // ----- spans -----

  predicate Blank(ln: Line) { ln.Text? && ln.blank }

  /** The text without its trailing blank lines; the first line always stays. */
  function Trimmed(text: seq<Line>): seq<Line> {
    if |text| > 1 && Blank(text[|text| - 1]) then Trimmed(text[..|text| - 1]) else text
  }

  method TrimBlanks(text: seq<Line>) returns (trimmed: seq<Line>)
    ensures trimmed == Trimmed(text)
  {
    trimmed := text;
    while |trimmed| > 1 && Blank(trimmed[|trimmed| - 1])
      invariant Trimmed(trimmed) == Trimmed(text)
      decreases |trimmed|
    {
      trimmed := trimmed[..|trimmed| - 1];
    }
  }

  /** What trimming drops is blank, and it stops only at a line that is not, or at the first. */
  lemma {:induction false} TrimmedExactly(text: seq<Line>)
    ensures Trimmed(text) <= text && (text != [] ==> Trimmed(text) != [])
    ensures forall i | |Trimmed(text)| <= i < |text| :: Blank(text[i])
    ensures |Trimmed(text)| > 1 ==> !Blank(text[|Trimmed(text)| - 1])
  {
    if |text| > 1 && Blank(text[|text| - 1]) {
      TrimmedExactly(text[..|text| - 1]);
    }
  }

  /** The number of lines a row is taken to occupy. */
  function SpanLength(row: Row): nat { if |Trimmed(row.text)| < 1 then 1 else |Trimmed(row.text)| }

  ghost predicate InSpan(row: Row, line: nat) { row.line <= line < row.line + SpanLength(row) }

  lemma {:induction false} TrimmedIgnoresBlanks(text: seq<Line>, blanks: seq<Line>)
    requires text != [] && forall ln | ln in blanks :: Blank(ln)
    ensures Trimmed(text + blanks) == Trimmed(text)
    decreases |blanks|
  {
    if blanks == [] {
      assert text + blanks == text;
    } else {
      var all := text + blanks;
      assert all[|all| - 1] == blanks[|blanks| - 1];
      assert all[..|all| - 1] == text + blanks[..|blanks| - 1];
      TrimmedIgnoresBlanks(text, blanks[..|blanks| - 1]);
    }
  }

  lemma {:induction false} TrimmedIsShorter(text: seq<Line>)
    ensures |Trimmed(text)| <= |text|
  {
    if |text| > 1 && Blank(text[|text| - 1]) {
      TrimmedIsShorter(text[..|text| - 1]);
    }
  }

  lemma {:induction false} BodyFits(lines: seq<Line>, j: nat, level: nat)
    requires j <= |lines|
    ensures |Body(lines, j, level)| <= |lines| - j
    decreases |lines| - j
  {
    if j < |lines| && !EndsEntry(lines[j], level) {
      BodyFits(lines, j + 1, level);
    }
  }

  /** Appending: the body of an old entry grows at most by the blank separator. */
  lemma {:induction false} BodyOfAppend(base: seq<Line>, blanks: seq<Line>, added: seq<Line>, j: nat, level: nat)
    requires j <= |base| && (forall ln | ln in blanks :: Blank(ln)) && added != [] && EndsEntry(added[0], level)
    ensures Body(base + blanks + added, j, level) == Body(base, j, level)
            || Body(base + blanks + added, j, level) == Body(base, j, level) + blanks
    decreases |base| - j
  {
    var all := base + blanks + added;
    if j == |base| {
      BodyOfBlanks(base, blanks, added, 0, level);
    } else if !EndsEntry(base[j], level) {
      assert all[j] == base[j];
      BodyOfAppend(base, blanks, added, j + 1, level);
      assert [base[j]] + (Body(base, j + 1, level) + blanks) == [base[j]] + Body(base, j + 1, level) + blanks;
    }
  }

  lemma {:induction false} BodyOfBlanks(base: seq<Line>, blanks: seq<Line>, added: seq<Line>, k: nat, level: nat)
    requires k <= |blanks| && (forall ln | ln in blanks :: Blank(ln)) && added != [] && EndsEntry(added[0], level)
    ensures Body(base + blanks + added, |base| + k, level) == blanks[k..]
    decreases |blanks| - k
  {
    var all := base + blanks + added;
    if k == |blanks| {
      assert all[|base| + k] == added[0];
    } else {
      assert all[|base| + k] == blanks[k] && blanks[k] in blanks;
      BodyOfBlanks(base, blanks, added, k + 1, level);
      assert blanks[k..] == [blanks[k]] + blanks[k + 1..];
    }
  }

  /** Appending blank lines and then an entry or grouping heading, with whatever follows it,
      leaves every old row with the span it had. */
  lemma AppendKeepsSpans(base: seq<Line>, blanks: seq<Line>, added: seq<Line>, i: nat, level: nat)
    requires i < |base| && StartsRow(base[i], level)
    requires (forall ln | ln in blanks :: Blank(ln)) && added != [] && EndsEntry(added[0], level)
    ensures SpanLength(RowAt(base + blanks + added, i, level)) == SpanLength(RowAt(base, i, level))
  {
    var all := base + blanks + added;
    assert all[i] == base[i];
    if base[i].Heading? {
      BodyOfAppend(base, blanks, added, i + 1, level);
      var text := [base[i]] + Body(base, i + 1, level);
      TrimmedIgnoresBlanks(text, blanks);
      assert [base[i]] + (Body(base, i + 1, level) + blanks) == text + blanks;
    }
  }

  /** So a change that only appends selects no old row for linting. */
  lemma AppendTouchesNoOldRow(base: seq<Line>, blanks: seq<Line>, added: seq<Line>, level: nat, row: Row, line: nat)
    requires (forall ln | ln in blanks :: Blank(ln)) && added != [] && EndsEntry(added[0], level)
    requires row in RowsFrom(base + blanks + added, 0, Idle, level) && row.line <= |base| && |base| < line
    ensures !InSpan(row, line)
  {
    var all, i := base + blanks + added, row.line - 1;
    ParsedRows(all, level, row);
    assert all[i] == base[i];
    AppendKeepsSpans(base, blanks, added, i, level);
    SpanStaysInside(base, i, level);
  }

  lemma SpanStaysInside(lines: seq<Line>, i: nat, level: nat)
    requires i < |lines| && StartsRow(lines[i], level)
    ensures i + SpanLength(RowAt(lines, i, level)) <= |lines|
  {
    TrimmedIsShorter(RowAt(lines, i, level).text);
    if lines[i].Heading? {
      BodyFits(lines, i + 1, level);
    }
  }

  // ----- what a span misses -----

  /** The lines from `a` to `b` that a body would keep. */
  ghost function Kept(lines: seq<Line>, a: nat, b: nat): seq<Line>
    requires a <= b <= |lines|
    decreases b - a
  {
    if a == b then [] else (if lines[a].TableRow? then [] else [lines[a]]) + Kept(lines, a + 1, b)
  }

  ghost function Tables(lines: seq<Line>, a: nat, b: nat): nat
    requires a <= b <= |lines|
    decreases b - a
  {
    if a == b then 0 else (if lines[a].TableRow? then 1 else 0) + Tables(lines, a + 1, b)
  }

  lemma {:induction false} KeptSize(lines: seq<Line>, a: nat, b: nat)
    requires a <= b <= |lines|
    ensures |Kept(lines, a, b)| + Tables(lines, a, b) == b - a
    ensures a < b && !lines[b - 1].TableRow?
            ==> Kept(lines, a, b) != [] && Kept(lines, a, b)[|Kept(lines, a, b)| - 1] == lines[b - 1]
    decreases b - a
  {
    if a < b {
      KeptSize(lines, a + 1, b);
    }
  }

  ghost predicate Unbroken(lines: seq<Line>, a: nat, b: nat, level: nat) {
    b <= |lines| && forall m | a <= m < b :: !EndsEntry(lines[m], level)
  }

  function KeptLine(ln: Line): seq<Line> { if ln.TableRow? then [] else [ln] }

  lemma BodyStep(lines: seq<Line>, a: nat, b: nat, level: nat)
    requires a < b <= |lines| && !EndsEntry(lines[a], level)
    ensures Body(lines, a, level) == KeptLine(lines[a]) + Body(lines, a + 1, level)
    ensures Kept(lines, a, b) == KeptLine(lines[a]) + Kept(lines, a + 1, b)
  {
  }

  lemma Associate(x: seq<Line>, y: seq<Line>, z: seq<Line>)
    ensures x + (y + z) == (x + y) + z
  {
  }

  lemma {:induction false} BodySplits(lines: seq<Line>, a: nat, b: nat, level: nat)
    requires a <= b && Unbroken(lines, a, b, level)
    ensures Body(lines, a, level) == Kept(lines, a, b) + Body(lines, b, level)
    decreases b - a
  {
    if a < b {
      BodyStep(lines, a, b, level);
      BodySplits(lines, a + 1, b, level);
      Associate(KeptLine(lines[a]), Kept(lines, a + 1, b), Body(lines, b, level));
    }
  }

  /** The entry at `i` has its last line that is not blank at `j`. */
  ghost predicate LastLine(lines: seq<Line>, i: nat, j: nat, level: nat) {
    && i < j < |lines| && lines[i].Heading? && lines[i].depth == level
    && Unbroken(lines, i + 1, j + 1, level)
    && !lines[j].TableRow? && !Blank(lines[j]) && forall ln | ln in Body(lines, j + 1, level) :: Blank(ln)
  }

  lemma TrimmedSize(first: Line, body: seq<Line>, kept: seq<Line>, rest: seq<Line>)
    requires body == kept + rest && kept != [] && !Blank(kept[|kept| - 1]) && forall ln | ln in rest :: Blank(ln)
    ensures |Trimmed([first] + body)| == 1 + |kept|
  {
    Associate([first], kept, rest);
    TrimmedIgnoresBlanks([first] + kept, rest);
  }

  lemma KeptToLastLine(lines: seq<Line>, i: nat, j: nat)
    requires i < j < |lines| && !lines[j].TableRow? && !Blank(lines[j])
    ensures var kept := Kept(lines, i + 1, j + 1);
            |kept| == (j - i) - Tables(lines, i + 1, j + 1) && kept != [] && !Blank(kept[|kept| - 1])
  {
    KeptSize(lines, i + 1, j + 1);
  }

  /** The text of such an entry, up to that line, is what trimming leaves. */
  lemma TrimmedToLastLine(lines: seq<Line>, i: nat, j: nat, level: nat)
    requires LastLine(lines, i, j, level)
    ensures |Trimmed([lines[i]] + Body(lines, i + 1, level))| == 1 + (j - i) - Tables(lines, i + 1, j + 1)
  {
    KeptToLastLine(lines, i, j);
    BodySplits(lines, i + 1, j + 1, level);
    TrimmedSize(lines[i], Body(lines, i + 1, level), Kept(lines, i + 1, j + 1), Body(lines, j + 1, level));
  }

  /** Table rows inside an entry are not part of its text, but its span is counted from its text:
      the entry's last line is in its span exactly when no table row stands before it. */
  lemma SpanReachesLastLineExactlyWhen(lines: seq<Line>, i: nat, j: nat, level: nat)
    requires LastLine(lines, i, j, level)
    ensures InSpan(RowAt(lines, i, level), j + 1) <==> Tables(lines, i + 1, j + 1) == 0
  {
    TrimmedToLastLine(lines, i, j, level);
    KeptSize(lines, i + 1, j + 1);
  }

  /** An entry with a table row in its middle: an edit of its last line does not select it. */
  lemma SpanMissesALine()
    ensures var lines := [Heading(3), Text(false), TableRow, Text(false)];
            LastLine(lines, 0, 3, 3) && !InSpan(RowAt(lines, 0, 3), 4)
  {
    var lines := [Heading(3), Text(false), TableRow, Text(false)];
    assert LastLine(lines, 0, 3, 3);
    assert Tables(lines, 1, 4) == 1 by {
      assert Tables(lines, 4, 4) == 0 && Tables(lines, 3, 4) == 0 && Tables(lines, 2, 4) == 1;
    }
    SpanReachesLastLineExactlyWhen(lines, 0, 3, 3);
  }
}
