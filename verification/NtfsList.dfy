/** The attribute-list walk of `scripts/verify_ntfs_read.py`: which extension records hold the
    named data streams of a file. */
module NtfsList {
  import opened NtfsBytes
  import opened Wrappers

  const DATA := 0x80
  const HEADER := 26

  /** A stream name as UTF-16 code units. */
  type Name = seq<nat>

  /** A whole entry starts here: a header, a length that keeps it in the list, a name inside it. */
  predicate ValidEntry(value: seq<byte>, offset: nat) {
    && offset + HEADER <= |value|
    && var length, count, start := EntryLength(value, offset), value[offset + 6] as int, value[offset + 7] as int;
       && length >= 32 && length % 8 == 0 && offset + length <= |value|
       && (count == 0 || (start >= HEADER && start + count * 2 <= length))
  }

  function EntryLength(value: seq<byte>, offset: nat): nat
    requires offset + HEADER <= |value|
  {
    U16(value, offset + 4)
  }

  function Units(value: seq<byte>, at: nat, count: nat): (name: Name)
    requires at + count * 2 <= |value|
  {
    seq(count, i requires 0 <= i < count => U16(value, at + 2 * i))
  }

  function RawName(value: seq<byte>, offset: nat): Name
    requires ValidEntry(value, offset)
  {
    if value[offset + 6] == 0 then [] else Units(value, offset + value[offset + 7] as int, value[offset + 6] as int)
  }

  /** Strict decoding refuses a surrogate without its other half. */
  predicate Decodes(name: Name) {
    if name == [] then true
    else if 0xD800 <= name[0] <= 0xDBFF then |name| >= 2 && 0xDC00 <= name[1] <= 0xDFFF && Decodes(name[2..])
    else !(0xDC00 <= name[0] <= 0xDFFF) && Decodes(name[1..])
  }

  function RecordOf(value: seq<byte>, offset: nat): nat
    requires offset + HEADER <= |value|
  {
    U64(value, offset + 16) % 0x1_0000_0000_0000
  }

  /** The entry where one of the named data streams starts. */
  predicate StartsStream(value: seq<byte>, offset: nat, names: set<Name>)
    requires ValidEntry(value, offset)
  {
    U32(value, offset) == DATA && U64(value, offset + 8) == 0 && RawName(value, offset) in names
  }

  /** An entry in bytes: its length and where its name is, then the name itself, the stream's type and
      starting cluster and the six bytes of the record. */
  lemma EntryByBytes(value: seq<byte>, e: nat)
    requires e + 26 <= |value|
    ensures var length := value[e + 4] as int + 256 * value[e + 5] as int;
            ValidEntry(value, e) <==>
            && 32 <= length && length % 8 == 0 && e + length <= |value|
            && (value[e + 6] == 0
                || (26 <= value[e + 7] && value[e + 7] as int + 2 * value[e + 6] as int <= length))
    ensures RecordOf(value, e) ==
            value[e + 16] as int + 0x100 * value[e + 17] as int + 0x1_0000 * value[e + 18] as int
            + 0x100_0000 * value[e + 19] as int + 0x1_0000_0000 * value[e + 20] as int
            + 0x100_0000_0000 * value[e + 21] as int
  {
    FieldsByTheirBytes(value, e + 16);
  }

  lemma StreamByBytes(value: seq<byte>, e: nat, names: set<Name>)
    requires ValidEntry(value, e)
    ensures StartsStream(value, e, names) <==>
            && value[e] == 0x80 && value[e + 1] == 0 && value[e + 2] == 0 && value[e + 3] == 0
            && (forall i | e + 8 <= i < e + 16 :: value[i] == 0)
            && RawName(value, e) in names
  {
    FieldsByTheirBytes(value, e + 8);
  }

  lemma NameByBytes(value: seq<byte>, e: nat, i: nat)
    requires ValidEntry(value, e)
    ensures |RawName(value, e)| == value[e + 6] as int
    ensures i < |RawName(value, e)| ==>
              var at := e + value[e + 7] as int + 2 * i;
              at + 1 < |value| && RawName(value, e)[i] == value[at] as int + 256 * value[at + 1] as int
  {
  }

  predicate High(unit: nat) { 0xD800 <= unit < 0xDC00 }

  predicate Low(unit: nat) { 0xDC00 <= unit < 0xE000 }

  /** A first half has its second right after it, and a second half its first right before. */
  predicate PairedAt(name: Name, i: nat)
    requires i < |name|
  {
    && (High(name[i]) ==> i + 1 < |name| && Low(name[i + 1]))
    && (Low(name[i]) ==> i > 0 && High(name[i - 1]))
  }

  ghost predicate Paired(name: Name) { forall i: nat | i < |name| :: PairedAt(name, i) }

  lemma PairedAtAfter(name: Name, n: nat, i: nat)
    requires 1 <= n && n + i < |name| && !High(name[n - 1])
    ensures PairedAt(name[n..], i) <==> PairedAt(name, n + i)
  {
  }

  /** A unit of its own, or a first half with its second, can be taken off the front. */
  lemma PairedAfter(name: Name, n: nat)
    requires 1 <= n <= |name| && !High(name[n - 1]) && forall i: nat | i < n :: PairedAt(name, i)
    ensures Paired(name) <==> Paired(name[n..])
  {
    forall i: nat | i < |name[n..]| ensures PairedAt(name[n..], i) <==> PairedAt(name, n + i) {
      PairedAtAfter(name, n, i);
    }
    if Paired(name[n..]) {
      forall i: nat | i < |name| ensures PairedAt(name, i) {
        if i >= n {
          PairedAtAfter(name, n, i - n);
        }
      }
    }
  }

  lemma {:induction false} DecodesExactlyWhenPaired(name: Name)
    ensures Decodes(name) <==> Paired(name)
    decreases |name|
  {
    if name != [] {
      if !High(name[0]) && !Low(name[0]) {
        PairedAfter(name, 1);
        DecodesExactlyWhenPaired(name[1..]);
      } else if !PairedAt(name, 0) {
        assert !Paired(name);
      } else {
        PairedAfter(name, 2);
        DecodesExactlyWhenPaired(name[2..]);
      }
    }
  }

  // ----- tiling -----

  /** From `offset` on, the list is entries end to end, each with a name that decodes. */
  ghost predicate Tiled(value: seq<byte>, offset: nat)
    decreases |value| - offset
  {
    offset == |value|
    || (ValidEntry(value, offset) && Decodes(RawName(value, offset))
        && Tiled(value, offset + EntryLength(value, offset)))
  }

  /** The offsets of those entries. */
  ghost function Entries(value: seq<byte>, offset: nat): (entries: set<nat>)
    ensures forall e | e in entries :: offset <= e && ValidEntry(value, e)
    decreases |value| - offset
  {
    if offset < |value| && ValidEntry(value, offset)
    then {offset} + Entries(value, offset + EntryLength(value, offset)) else {}
  }

  /** The entries where a given stream starts. */
  ghost function Starts(value: seq<byte>, offset: nat, names: set<Name>, name: Name): set<nat> {
    set e | e in Entries(value, offset) && StartsStream(value, e, names) && RawName(value, e) == name
  }

  /** No stream starts twice, counting those already found. */
  ghost predicate NoneTwice(value: seq<byte>, offset: nat, names: set<Name>, found: map<Name, nat>) {
    forall a, b | a in Entries(value, offset) && b in Entries(value, offset)
                  && StartsStream(value, a, names) && StartsStream(value, b, names)
                  && RawName(value, a) == RawName(value, b) ::
      a == b && RawName(value, a) !in found
  }

  /** The record of every stream that starts from `offset` on, added to those already found. */
  ghost predicate Collected(value: seq<byte>, offset: nat, names: set<Name>, found: map<Name, nat>,
                            all: map<Name, nat>)
  {
    && (forall name | name in found :: name in all && all[name] == found[name])
    && (forall e | e in Entries(value, offset) && StartsStream(value, e, names) ::
          RawName(value, e) in all && all[RawName(value, e)] == RecordOf(value, e))
    && (forall name | name in all ::
          || name in found
          || exists e :: e in Entries(value, offset) && StartsStream(value, e, names) && RawName(value, e) == name)
  }

  datatype Step = Stop | Next(offset: nat, found: map<Name, nat>)

  /** What the walk does at one entry. */
  function StepAt(value: seq<byte>, offset: nat, names: set<Name>, found: map<Name, nat>): (step: Step)
    requires offset < |value|
    ensures step.Next? ==> offset < step.offset <= |value|
  {
    if !ValidEntry(value, offset) || !Decodes(RawName(value, offset)) then Stop
    else
      var next, name := offset + EntryLength(value, offset), RawName(value, offset);
      if !StartsStream(value, offset, names) then Next(next, found)
      else if name in found then Stop
      else Next(next, found[name := RecordOf(value, offset)])
  }

  /** The walk from `offset` on, with the streams found so far. */
  ghost function Walk(value: seq<byte>, offset: nat, names: set<Name>, found: map<Name, nat>): Result<map<Name, nat>>
    decreases |value| - offset
  {
    if offset >= |value| then Ok(found)
    else match StepAt(value, offset, names, found)
      case Stop => Err
      case Next(next, more) => Walk(value, next, names, more)
  }

  lemma {:induction false} WalkMeans(value: seq<byte>, offset: nat, names: set<Name>, found: map<Name, nat>)
    requires offset <= |value|
    ensures Walk(value, offset, names, found).Ok? <==> Tiled(value, offset) && NoneTwice(value, offset, names, found)
    ensures Walk(value, offset, names, found).Ok?
            ==> Collected(value, offset, names, found, Walk(value, offset, names, found).value)
    decreases |value| - offset
  {
    if offset == |value| {
      assert Entries(value, offset) == {};
    } else if ValidEntry(value, offset) && Decodes(RawName(value, offset)) {
      var next, name := offset + EntryLength(value, offset), RawName(value, offset);
      if !StartsStream(value, offset, names) {
        SkipEntry(value, offset, names, found);
        WalkMeans(value, next, names, found);
      } else if name !in found {
        TakeStart(value, offset, names, found);
        WalkMeans(value, next, names, found[name := RecordOf(value, offset)]);
      } else {
        assert offset in Entries(value, offset);
      }
    }
  }

  method WalkList(value: seq<byte>, names: set<Name>) returns (r: Result<map<Name, nat>>)
    ensures r == Walk(value, 0, names, map[])
  {
    var offset := 0;
    var found: map<Name, nat> := map[];
    while offset < |value|
      invariant Walk(value, offset, names, found) == Walk(value, 0, names, map[])
      decreases |value| - offset
    {
      var step := Visit(value, offset, names, found);
      if step.Stop? {
        return Err;
      }
      offset, found := step.offset, step.found;
    }
    return Ok(found);
  }

  method Visit(value: seq<byte>, offset: nat, names: set<Name>, found: map<Name, nat>) returns (step: Step)
    requires offset < |value|
    ensures step == StepAt(value, offset, names, found)
  {
    if !ValidEntry(value, offset) {
      return Stop;
    }
    var name := RawName(value, offset);
    if !Decodes(name) {
      return Stop;
    }
    var found' := found;
    if StartsStream(value, offset, names) {
      if name in found {
        return Stop;
      }
      found' := found[name := RecordOf(value, offset)];
    }
    return Next(offset + EntryLength(value, offset), found');
  }

  lemma SkipEntry(value: seq<byte>, offset: nat, names: set<Name>, found: map<Name, nat>)
    requires offset < |value| && ValidEntry(value, offset) && !StartsStream(value, offset, names)
    ensures var next := offset + EntryLength(value, offset);
            && (NoneTwice(value, offset, names, found) <==> NoneTwice(value, next, names, found))
            && (forall all: map<Name, nat> ::
                  Collected(value, next, names, found, all) ==> Collected(value, offset, names, found, all))
  {
    var next := offset + EntryLength(value, offset);
    assert Entries(value, offset) == {offset} + Entries(value, next);
  }

  lemma TakeStart(value: seq<byte>, offset: nat, names: set<Name>, found: map<Name, nat>)
    requires offset < |value| && ValidEntry(value, offset) && StartsStream(value, offset, names)
    requires RawName(value, offset) !in found
    ensures var next := offset + EntryLength(value, offset);
            var more := found[RawName(value, offset) := RecordOf(value, offset)];
            && (NoneTwice(value, offset, names, found) <==> NoneTwice(value, next, names, more))
            && (forall all: map<Name, nat> ::
                  Collected(value, next, names, more, all) ==> Collected(value, offset, names, found, all))
  {
    var next, name := offset + EntryLength(value, offset), RawName(value, offset);
    var more := found[name := RecordOf(value, offset)];
    assert Entries(value, offset) == {offset} + Entries(value, next);
    assert offset !in Entries(value, next);
    forall all: map<Name, nat> | Collected(value, next, names, more, all)
      ensures Collected(value, offset, names, found, all)
    {
      assert name in more;
    }
  }

  // ----- the extension records -----

  ghost predicate Ascending(records: seq<nat>) { forall i, j | 0 <= i < j < |records| :: records[i] < records[j] }

  /** The members of a set in ascending order. */
  method Sorted(records: set<nat>) returns (sorted: seq<nat>)
    ensures Ascending(sorted) && forall n :: n in sorted <==> n in records
  {
    sorted := [];
    var rest := records;
    while rest != {}
      invariant Ascending(sorted) && rest <= records && forall n | n in sorted :: n in records && n !in rest
      invariant forall n | n in records :: n in sorted || n in rest
      invariant forall n, m | n in sorted && m in rest :: n < m
      decreases |rest|
    {
      var least := Least(rest);
      rest := rest - {least};
      assert forall i | 0 <= i < |sorted| :: sorted[i] in sorted;
      sorted := sorted + [least];
    }
  }

  /** Where a stream's first extent is recorded. */
  ghost predicate HoldsStream(value: seq<byte>, names: set<Name>, record: nat) {
    exists e :: e in Entries(value, 0) && StartsStream(value, e, names) && RecordOf(value, e) == record
  }

  /** The list is accepted when it is tiled by entries, starts every named stream exactly once,
      and at least one of them outside the base record. */
  ghost predicate Acceptable(value: seq<byte>, base: nat, names: set<Name>) {
    && value != [] && Tiled(value, 0) && NoneTwice(value, 0, names, map[])
    && (forall name | name in names :: Starts(value, 0, names, name) != {})
    && exists record: nat :: record != base && HoldsStream(value, names, record)
  }

  method ExtensionRecords(value: seq<byte>, base: nat, names: set<Name>) returns (r: Result<seq<nat>>)
    ensures r.Ok? <==> Acceptable(value, base, names)
    ensures r.Ok? ==> r.value != [] && Ascending(r.value)
                      && forall record: nat ::
                           record in r.value <==> record != base && HoldsStream(value, names, record)
  {
    WalkMeans(value, 0, names, map[]);
    if value == [] {
      return Err;
    }
    var walked := WalkList(value, names);
    if walked.Err? {
      return Err;
    }
    var found := walked.value;
    CollectedNames(value, names, found);
    if !(names <= found.Keys) {
      return Err;
    }
    var records := set name | name in found && found[name] != base :: found[name];
    RecordsHeld(value, names, found, base, records);
    var sorted := Sorted(records);
    if sorted == [] {
      return Err;
    }
    assert sorted[0] in sorted;
    return Ok(sorted);
  }

  lemma CollectedNames(value: seq<byte>, names: set<Name>, found: map<Name, nat>)
    requires Collected(value, 0, names, map[], found)
    ensures forall name | name in names :: name in found <==> Starts(value, 0, names, name) != {}
  {
    forall name | name in names ensures name in found <==> Starts(value, 0, names, name) != {} {
      if name in found {
        var e :| e in Entries(value, 0) && StartsStream(value, e, names) && RawName(value, e) == name;
        assert e in Starts(value, 0, names, name);
      }
      if Starts(value, 0, names, name) != {} {
        var e :| e in Starts(value, 0, names, name);
      }
    }
  }

  lemma RecordsHeld(value: seq<byte>, names: set<Name>, found: map<Name, nat>, base: nat, records: set<nat>)
    requires Collected(value, 0, names, map[], found)
    requires records == set name | name in found && found[name] != base :: found[name]
    ensures forall record: nat :: record in records <==> record != base && HoldsStream(value, names, record)
  {
    forall record: nat ensures record in records <==> record != base && HoldsStream(value, names, record) {
      if record in records {
        var name :| name in found && found[name] == record;
        var e :| e in Entries(value, 0) && StartsStream(value, e, names) && RawName(value, e) == name;
        assert RecordOf(value, e) == record;
      }
      if record != base && HoldsStream(value, names, record) {
        var e :| e in Entries(value, 0) && StartsStream(value, e, names) && RecordOf(value, e) == record;
        assert found[RawName(value, e)] == record;
      }
    }
  }
}
