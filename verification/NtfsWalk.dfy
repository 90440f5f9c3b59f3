/** The attribute walk of `scripts/verify_ntfs_read.py` over a record already fixed up. Every byte
    string is handled; whatever the walk rejects is an error. */
module NtfsWalk {
  import opened NtfsBytes

  const DATA := 0x80
  const END_MARKER := 0xFFFF_FFFF

  // ----- attributes of a record -----

  /** A whole attribute header and body fit between `position` and `used`. */
  predicate ValidAttribute(raw: seq<byte>, position: nat, used: nat) {
    && position + 24 <= used <= |raw|
    && var length := U32(raw, position + 4); length >= 24 && length % 8 == 0 && position + length <= used
  }

  predicate AtEnd(raw: seq<byte>, position: nat, used: nat) {
    used <= |raw| && (position + 4 > used || U32(raw, position) == END_MARKER)
  }

  predicate IsUnnamedData(raw: seq<byte>, position: nat)
    requires position + 24 <= |raw|
  {
    U32(raw, position) == DATA && raw[position + 9] == 0
  }

  /** The attributes from `position` to the one at `target` follow each other without a gap, and
      none of those before it is the end marker or unnamed data. */
  ghost predicate LeadsTo(raw: seq<byte>, position: nat, used: nat, target: nat): (leads: bool)
    ensures leads ==> ValidAttribute(raw, target, used)
    decreases used - position
  {
    && ValidAttribute(raw, position, used) && !AtEnd(raw, position, used)
    && (position == target
        || (!IsUnnamedData(raw, position) && LeadsTo(raw, position + U32(raw, position + 4), used, target)))
  }

  ghost predicate FirstUnnamedData(raw: seq<byte>, position: nat, used: nat, target: nat) {
    LeadsTo(raw, position, used, target) && IsUnnamedData(raw, target)
  }

  lemma {:induction false} FirstIsUnique(raw: seq<byte>, position: nat, used: nat, a: nat, b: nat)
    requires FirstUnnamedData(raw, position, used, a) && FirstUnnamedData(raw, position, used, b)
    ensures a == b
    decreases used - position
  {
    if position != a && position != b {
      FirstIsUnique(raw, position + U32(raw, position + 4), used, a, b);
    }
  }

  /** The stream is non-resident, plain LZNT1-compressed in units of sixteen clusters, starts in
      this record, has the expected size and saves space. */
  predicate Compressed(raw: seq<byte>, position: nat, expected: nat)
    requires position + 72 <= |raw|
  {
    && raw[position + 8] == 1
    && U16(raw, position + 12) % 256 == 1 && (U16(raw, position + 12) / 0x4000) % 2 == 0 && U16(raw, position + 34) == 4
    && U64(raw, position + 16) == 0
    && U64(raw, position + 48) == expected
    && 0 < U64(raw, position + 64) < expected
  }

  /** The same in bytes: the flags' low byte is one and the bit for encryption is clear. */
  lemma CompressedByBytes(raw: seq<byte>, p: nat, expected: nat)
    requires p + 72 <= |raw|
    ensures Compressed(raw, p, expected) <==>
            && raw[p + 8] == 1
            && raw[p + 12] == 1 && raw[p + 13] as int / 64 % 2 == 0
            && (forall i | p + 16 <= i < p + 24 :: raw[i] == 0)
            && raw[p + 34] == 4 && raw[p + 35] == 0
            && U64(raw, p + 48) == expected && 0 < U64(raw, p + 64) < expected
  {
    FieldsByTheirBytes(raw, p + 16);
  }

  /** An attribute's head in bytes: its type, its length and whether it is named. */
  lemma AttributeByBytes(raw: seq<byte>, p: nat, used: nat)
    requires p + 24 <= used <= |raw|
    ensures var length := raw[p + 4] as int + 0x100 * raw[p + 5] as int + 0x1_0000 * raw[p + 6] as int
                          + 0x100_0000 * raw[p + 7] as int;
            ValidAttribute(raw, p, used) <==> 24 <= length && length % 8 == 0 && p + length <= used
    ensures IsUnnamedData(raw, p) <==>
            raw[p] == 0x80 && raw[p + 1] == 0 && raw[p + 2] == 0 && raw[p + 3] == 0 && raw[p + 9] == 0
    ensures AtEnd(raw, p, used) <==>
            raw[p] == 0xFF && raw[p + 1] == 0xFF && raw[p + 2] == 0xFF && raw[p + 3] == 0xFF
  {
  }

  ghost predicate Allocation(raw: seq<byte>, start: nat, used: nat, expected: nat, target: nat) {
    && FirstUnnamedData(raw, start, used, target)
    && U32(raw, target + 4) >= 72 && Compressed(raw, target, expected)
  }

  /** Returns the allocated size recorded by the record's first unnamed data attribute. */
  method WalkAttributes(raw: seq<byte>, start: nat, used: nat, expected: nat)
    returns (r: Result<nat>, ghost target: nat)
    requires start <= used <= |raw|
    ensures r.Ok? ==> Allocation(raw, start, used, expected, target) && r.value == U64(raw, target + 64)
    ensures r.Err? ==> !exists t: nat :: Allocation(raw, start, used, expected, t)
  {
    var position := start;
    while position + 4 <= used
      invariant position <= used
      invariant forall t: nat :: Allocation(raw, start, used, expected, t)
                    <==> Allocation(raw, position, used, expected, t)
      decreases used - position
    {
      if U32(raw, position) == END_MARKER {
        break;
      }
      if !ValidAttribute(raw, position, used) {
        return Err, 0;
      }
      var length := U32(raw, position + 4);
      if IsUnnamedData(raw, position) {
        if length >= 72 && Compressed(raw, position, expected) {
          return Ok(U64(raw, position + 64)), position;
        }
        return Err, 0;
      }
      position := position + length;
    }
    return Err, 0;
  }

  /** A record's own bounds, then its attributes. */
  method CompressedAllocation(raw: seq<byte>, expected: nat) returns (r: Result<nat>)
    requires 512 <= |raw|
    ensures r.Ok? ==> 0 < r.value < expected
    ensures var usaEnd, start, used := U16(raw, 4) + 2 * U16(raw, 6), U16(raw, 20), U32(raw, 24);
            && (r.Ok? <==> usaEnd <= start <= used <= |raw|
                           && exists t: nat :: Allocation(raw, start, used, expected, t))
            && (r.Ok? ==> forall t: nat | Allocation(raw, start, used, expected, t) :: r.value == U64(raw, t + 64))
  {
    var used, position := U32(raw, 24), U16(raw, 20);
    if !(U16(raw, 4) + 2 * U16(raw, 6) <= position <= used <= |raw|) {
      return Err;
    }
    ghost var target;
    r, target := WalkAttributes(raw, position, used, expected);
    forall t: nat | Allocation(raw, position, used, expected, t) ensures r.Ok? ==> t == target {
      if r.Ok? {
        FirstIsUnique(raw, position, used, t, target);
      }
    }
  }
}
