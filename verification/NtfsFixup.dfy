/** The update-sequence fixup of `scripts/verify_ntfs_read.py`. On disk the last two bytes of
    every sector of a record hold a sequence number; the bytes it displaced are saved in an array
    in the record's head, after the number itself. */
module NtfsFixup {
  import opened NtfsBytes

  const SECTOR := 512
  const MAGIC: seq<byte> := [0x46, 0x49, 0x4C, 0x45]

  /** What the record's head must say before the fixup is tried. */
  predicate ValidHead(raw: seq<byte>) {
    && SECTOR <= |raw| <= 65536 && |raw| % SECTOR == 0
    && raw[..4] == MAGIC
    && U16(raw, 6) == |raw| / SECTOR + 1
    && 48 <= U16(raw, 4) && U16(raw, 4) + 2 * U16(raw, 6) <= SECTOR - 2
  }

  /** Where sector `k` ends in its sequence number. */
  function Tail(k: nat): nat { k * SECTOR + SECTOR - 2 }

  /** `usa` is the position of the array and `n` the number of sectors. */
  predicate Fits(size: nat, usa: nat, n: nat) {
    n >= 1 && n * SECTOR <= size && 48 <= usa && usa + 2 * (n + 1) <= SECTOR - 2
  }

  /** One of the first `n` sectors ends at this byte or the next. */
  predicate InTail(i: nat, n: nat) { i % SECTOR >= SECTOR - 2 && i < n * SECTOR }

  lemma TailOf(i: nat, n: nat) returns (k: nat)
    requires InTail(i, n)
    ensures k < n && (i == Tail(k) || i == Tail(k) + 1)
  {
    k := i / SECTOR;
  }

  /** Two adjacent bytes agree. */
  predicate Pair(a: seq<byte>, i: nat, b: seq<byte>, j: nat) {
    i + 2 <= |a| && j + 2 <= |b| && a[i] == b[j] && a[i + 1] == b[j + 1]
  }

  // ----- undoing the protection -----

  /** The first `n` sectors all end in the sequence number. */
  ghost predicate Untorn(raw: seq<byte>, usa: nat, n: nat) {
    forall k: nat | k < n :: Pair(raw, Tail(k), raw, usa)
  }

  /** `plain` is the record with the first `n` sectors' own bytes back; nothing else changes. */
  ghost predicate IsRestored(raw: seq<byte>, plain: seq<byte>, usa: nat, n: nat) {
    && |plain| == |raw|
    && (forall k: nat | k < n :: Pair(plain, Tail(k), raw, usa + 2 * (k + 1)))
    && (forall i: nat | i < |raw| && !InTail(i, n) :: plain[i] == raw[i])
  }

  lemma TailsGrow(i: nat, n: nat)
    ensures InTail(i, n + 1) <==> InTail(i, n) || i == Tail(n) || i == Tail(n) + 1
  {
  }

  lemma RestoreStep(raw: seq<byte>, now: seq<byte>, next: seq<byte>, usa: nat, n: nat)
    requires IsRestored(raw, now, usa, n) && Tail(n) + 2 <= |raw| && usa + 2 * (n + 2) <= |raw|
    requires next == now[Tail(n) := raw[usa + 2 * (n + 1)]][Tail(n) + 1 := raw[usa + 2 * (n + 1) + 1]]
    ensures IsRestored(raw, next, usa, n + 1)
  {
    forall k: nat | k < n + 1 ensures Pair(next, Tail(k), raw, usa + 2 * (k + 1)) {
      if k < n {
        assert Pair(now, Tail(k), raw, usa + 2 * (k + 1));
      }
    }
    forall i: nat | i < |raw| && !InTail(i, n + 1) ensures next[i] == raw[i] {
      TailsGrow(i, n);
    }
  }

  /** Puts the displaced bytes back, in place; refuses a record with any torn sector. */
  method Fixup(raw: array<byte>) returns (ok: bool)
    modifies raw
    ensures ok ==> ValidHead(old(raw[..]))
    ensures ValidHead(old(raw[..])) ==>
              var before, usa, n := old(raw[..]), U16(old(raw[..]), 4), |old(raw[..])| / SECTOR;
              ok == Untorn(before, usa, n) && (ok ==> IsRestored(before, raw[..], usa, n))
  {
    if !ValidHead(raw[..]) {
      return false;
    }
    var usa, count := U16(raw[..], 4), U16(raw[..], 6);
    ok := FixupSectors(raw, raw[..], usa, count);
  }

  method FixupSectors(raw: array<byte>, before: seq<byte>, usa: nat, count: nat) returns (ok: bool)
    requires raw[..] == before && count >= 2 && Fits(raw.Length, usa, count - 1)
    modifies raw
    ensures ok == Untorn(before, usa, count - 1)
    ensures ok ==> IsRestored(before, raw[..], usa, count - 1)
  {
    for index := 1 to count
      invariant IsRestored(before, raw[..], usa, index - 1) && Untorn(before, usa, index - 1)
    {
      ok := FixupNext(raw, before, usa, count, index);
      if !ok {
        return;
      }
    }
    ok := true;
  }

  /** A tail not reached yet is as it was. */
  lemma NextTailIsOwn(before: seq<byte>, now: seq<byte>, usa: nat, n: nat)
    requires IsRestored(before, now, usa, n) && Tail(n) + 2 <= |before|
    ensures now[Tail(n)] == before[Tail(n)] && now[Tail(n) + 1] == before[Tail(n) + 1]
  {
    assert !InTail(Tail(n), n) && !InTail(Tail(n) + 1, n);
  }

  /** The next sector, with its tail and its own bytes found. */
  method FixupNext(raw: array<byte>, before: seq<byte>, usa: nat, ghost count: nat, index: nat) returns (ok: bool)
    requires 1 <= index < count && Fits(|before|, usa, count - 1) && IsRestored(before, raw[..], usa, index - 1)
    modifies raw
    ensures ok == Pair(before, Tail(index - 1), before, usa)
    ensures ok ==> IsRestored(before, raw[..], usa, index)
  {
    var at := index * SECTOR - 2;
    assert at == Tail(index - 1);
    ghost var now := raw[..];
    NextTailIsOwn(before, now, usa, index - 1);
    ok := FixupSector(raw, at, before[usa..usa + 2], before[usa + index * 2..usa + index * 2 + 2]);
    if ok {
      RestoreStep(before, now, raw[..], usa, index - 1);
    }
  }

  /** One sector: its tail must hold the sequence number, and gets its own bytes back. */
  method FixupSector(raw: array<byte>, at: nat, number: seq<byte>, own: seq<byte>) returns (ok: bool)
    requires at + 2 <= raw.Length && |number| == 2 && |own| == 2
    modifies raw
    ensures ok <==> old(raw[..])[at] == number[0] && old(raw[..])[at + 1] == number[1]
    ensures ok ==> raw[..] == old(raw[..])[at := own[0]][at + 1 := own[1]]
  {
    ok := raw[at] == number[0] && raw[at + 1] == number[1];
    if ok {
      raw[at], raw[at + 1] := own[0], own[1];
    }
  }

  /** The head in bytes: whole sectors, "FILE", one array slot per sector and one for the number,
      and an array that ends before the first sector's last two bytes. */
  lemma HeadByBytes(raw: seq<byte>)
    ensures ValidHead(raw) <==>
            && |raw| % 512 == 0 && 1 <= |raw| / 512 <= 128
            && raw[0] == 0x46 && raw[1] == 0x49 && raw[2] == 0x4C && raw[3] == 0x45
            && raw[6] as int + 256 * raw[7] as int == |raw| / 512 + 1
            && 48 <= raw[4] as int + 256 * raw[5] as int
            && raw[4] as int + 256 * raw[5] as int + 2 * (|raw| / 512 + 1) <= 510
  {
    if |raw| >= 512 {
      assert raw[..4] == [raw[0], raw[1], raw[2], raw[3]];
    }
  }

  /** A byte that ends a sector is the sequence number's. */
  predicate EndsInNumber(raw: seq<byte>, usa: nat, i: nat)
    requires usa + 2 <= |raw| && i < |raw|
  {
    (i % 512 == 510 ==> raw[i] == raw[usa]) && (i % 512 == 511 ==> raw[i] == raw[usa + 1])
  }

  /** What is accepted, byte by byte: every sector ends in the sequence number. */
  lemma UntornByBytes(raw: seq<byte>, usa: nat, n: nat)
    requires |raw| == 512 * n && usa + 2 <= |raw|
    ensures Untorn(raw, usa, n) <==> forall i: nat | i < |raw| :: EndsInNumber(raw, usa, i)
  {
    if Untorn(raw, usa, n) {
      forall i: nat | i < |raw| ensures EndsInNumber(raw, usa, i) {
        if i % 512 >= 510 {
          var k := TailOf(i, n);
          assert Pair(raw, Tail(k), raw, usa);
        }
      }
    }
    if forall i: nat | i < |raw| :: EndsInNumber(raw, usa, i) {
      forall k: nat | k < n ensures Pair(raw, Tail(k), raw, usa) {
        TailByNumber(k, n);
        assert EndsInNumber(raw, usa, Tail(k)) && EndsInNumber(raw, usa, Tail(k) + 1);
      }
    }
  }

  lemma TailByNumber(k: nat, n: nat)
    requires k < n
    ensures Tail(k) + 2 <= 512 * n && Tail(k) % 512 == 510 && (Tail(k) + 1) % 512 == 511
  {
  }

  /** What it becomes, byte by byte: sector `k` gets slot `k + 1` of the array back. */
  lemma RestoredByBytes(raw: seq<byte>, plain: seq<byte>, i: nat)
    requires ValidHead(raw) && i < |raw| && IsRestored(raw, plain, U16(raw, 4), |raw| / SECTOR)
    ensures plain[i] == if i % 512 < 510 then raw[i] else raw[U16(raw, 4) + 2 * (i / 512 + 1) + i % 512 - 510]
  {
    if i % 512 >= 510 {
      var k := TailOf(i, |raw| / SECTOR);
      assert Pair(plain, Tail(k), raw, U16(raw, 4) + 2 * (k + 1));
    }
  }

  // ----- protection -----

  predicate InArray(i: nat, usa: nat, n: nat) { usa <= i < usa + 2 * (n + 1) }

  /** `raw` is `plain` as a writer puts it on disk: a sequence number in the array's first slot
      and at the end of each sector, the displaced bytes in the slots after it. */
  ghost predicate IsProtected(plain: seq<byte>, raw: seq<byte>, usa: nat, n: nat) {
    && |raw| == |plain|
    && (forall k: nat | k < n :: Pair(raw, Tail(k), raw, usa) && Pair(raw, usa + 2 * (k + 1), plain, Tail(k)))
    && (forall i: nat | i < |raw| && !InTail(i, n) && !InArray(i, usa, n) :: raw[i] == plain[i])
  }

  /** Where the byte in a slot of the array after the first was displaced from. */
  function DisplacedFrom(usa: nat, slot: nat): nat
    requires usa + 2 <= slot
  {
    Tail((slot - usa) / 2 - 1) + (slot - usa) % 2
  }

  lemma DisplacedInRecord(size: nat, usa: nat, n: nat, slot: nat)
    requires Fits(size, usa, n) && usa + 2 <= slot && InArray(slot, usa, n)
    ensures DisplacedFrom(usa, slot) < size
  {
    assert (slot - usa) / 2 - 1 < n;
  }

  /** The protected form of a record under a sequence number. */
  function Protect(plain: seq<byte>, usa: nat, n: nat, number: seq<byte>): (raw: seq<byte>)
    requires Fits(|plain|, usa, n) && |number| == 2
    ensures |raw| == |plain|
  {
    seq(|plain|, i requires 0 <= i < |plain| => ProtectedByte(plain, usa, n, number, i))
  }

  function ProtectedByte(plain: seq<byte>, usa: nat, n: nat, number: seq<byte>, i: nat): byte
    requires Fits(|plain|, usa, n) && |number| == 2 && i < |plain|
  {
    if InTail(i, n) then number[i % SECTOR - (SECTOR - 2)]
    else if usa <= i < usa + 2 then number[i - usa]
    else if InArray(i, usa, n) then DisplacedInRecord(|plain|, usa, n, i); plain[DisplacedFrom(usa, i)]
    else plain[i]
  }

  /** It is protected, so every plain record has a protected form for every number. */
  lemma ProtectProtects(plain: seq<byte>, usa: nat, n: nat, number: seq<byte>)
    requires Fits(|plain|, usa, n) && |number| == 2
    ensures IsProtected(plain, Protect(plain, usa, n, number), usa, n)
    ensures Protect(plain, usa, n, number)[usa..usa + 2] == number
  {
    var raw := Protect(plain, usa, n, number);
    HeadIsNoTail(usa, n);
    HeadIsNoTail(usa + 1, n);
    forall k: nat | k < n ensures Pair(raw, Tail(k), raw, usa) && Pair(raw, usa + 2 * (k + 1), plain, Tail(k)) {
      ProtectedSector(plain, usa, n, number, k);
    }
  }

  lemma HeadIsNoTail(i: nat, n: nat)
    requires i < SECTOR - 2
    ensures !InTail(i, n)
  {
  }

  lemma ProtectedSector(plain: seq<byte>, usa: nat, n: nat, number: seq<byte>, k: nat)
    requires Fits(|plain|, usa, n) && |number| == 2 && k < n
    ensures var raw := Protect(plain, usa, n, number);
            Pair(raw, Tail(k), raw, usa) && Pair(raw, usa + 2 * (k + 1), plain, Tail(k))
  {
    var slot := usa + 2 * (k + 1);
    HeadIsNoTail(usa, n);
    HeadIsNoTail(usa + 1, n);
    HeadIsNoTail(slot, n);
    HeadIsNoTail(slot + 1, n);
    assert InTail(Tail(k), n) && InTail(Tail(k) + 1, n);
    assert Tail(k) % SECTOR == SECTOR - 2 && (Tail(k) + 1) % SECTOR == SECTOR - 1;
    assert (slot - usa) / 2 - 1 == k && (slot + 1 - usa) / 2 - 1 == k;
  }

  /** Every protected record is accepted, and the fixup brings back every byte outside the array,
      whatever the sequence number. */
  lemma FixupInvertsProtection(plain: seq<byte>, raw: seq<byte>, fixed: seq<byte>, usa: nat, n: nat)
    requires Fits(|plain|, usa, n) && IsProtected(plain, raw, usa, n)
    ensures Untorn(raw, usa, n)
    ensures ValidHead(plain) && usa == U16(plain, 4) ==> ValidHead(raw) && usa == U16(raw, 4)
    ensures IsRestored(raw, fixed, usa, n)
            ==> forall i: nat | i < |plain| && !InArray(i, usa, n) :: fixed[i] == plain[i]
  {
    assert forall i: nat | i < 8 :: !InTail(i, n) && raw[i] == plain[i];
    assert raw[..4] == plain[..4];
    if IsRestored(raw, fixed, usa, n) {
      forall i: nat | i < |plain| && !InArray(i, usa, n) ensures fixed[i] == plain[i] {
        if InTail(i, n) {
          var k := TailOf(i, n);
          assert Pair(fixed, Tail(k), raw, usa + 2 * (k + 1)) && Pair(raw, usa + 2 * (k + 1), plain, Tail(k));
        }
      }
    }
  }

  /** Conversely, every record the fixup accepts is the protected form of what it makes of it. */
  lemma ProtectionInvertsFixup(raw: seq<byte>, fixed: seq<byte>, usa: nat, n: nat)
    requires Fits(|raw|, usa, n) && Untorn(raw, usa, n) && IsRestored(raw, fixed, usa, n)
    ensures IsProtected(fixed, raw, usa, n)
  {
    forall k: nat | k < n ensures Pair(raw, Tail(k), raw, usa) && Pair(raw, usa + 2 * (k + 1), fixed, Tail(k)) {
      assert Pair(fixed, Tail(k), raw, usa + 2 * (k + 1));
    }
  }

  lemma SlotsAgree(plain: seq<byte>, raw: seq<byte>, raw': seq<byte>, usa: nat, n: nat, k: nat)
    requires IsProtected(plain, raw, usa, n) && IsProtected(plain, raw', usa, n) && k < n
    ensures Pair(raw, usa + 2 * (k + 1), raw', usa + 2 * (k + 1))
  {
    assert Pair(raw, usa + 2 * (k + 1), plain, Tail(k)) && Pair(raw', usa + 2 * (k + 1), plain, Tail(k));
  }

  lemma TailsAgree(plain: seq<byte>, raw: seq<byte>, raw': seq<byte>, usa: nat, n: nat, k: nat)
    requires IsProtected(plain, raw, usa, n) && IsProtected(plain, raw', usa, n) && k < n && Pair(raw, usa, raw', usa)
    ensures Pair(raw, Tail(k), raw', Tail(k))
  {
    assert Pair(raw, Tail(k), raw, usa) && Pair(raw', Tail(k), raw', usa);
  }

  /** The plain record and the sequence number determine the protected record. */
  lemma ProtectionIsUnique(plain: seq<byte>, raw: seq<byte>, raw': seq<byte>, usa: nat, n: nat)
    requires IsProtected(plain, raw, usa, n) && IsProtected(plain, raw', usa, n)
    requires Pair(raw, usa, raw', usa)
    ensures raw == raw'
  {
    forall i: nat | i < |raw| ensures raw[i] == raw'[i] {
      if InTail(i, n) {
        var k := TailOf(i, n);
        TailsAgree(plain, raw, raw', usa, n, k);
      } else if usa + 2 <= i && InArray(i, usa, n) {
        SlotsAgree(plain, raw, raw', usa, n, (i - usa) / 2 - 1);
      }
    }
  }
}
