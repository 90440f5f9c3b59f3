/** Little-endian fields of NTFS structures. */
module NtfsBytes {

  type byte = x: int | 0 <= x < 256

  datatype Result<+T> = Ok(value: T) | Err

  function U16(s: seq<byte>, i: nat): (n: nat)
    requires i + 2 <= |s|
    ensures n < 0x1_0000
  {
    s[i] as int + 256 * s[i + 1] as int
  }

  function U32(s: seq<byte>, i: nat): (n: nat)
    requires i + 4 <= |s|
    ensures n < 0x1_0000_0000
  {
    U16(s, i) + 0x1_0000 * U16(s, i + 2)
  }

  function U64(s: seq<byte>, i: nat): (n: nat)
    requires i + 8 <= |s|
    ensures n < 0x1_0000_0000_0000_0000
  {
    U32(s, i) + 0x1_0000_0000 * U32(s, i + 4)
  }

  /** The fields by their bytes, the lowest first. */
  lemma FieldsByTheirBytes(s: seq<byte>, i: nat)
    ensures i + 2 <= |s| ==> U16(s, i) == s[i] as int + 0x100 * s[i + 1] as int
    ensures i + 4 <= |s| ==>
              U32(s, i) == s[i] as int + 0x100 * s[i + 1] as int + 0x1_0000 * s[i + 2] as int
                           + 0x100_0000 * s[i + 3] as int
    ensures i + 8 <= |s| ==>
              U64(s, i) == s[i] as int + 0x100 * s[i + 1] as int + 0x1_0000 * s[i + 2] as int
                           + 0x100_0000 * s[i + 3] as int + 0x1_0000_0000 * s[i + 4] as int
                           + 0x100_0000_0000 * s[i + 5] as int + 0x1_0000_0000_0000 * s[i + 6] as int
                           + 0x100_0000_0000_0000 * s[i + 7] as int
  {
  }
}
