/** Sizes, and small functions on sequences, that several modules share. */
module Common {
  import opened Format

  const KB: nat := 1024
  const KB4: nat := 4 * KB
  const KB64: nat := 64 * KB
  const KB128: nat := 128 * KB
  const GB: nat := 0x4000_0000
  const U32_RANGE: nat := 0x1_0000_0000
  const U64_RANGE: nat := 0x1_0000_0000_0000_0000

  function Least(a: nat, b: nat): (m: nat)
    ensures m <= a && m <= b && (m == a || m == b)
  {
    if a < b then a else b
  }

  predicate IsSuffix<T(==)>(s: seq<T>, t: seq<T>) {
    |s| <= |t| && t[|t| - |s|..] == s
  }

  /** memcpy of s to buf[at]. */
  method Put(buf: array<byte>, at: nat, s: seq<byte>)
    requires at + |s| <= buf.Length
    modifies buf
    ensures buf[at..at + |s|] == s && buf[..at] == old(buf[..at]) && buf[at + |s|..] == old(buf[at + |s|..])
  {
    forall i | 0 <= i < |s| { buf[at + i] := s[i]; }
  }
}
