/** Bytes, and little-endian fields inside a byte sequence. */
module Bytes {

  type Byte = x: int | 0 <= x < 256

  const U16_LIMIT: nat := 0x1_0000
  const U32_LIMIT: nat := 0x1_0000_0000

  function GetU16(s: seq<Byte>, at: nat): (x: nat)
    requires at + 2 <= |s|
    ensures x < U16_LIMIT
  {
    var lo: int, hi: int := s[at], s[at + 1];
    lo + 256 * hi
  }

  function GetU32(s: seq<Byte>, at: nat): (x: nat)
    requires at + 4 <= |s|
    ensures x < U32_LIMIT
  {
    GetU16(s, at) + U16_LIMIT * GetU16(s, at + 2)
  }

  /** The two bytes at `at` spell `x`. */
  predicate HasU16(s: seq<Byte>, at: nat, x: nat) {
    at + 2 <= |s| && x < U16_LIMIT && s[at] == x % 256 && s[at + 1] == x / 256
  }

  lemma ReadsBack(s: seq<Byte>, at: nat, x: nat)
    requires HasU16(s, at, x)
    ensures GetU16(s, at) == x
  {
  }

  method PutU16(a: array<Byte>, at: nat, x: nat)
    requires at + 2 <= a.Length && x < U16_LIMIT
    modifies a
    ensures HasU16(a[..], at, x)
    ensures forall i :: 0 <= i < a.Length && !(at <= i < at + 2) ==> a[i] == old(a[i])
  {
    a[at], a[at + 1] := x % 256, x / 256;
  }

  method PutU32(a: array<Byte>, at: nat, x: nat)
    requires at + 4 <= a.Length && x < U32_LIMIT
    modifies a
    ensures HasU16(a[..], at, x % U16_LIMIT) && HasU16(a[..], at + 2, x / U16_LIMIT)
    ensures forall i :: 0 <= i < a.Length && !(at <= i < at + 4) ==> a[i] == old(a[i])
  {
    PutU16(a, at, x % U16_LIMIT);
    PutU16(a, at + 2, x / U16_LIMIT);
  }
}
