// Little-endian fields inside a block of bytes.

module Bytes {

  type byte = x: int | 0 <= x < 256

  function U16(b: seq<byte>, off: nat): (v: nat)
    requires off + 2 <= |b|
    ensures v < 0x1_0000
  {
    var low: int, high: int := b[off], b[off + 1];
    low + 256 * high
  }

  function U32(b: seq<byte>, off: nat): (v: nat)
    requires off + 4 <= |b|
    ensures v < 0x1_0000_0000
  {
    U16(b, off) + 0x1_0000 * U16(b, off + 2)
  }

  // Fields are little-endian.
  lemma LowFirst()
    ensures U16([0x34, 0x12], 0) == 0x1234 && U32([0x78, 0x56, 0x34, 0x12], 0) == 0x1234_5678
  {
  }

  // Stores a 16-bit value in place, low byte first.
  method PutU16(a: array<byte>, off: nat, v: nat)
    requires off + 2 <= a.Length && v < 0x1_0000
    modifies a
    ensures U16(a[..], off) == v
    ensures forall i :: 0 <= i < off || off + 2 <= i < a.Length ==> a[i] == old(a[i])
  {
    a[off], a[off + 1] := v % 256, v / 256;
  }

  // Stores a 32-bit value in place, low byte first.
  method PutU32(a: array<byte>, off: nat, v: nat)
    requires off + 4 <= a.Length && v < 0x1_0000_0000
    modifies a
    ensures U32(a[..], off) == v
    ensures forall i :: 0 <= i < off || off + 4 <= i < a.Length ==> a[i] == old(a[i])
  {
    var low, high := v % 0x1_0000, v / 0x1_0000;
    a[off], a[off + 1] := low % 256, low / 256;
    a[off + 2], a[off + 3] := high % 256, high / 256;
  }
}
