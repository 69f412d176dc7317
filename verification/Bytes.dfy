/** Octets and big-endian fields. */
module Bytes {

  type byte = x: int | 0 <= x < 256

  function U16(p: seq<byte>, at: nat): (v: nat)
    requires at + 2 <= |p|
    ensures v < 65536
  {
    p[at] as int * 256 + p[at + 1]
  }

  function U32(p: seq<byte>, at: nat): (v: nat)
    requires at + 4 <= |p|
    ensures v < 0x1_0000_0000
  {
    U16(p, at) * 65536 + U16(p, at + 2)
  }

  function SetU16(p: seq<byte>, at: nat, v: nat): (q: seq<byte>)
    requires at + 2 <= |p| && v < 65536
    ensures |q| == |p| && U16(q, at) == v
    ensures forall i :: 0 <= i < |p| && i != at && i != at + 1 ==> q[i] == p[i]
  {
    p[at := v / 256][at + 1 := v % 256]
  }

  function SetU32(p: seq<byte>, at: nat, v: nat): (q: seq<byte>)
    requires at + 4 <= |p| && v < 0x1_0000_0000
    ensures |q| == |p| && U32(q, at) == v
    ensures forall i :: 0 <= i < |p| && !(at <= i < at + 4) ==> q[i] == p[i]
  {
    SetU16(SetU16(p, at, v / 65536), at + 2, v % 65536)
  }

  function Hi(v: nat): nat {
    v / 65536
  }

  function Lo(v: nat): nat {
    v % 65536
  }

  /** A 32-bit field is its two words. */
  lemma Halves(p: seq<byte>, at: nat)
    requires at + 4 <= |p|
    ensures Hi(U32(p, at)) == U16(p, at) && Lo(U32(p, at)) == U16(p, at + 2)
  {
  }
}
