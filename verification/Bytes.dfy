/** Bytes, and the big-endian fields that packets and headers are made of. */
module Bytes {
  type byte = x: int | 0 <= x < 256
  type u16 = x: int | 0 <= x < 0x1_0000
  type u32 = x: int | 0 <= x < 0x1_0000_0000

  function Be16(v: u16): (b: seq<byte>)
    ensures |b| == 2
  {
    [v / 256, v % 256]
  }

  function Be32(v: u32): (b: seq<byte>)
    ensures |b| == 4
  {
    Be16(v / 0x1_0000) + Be16(v % 0x1_0000)
  }

  function FromBe16(a: byte, b: byte): (v: u16) {
    a * 256 + b
  }

  function FromBe32(a: byte, b: byte, c: byte, d: byte): (v: u32) {
    FromBe16(a, b) * 0x1_0000 + FromBe16(c, d)
  }

  lemma Be16RoundTrip(v: u16)
    ensures FromBe16(Be16(v)[0], Be16(v)[1]) == v
  {}

  function Zeros(n: nat): (z: seq<byte>)
    ensures |z| == n && forall i :: 0 <= i < n ==> z[i] == 0
  {
    seq(n, _ => 0)
  }

  function Max(a: int, b: int): (m: int) { if a > b then a else b }
  function Min(a: int, b: int): (m: int) { if a < b then a else b }
}
